/** The classification loop of the categoriser: each transaction is matched
    against the categories in declaration order, filed under the first
    matching category's name (or "Unknown"), recorded by description when it
    matched nothing, and recorded as a conflict when it matched several. */
module Classify {
  import opened Text
  import opened Statement
  import opened Categories
  import opened Aggregate

  /** The synthetic category of transactions that match no rule. */
  const UNKNOWN: string := "Unknown"

  // ---------------------------------------------------------------------
  // Matching and resolution

  /** `[cat for cat in categories if cat.matches(tx)]`: the matching
      categories, in declaration order. */
  function MatchingCategories(categories: seq<Category>, tx: Transaction): (r: seq<Category>)
    ensures |r| <= |categories|
    ensures forall c :: c in r <==> c in categories && Matches(c, tx)
    decreases |categories|
  {
    if categories == [] then []
    else (if Matches(categories[0], tx) then [categories[0]] else []) + MatchingCategories(categories[1..], tx)
  }

  /** Matching distributes over concatenation of the rule list, so the
      match list keeps declaration order and holds each matching rule once
      per declaration. */
  lemma {:induction false} MatchingConcat(a: seq<Category>, b: seq<Category>, tx: Transaction)
    ensures MatchingCategories(a + b, tx) == MatchingCategories(a, tx) + MatchingCategories(b, tx)
    decreases |a|
  {
    if a == [] {
      assert a + b == b;
    } else {
      assert (a + b)[1..] == a[1..] + b;
      MatchingConcat(a[1..], b, tx);
    }
  }

  /** `k` is the first category, in declaration order, that matches. */
  predicate IsFirstMatch(categories: seq<Category>, tx: Transaction, k: int) {
    0 <= k < |categories| && Matches(categories[k], tx)
    && forall j :: 0 <= j < k ==> !Matches(categories[j], tx)
  }

  /** The head of the match list is the first-declared matching category. */
  lemma {:induction false} FirstMatchHeadsList(categories: seq<Category>, tx: Transaction, k: int)
    requires IsFirstMatch(categories, tx, k)
    ensures MatchingCategories(categories, tx) != []
    ensures MatchingCategories(categories, tx)[0] == categories[k]
    decreases k
  {
    if k > 0 {
      assert !Matches(categories[0], tx);
      assert IsFirstMatch(categories[1..], tx, k - 1) by {
        forall j | 0 <= j < k - 1 ensures !Matches(categories[1..][j], tx) {
          assert categories[1..][j] == categories[j + 1];
        }
      }
      FirstMatchHeadsList(categories[1..], tx, k - 1);
    }
  }

  /** The match list is empty exactly when no category matches; otherwise
      some category is the first to match. */
  lemma SomeFirstMatch(categories: seq<Category>, tx: Transaction)
    ensures MatchingCategories(categories, tx) == [] <==> forall c :: c in categories ==> !Matches(c, tx)
    ensures MatchingCategories(categories, tx) != [] ==> exists k :: IsFirstMatch(categories, tx, k)
  {
    var matching := MatchingCategories(categories, tx);
    if matching != [] {
      assert matching[0] in matching;
      FirstMatchExists(categories, tx);
    }
  }

  /** When some category matches, one of them is the first to. */
  lemma {:induction false} FirstMatchExists(categories: seq<Category>, tx: Transaction)
    requires exists c :: c in categories && Matches(c, tx)
    ensures exists k :: IsFirstMatch(categories, tx, k)
    decreases |categories|
  {
    if Matches(categories[0], tx) {
      assert IsFirstMatch(categories, tx, 0);
    } else {
      var c :| c in categories && Matches(c, tx);
      assert c in categories[1..];
      FirstMatchExists(categories[1..], tx);
      var k :| IsFirstMatch(categories[1..], tx, k);
      forall j | 0 <= j < k + 1 ensures !Matches(categories[j], tx) {
        if j > 0 {
          assert categories[j] == categories[1..][j - 1];
        }
      }
      assert IsFirstMatch(categories, tx, k + 1);
    }
  }

  /** Two descriptions equal up to case match the same categories, in the
      same order. */
  lemma {:induction false} MatchingDependsOnDescription(categories: seq<Category>, tx: Transaction, tx': Transaction)
    requires Lower(tx.description) == Lower(tx'.description)
    ensures MatchingCategories(categories, tx) == MatchingCategories(categories, tx')
    decreases |categories|
  {
    if categories != [] {
      MatchesIgnoresCase(categories[0], tx, tx');
      MatchingDependsOnDescription(categories[1..], tx, tx');
    }
  }

  /** The name a transaction is filed under: the name of the head of its
      match list, or "Unknown" when the list is empty. */
  function ResolvedName(categories: seq<Category>, tx: Transaction): (name: string)
    ensures name != UNKNOWN ==> exists c :: c in categories && Matches(c, tx) && c.name == name
  {
    var matching := MatchingCategories(categories, tx);
    assert |matching| > 0 ==> matching[0] in matching;
    if |matching| == 0 then UNKNOWN else matching[0].name
  }

  /** The tie-break: "Unknown" when no category matches, otherwise the
      first-declared matching category wins, even when several match. */
  lemma ResolvedNameIsFirstMatch(categories: seq<Category>, tx: Transaction)
    ensures (forall c :: c in categories ==> !Matches(c, tx)) ==> ResolvedName(categories, tx) == UNKNOWN
    ensures forall k :: IsFirstMatch(categories, tx, k) ==> ResolvedName(categories, tx) == categories[k].name
  {
    forall k | IsFirstMatch(categories, tx, k) ensures ResolvedName(categories, tx) == categories[k].name {
      FirstMatchHeadsList(categories, tx, k);
    }
    SomeFirstMatch(categories, tx);
  }

  // ---------------------------------------------------------------------
  // What the loop files, as functions of the transactions seen

  /** Each transaction paired with the name it is filed under. */
  function CategoryEntries(categories: seq<Category>, txs: seq<Transaction>): seq<Entry>
    decreases |txs|
  {
    if txs == [] then []
    else
      var tx := txs[|txs| - 1];
      CategoryEntries(categories, txs[..|txs| - 1]) + [(ResolvedName(categories, tx), tx)]
  }

  /** The transactions that match no category, paired with their
      descriptions. */
  function UnknownEntries(categories: seq<Category>, txs: seq<Transaction>): seq<Entry>
    decreases |txs|
  {
    if txs == [] then []
    else
      var tx := txs[|txs| - 1];
      UnknownEntries(categories, txs[..|txs| - 1])
        + (if MatchingCategories(categories, tx) == [] then [(tx.description, tx)] else [])
  }

  /** The transactions that match no category, in order. */
  function Unmatched(categories: seq<Category>, txs: seq<Transaction>): seq<Transaction>
    decreases |txs|
  {
    if txs == [] then []
    else
      var tx := txs[|txs| - 1];
      Unmatched(categories, txs[..|txs| - 1]) + (if MatchingCategories(categories, tx) == [] then [tx] else [])
  }

  /** The conflict dictionary: for each description whose transaction
      matched several categories, the match list of the last such
      transaction. */
  function ConflictsOf(categories: seq<Category>, txs: seq<Transaction>): map<string, seq<Category>>
    decreases |txs|
  {
    if txs == [] then map[]
    else
      var tx := txs[|txs| - 1];
      var m := ConflictsOf(categories, txs[..|txs| - 1]);
      var matching := MatchingCategories(categories, tx);
      if |matching| > 1 then m[tx.description := matching] else m
  }

  // ---------------------------------------------------------------------
  // The loop

  /** The classification loop of the script's main block: one pass over the
      statement filling the three dictionaries. */
  method ClassifyTransactions(categories: seq<Category>, transactions: seq<Transaction>)
    returns (categoryTransactions: map<string, seq<Transaction>>,
             unknownTxDescriptions: map<string, seq<Transaction>>,
             multipleCategoryTxDescriptions: map<string, seq<Category>>)
    ensures categoryTransactions == Group(CategoryEntries(categories, transactions))
    ensures unknownTxDescriptions == Group(UnknownEntries(categories, transactions))
    ensures multipleCategoryTxDescriptions == ConflictsOf(categories, transactions)
  {
    categoryTransactions := map[];
    unknownTxDescriptions := map[];
    multipleCategoryTxDescriptions := map[];
    for n := 0 to |transactions|
      invariant categoryTransactions == Group(CategoryEntries(categories, transactions[..n]))
      invariant unknownTxDescriptions == Group(UnknownEntries(categories, transactions[..n]))
      invariant multipleCategoryTxDescriptions == ConflictsOf(categories, transactions[..n])
    {
      var tx := transactions[n];
      var cat := MatchingCategories(categories, tx);
      ConflictsStep(categories, transactions, n);
      if |cat| > 1 {
        multipleCategoryTxDescriptions := multipleCategoryTxDescriptions[tx.description := cat];
      }

      var catName;
      UnknownStep(categories, transactions, n);
      if |cat| == 0 {
        catName := UNKNOWN;
        FileUnder(unknownTxDescriptions, tx.description, tx);
        if tx.description !in unknownTxDescriptions {
          unknownTxDescriptions := unknownTxDescriptions[tx.description := []];
        }
        unknownTxDescriptions := unknownTxDescriptions[tx.description := unknownTxDescriptions[tx.description] + [tx]];
      } else {
        catName := cat[0].name;
      }

      assert catName == ResolvedName(categories, tx);
      CategoryStep(categories, transactions, n);
      FileUnder(categoryTransactions, catName, tx);
      if catName !in categoryTransactions {
        categoryTransactions := categoryTransactions[catName := []];
      }
      categoryTransactions := categoryTransactions[catName := categoryTransactions[catName] + [tx]];
    }
    assert transactions[..|transactions|] == transactions;
  }

  /** One more transaction appends it to the group of its resolved name. */
  lemma CategoryStep(categories: seq<Category>, txs: seq<Transaction>, n: nat)
    requires n < |txs|
    ensures Group(CategoryEntries(categories, txs[..n + 1]))
         == Append(Group(CategoryEntries(categories, txs[..n])), ResolvedName(categories, txs[n]), txs[n])
  {
    assert txs[..n + 1][..n] == txs[..n];
    GroupSnoc(CategoryEntries(categories, txs[..n]), (ResolvedName(categories, txs[n]), txs[n]));
  }

  /** One more transaction that matches nothing is appended under its
      description; one that matches something changes nothing. */
  lemma UnknownStep(categories: seq<Category>, txs: seq<Transaction>, n: nat)
    requires n < |txs|
    ensures MatchingCategories(categories, txs[n]) == [] ==>
      Group(UnknownEntries(categories, txs[..n + 1]))
        == Append(Group(UnknownEntries(categories, txs[..n])), txs[n].description, txs[n])
    ensures MatchingCategories(categories, txs[n]) != [] ==>
      Group(UnknownEntries(categories, txs[..n + 1])) == Group(UnknownEntries(categories, txs[..n]))
  {
    var tx := txs[n];
    var prev := UnknownEntries(categories, txs[..n]);
    assert txs[..n + 1][..n] == txs[..n];
    if MatchingCategories(categories, tx) == [] {
      GroupSnoc(prev, (tx.description, tx));
    } else {
      assert prev + [] == prev;
    }
  }

  /** One more transaction with several matches records its match list
      under its description, replacing any earlier one. */
  lemma ConflictsStep(categories: seq<Category>, txs: seq<Transaction>, n: nat)
    requires n < |txs|
    ensures var m := ConflictsOf(categories, txs[..n]);
      var matching := MatchingCategories(categories, txs[n]);
      ConflictsOf(categories, txs[..n + 1]) == if |matching| > 1 then m[txs[n].description := matching] else m
  {
    assert txs[..n + 1][..n] == txs[..n];
  }

  /** `if not k in m: m[k] = []` then `m[k].append(tx)` is `Append`. */
  lemma FileUnder(m: map<string, seq<Transaction>>, k: string, tx: Transaction)
    ensures var m' := if k !in m then m[k := []] else m;
      m'[k := m'[k] + [tx]] == Append(m, k, tx)
  {
  }

  lemma GroupSnoc(entries: seq<Entry>, e: Entry)
    ensures Group(entries + [e]) == Append(Group(entries), e.0, e.1)
  {
    assert (entries + [e])[..|entries|] == entries;
  }

  // ---------------------------------------------------------------------
  // What the dictionaries hold

  lemma {:induction false} ValuesOfCategoryEntries(categories: seq<Category>, txs: seq<Transaction>)
    ensures Values(CategoryEntries(categories, txs)) == txs
    decreases |txs|
  {
    if txs != [] {
      var init := txs[..|txs| - 1];
      var tx := txs[|txs| - 1];
      ValuesSnoc(CategoryEntries(categories, init), (ResolvedName(categories, tx), tx));
      ValuesOfCategoryEntries(categories, init);
      assert txs == init + [tx];
    }
  }

  lemma {:induction false} CategoryEntriesMembers(categories: seq<Category>, txs: seq<Transaction>, k: string, tx: Transaction)
    ensures (k, tx) in CategoryEntries(categories, txs) <==> tx in txs && k == ResolvedName(categories, tx)
    decreases |txs|
  {
    if txs != [] {
      var init := txs[..|txs| - 1];
      CategoryEntriesMembers(categories, init, k, tx);
      assert txs == init + [txs[|txs| - 1]];
    }
  }

  /** Each transaction is filed under exactly its resolved name: it lies in
      the group under `k` iff it is one of the statement's transactions and
      `k` is the name it resolves to. Neither the unknown nor the conflict
      dictionary has a say in this. */
  lemma FiledUnderResolvedName(categories: seq<Category>, txs: seq<Transaction>, k: string, tx: Transaction)
    ensures tx in Bucket(Group(CategoryEntries(categories, txs)), k) <==> tx in txs && k == ResolvedName(categories, tx)
  {
    BucketMembers(CategoryEntries(categories, txs), k, tx);
    CategoryEntriesMembers(categories, txs, k, tx);
  }

  /** Every transaction lands in exactly one category group: listing every
      category name of the dictionary once, the groups together hold the
      statement's transactions, each as often as it occurs there. */
  lemma CategoryPartition(categories: seq<Category>, txs: seq<Transaction>, names: seq<string>)
    requires NoDuplicates(names)
    requires forall k :: k in Group(CategoryEntries(categories, txs)) ==> k in names
    ensures multiset(ConcatBuckets(Group(CategoryEntries(categories, txs)), names)) == multiset(txs)
  {
    GroupedPartition(CategoryEntries(categories, txs), names);
    ValuesOfCategoryEntries(categories, txs);
  }

  /** Totals conservation: the per-category debit totals add up to the
      statement's debit total, and likewise for credits. */
  lemma CategoryTotalsAddUp(categories: seq<Category>, txs: seq<Transaction>, names: seq<string>)
    requires NoDuplicates(names)
    requires forall k :: k in Group(CategoryEntries(categories, txs)) ==> k in names
    ensures SumOver(GroupTotals(Group(CategoryEntries(categories, txs))), names) == Total(txs)
  {
    GroupedTotalsAddUp(CategoryEntries(categories, txs), names);
    ValuesOfCategoryEntries(categories, txs);
  }

  /** No declared category is itself called "Unknown". */
  predicate NoCategoryNamedUnknown(categories: seq<Category>) {
    forall i :: 0 <= i < |categories| ==> categories[i].name != UNKNOWN
  }

  /** Without a category of that name, a transaction resolves to "Unknown"
      exactly when nothing matches it. */
  lemma ResolvedUnknown(categories: seq<Category>, tx: Transaction)
    requires NoCategoryNamedUnknown(categories)
    ensures ResolvedName(categories, tx) == UNKNOWN <==> MatchingCategories(categories, tx) == []
  {
    var matching := MatchingCategories(categories, tx);
    if matching != [] {
      assert matching[0] in categories;
    }
  }

  lemma {:induction false} SelectUnknown(categories: seq<Category>, txs: seq<Transaction>)
    requires NoCategoryNamedUnknown(categories)
    ensures Select(CategoryEntries(categories, txs), UNKNOWN) == Unmatched(categories, txs)
    decreases |txs|
  {
    if txs != [] {
      var init := txs[..|txs| - 1];
      var tx := txs[|txs| - 1];
      var entries := CategoryEntries(categories, txs);
      SelectUnknown(categories, init);
      ResolvedUnknown(categories, tx);
      assert entries[..|entries| - 1] == CategoryEntries(categories, init);
    }
  }

  /** The "Unknown" group is exactly the unmatched transactions, in
      statement order, provided no declared category is itself called
      "Unknown" (one that is shares the group). */
  lemma UnknownBucketIsUnmatched(categories: seq<Category>, txs: seq<Transaction>)
    requires NoCategoryNamedUnknown(categories)
    ensures Bucket(Group(CategoryEntries(categories, txs)), UNKNOWN) == Unmatched(categories, txs)
  {
    GroupIsSelect(CategoryEntries(categories, txs), UNKNOWN);
    SelectUnknown(categories, txs);
  }

  lemma {:induction false} ValuesOfUnknownEntries(categories: seq<Category>, txs: seq<Transaction>)
    ensures Values(UnknownEntries(categories, txs)) == Unmatched(categories, txs)
    decreases |txs|
  {
    if txs != [] {
      var init := txs[..|txs| - 1];
      var tx := txs[|txs| - 1];
      ValuesOfUnknownEntries(categories, init);
      if MatchingCategories(categories, tx) == [] {
        ValuesSnoc(UnknownEntries(categories, init), (tx.description, tx));
      } else {
        assert UnknownEntries(categories, init) + [] == UnknownEntries(categories, init);
      }
    }
  }

  lemma {:induction false} UnknownEntriesMembers(categories: seq<Category>, txs: seq<Transaction>, d: string, tx: Transaction)
    ensures (d, tx) in UnknownEntries(categories, txs)
        <==> tx in txs && d == tx.description && MatchingCategories(categories, tx) == []
    decreases |txs|
  {
    if txs != [] {
      var init := txs[..|txs| - 1];
      UnknownEntriesMembers(categories, init, d, tx);
      assert txs == init + [txs[|txs| - 1]];
    }
  }

  /** The unknown dictionary: a description is a key iff some transaction
      with that description matched no category, and the list under it is
      exactly those transactions. */
  lemma UnknownDescriptions(categories: seq<Category>, txs: seq<Transaction>, d: string)
    ensures d in Group(UnknownEntries(categories, txs))
        <==> exists tx :: tx in txs && tx.description == d && MatchingCategories(categories, tx) == []
    ensures forall tx ::
              tx in Bucket(Group(UnknownEntries(categories, txs)), d)
              <==> tx in txs && tx.description == d && MatchingCategories(categories, tx) == []
  {
    var entries := UnknownEntries(categories, txs);
    forall tx ensures tx in Bucket(Group(entries), d)
        <==> tx in txs && tx.description == d && MatchingCategories(categories, tx) == [] {
      BucketMembers(entries, d, tx);
      UnknownEntriesMembers(categories, txs, d, tx);
    }
    GroupIsSelect(entries, d);
    if d in Group(entries) {
      assert Bucket(Group(entries), d)[0] in Bucket(Group(entries), d);
    }
  }

  /** The unknown group totals add up to the totals of the unmatched
      transactions. */
  lemma UnknownTotalsAddUp(categories: seq<Category>, txs: seq<Transaction>, names: seq<string>)
    requires NoDuplicates(names)
    requires forall k :: k in Group(UnknownEntries(categories, txs)) ==> k in names
    ensures SumOver(GroupTotals(Group(UnknownEntries(categories, txs))), names) == Total(Unmatched(categories, txs))
  {
    GroupedTotalsAddUp(UnknownEntries(categories, txs), names);
    ValuesOfUnknownEntries(categories, txs);
  }

  /** Without a category called "Unknown", the "Unknown" group holds the
      same transactions as the unknown dictionary, listing each of its
      descriptions once. */
  lemma UnknownBucketMatchesUnknownMap(categories: seq<Category>, txs: seq<Transaction>, names: seq<string>)
    requires NoCategoryNamedUnknown(categories)
    requires NoDuplicates(names)
    requires forall k :: k in Group(UnknownEntries(categories, txs)) ==> k in names
    ensures multiset(Bucket(Group(CategoryEntries(categories, txs)), UNKNOWN))
         == multiset(ConcatBuckets(Group(UnknownEntries(categories, txs)), names))
  {
    UnknownBucketIsUnmatched(categories, txs);
    GroupedPartition(UnknownEntries(categories, txs), names);
    ValuesOfUnknownEntries(categories, txs);
  }

  /** `tx` has description `d` and matched more than one category. */
  predicate Conflicting(categories: seq<Category>, tx: Transaction, d: string) {
    tx.description == d && |MatchingCategories(categories, tx)| > 1
  }

  /** Every key of the conflict dictionary comes from a transaction with
      that description and several matches, whose match list it holds. */
  lemma {:induction false} ConflictKeysSound(categories: seq<Category>, txs: seq<Transaction>, d: string)
    requires d in ConflictsOf(categories, txs)
    ensures exists tx :: tx in txs && Conflicting(categories, tx, d)
                         && ConflictsOf(categories, txs)[d] == MatchingCategories(categories, tx)
    decreases |txs|
  {
    var init := txs[..|txs| - 1];
    var last := txs[|txs| - 1];
    assert last in txs;
    if !Conflicting(categories, last, d) {
      assert d in ConflictsOf(categories, init);
      ConflictKeysSound(categories, init, d);
      var tx :| tx in init && Conflicting(categories, tx, d)
                && ConflictsOf(categories, init)[d] == MatchingCategories(categories, tx);
      assert tx in txs by {
        assert txs == init + [last];
      }
    }
  }

  /** The description of every transaction with several matches is a key
      of the conflict dictionary. */
  lemma {:induction false} ConflictKeysComplete(categories: seq<Category>, txs: seq<Transaction>, tx: Transaction)
    requires tx in txs && |MatchingCategories(categories, tx)| > 1
    ensures tx.description in ConflictsOf(categories, txs)
    decreases |txs|
  {
    var init := txs[..|txs| - 1];
    var last := txs[|txs| - 1];
    if tx != last {
      assert tx in init by {
        assert txs == init + [last];
      }
      ConflictKeysComplete(categories, init, tx);
    }
  }

  /** The conflict dictionary: a description is a key iff some transaction
      with that description matched more than one category, and the value
      is the full match list of every such transaction (they all match the
      same categories, so which one was recorded last does not matter). */
  lemma ConflictDescriptions(categories: seq<Category>, txs: seq<Transaction>, d: string)
    ensures d in ConflictsOf(categories, txs)
        <==> exists tx :: tx in txs && tx.description == d && |MatchingCategories(categories, tx)| > 1
    ensures d in ConflictsOf(categories, txs) ==>
      forall tx :: tx in txs && tx.description == d ==> ConflictsOf(categories, txs)[d] == MatchingCategories(categories, tx)
  {
    if exists tx :: tx in txs && tx.description == d && |MatchingCategories(categories, tx)| > 1 {
      var tx :| tx in txs && tx.description == d && |MatchingCategories(categories, tx)| > 1;
      ConflictKeysComplete(categories, txs, tx);
    }
    if d in ConflictsOf(categories, txs) {
      ConflictKeysSound(categories, txs, d);
      var w :| w in txs && Conflicting(categories, w, d)
               && ConflictsOf(categories, txs)[d] == MatchingCategories(categories, w);
      forall tx | tx in txs && tx.description == d
        ensures ConflictsOf(categories, txs)[d] == MatchingCategories(categories, tx)
      {
        MatchingDependsOnDescription(categories, w, tx);
      }
    }
  }

  /** A conflict is resolved in favour of the first category of its match
      list: every transaction with that description is filed under that
      category's name. */
  lemma ConflictResolvesToHead(categories: seq<Category>, txs: seq<Transaction>, d: string)
    requires d in ConflictsOf(categories, txs)
    ensures |ConflictsOf(categories, txs)[d]| > 1
    ensures forall tx :: tx in txs && tx.description == d ==>
      ResolvedName(categories, tx) == ConflictsOf(categories, txs)[d][0].name
      && tx in Bucket(Group(CategoryEntries(categories, txs)), ConflictsOf(categories, txs)[d][0].name)
  {
    ConflictDescriptions(categories, txs, d);
    var head := ConflictsOf(categories, txs)[d][0].name;
    forall tx | tx in txs && tx.description == d
      ensures ResolvedName(categories, tx) == head
      ensures tx in Bucket(Group(CategoryEntries(categories, txs)), head)
    {
      FiledUnderResolvedName(categories, txs, head, tx);
    }
  }
}
