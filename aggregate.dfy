/** Grouping transactions under string keys (the dictionaries of lists that
    the categoriser fills), the debit and credit totals of a group (added
    as exact reals), and the figures reported for a group. */
module Aggregate {
  import opened Statement

  // ---------------------------------------------------------------------
  // Groups

  /** A transaction paired with the key it is filed under. */
  type Entry = (string, Transaction)

  /** `if not k in m: m[k] = []` followed by `m[k].append(tx)`. */
  function Append(m: map<string, seq<Transaction>>, k: string, tx: Transaction): (r: map<string, seq<Transaction>>)
    ensures r.Keys == m.Keys + {k}
    ensures r[k] == (if k in m then m[k] else []) + [tx]
    ensures forall j :: j in m && j != k ==> r[j] == m[j]
  {
    m[k := (if k in m then m[k] else []) + [tx]]
  }

  /** The dictionary obtained by filing each entry's transaction under its
      key, in order, starting from an empty dictionary. */
  function Group(entries: seq<Entry>): (r: map<string, seq<Transaction>>)
    ensures forall k :: k in r ==> r[k] != []
    ensures |entries| > 0 ==> entries[|entries| - 1].0 in r
    decreases |entries|
  {
    if entries == [] then map[]
    else
      var last := entries[|entries| - 1];
      Append(Group(entries[..|entries| - 1]), last.0, last.1)
  }

  /** The transactions of the entries whose key is `k`, in entry order. */
  function Select(entries: seq<Entry>, k: string): seq<Transaction>
    decreases |entries|
  {
    if entries == [] then []
    else
      var last := entries[|entries| - 1];
      Select(entries[..|entries| - 1], k) + (if last.0 == k then [last.1] else [])
  }

  /** The transactions of all entries, in order. */
  function Values(entries: seq<Entry>): (txs: seq<Transaction>)
    ensures |txs| == |entries| && forall i :: 0 <= i < |entries| ==> txs[i] == entries[i].1
  {
    seq(|entries|, i requires 0 <= i < |entries| => entries[i].1)
  }

  /** The group under `k`, empty when there is none. */
  function Bucket(m: map<string, seq<Transaction>>, k: string): seq<Transaction> {
    if k in m then m[k] else []
  }

  /** The dictionary holds a key exactly when some entry has it, and the
      list under a key is exactly the transactions filed under it, in
      order. */
  lemma {:induction false} GroupIsSelect(entries: seq<Entry>, k: string)
    ensures k in Group(entries) <==> Select(entries, k) != []
    ensures Bucket(Group(entries), k) == Select(entries, k)
    decreases |entries|
  {
    if entries != [] {
      GroupIsSelect(entries[..|entries| - 1], k);
    }
  }

  /** A key is selected from exactly when some entry carries it; a
      transaction is in the selection exactly when it is filed under that
      key. */
  lemma {:induction false} SelectMembers(entries: seq<Entry>, k: string)
    ensures Select(entries, k) != [] <==> exists i :: 0 <= i < |entries| && entries[i].0 == k
    ensures forall tx :: tx in Select(entries, k) <==> (k, tx) in entries
    decreases |entries|
  {
    if entries != [] {
      var init := entries[..|entries| - 1];
      SelectMembers(init, k);
      assert entries == init + [entries[|entries| - 1]];
      if exists i :: 0 <= i < |entries| && entries[i].0 == k {
        var i :| 0 <= i < |entries| && entries[i].0 == k;
        if i < |init| {
          assert init[i].0 == k;
        }
      }
    }
  }

  predicate NoDuplicates(names: seq<string>) {
    forall i, j :: 0 <= i < j < |names| ==> names[i] != names[j]
  }

  /** The selections under the listed keys, one after the other. */
  function ConcatSelected(entries: seq<Entry>, names: seq<string>): seq<Transaction>
    decreases |names|
  {
    if names == [] then [] else ConcatSelected(entries, names[..|names| - 1]) + Select(entries, names[|names| - 1])
  }

  lemma {:induction false} ConcatSelectedSnoc(entries: seq<Entry>, e: Entry, names: seq<string>)
    requires NoDuplicates(names)
    ensures multiset(ConcatSelected(entries + [e], names))
         == multiset(ConcatSelected(entries, names)) + (if e.0 in names then multiset{e.1} else multiset{})
    decreases |names|
  {
    if names != [] {
      var init := names[..|names| - 1];
      var n := names[|names| - 1];
      assert NoDuplicates(init);
      ConcatSelectedSnoc(entries, e, init);
      assert (entries + [e])[..|entries|] == entries;
      assert e.0 in names <==> e.0 in init || e.0 == n;
      assert e.0 == n ==> e.0 !in init;
    }
  }

  /** Every transaction lands in exactly one group: listing each key once,
      the groups together hold the transactions of the entries, each as
      many times as it occurs there. */
  lemma {:induction false} GroupsPartition(entries: seq<Entry>, names: seq<string>)
    requires NoDuplicates(names)
    requires forall i :: 0 <= i < |entries| ==> entries[i].0 in names
    ensures multiset(ConcatSelected(entries, names)) == multiset(Values(entries))
    decreases |entries|
  {
    if entries == [] {
      EmptySelections(entries, names);
    } else {
      var init := entries[..|entries| - 1];
      var e := entries[|entries| - 1];
      GroupsPartition(init, names);
      assert entries == init + [e];
      ConcatSelectedSnoc(init, e, names);
      ValuesSnoc(init, e);
    }
  }

  lemma {:induction false} EmptySelections(entries: seq<Entry>, names: seq<string>)
    requires entries == []
    ensures ConcatSelected(entries, names) == [] && SumSelected(entries, names) == ZERO
    decreases |names|
  {
    if names != [] {
      EmptySelections(entries, names[..|names| - 1]);
    }
  }

  // ---------------------------------------------------------------------
  // Totals

  /** The debit and credit totals of a group of transactions. */
  datatype Totals = Totals(debit: real, credit: real)

  const ZERO := Totals(0.0, 0.0)

  function Add(a: Totals, b: Totals): Totals {
    Totals(a.debit + b.debit, a.credit + b.credit)
  }

  function Of(tx: Transaction): Totals {
    Totals(tx.debit, tx.credit)
  }

  /** `sum(tx.debit_amount for tx in txs)` and `sum(tx.credit_amount for tx
      in txs)`. */
  function Total(txs: seq<Transaction>): Totals
    decreases |txs|
  {
    if txs == [] then ZERO else Add(Total(txs[..|txs| - 1]), Of(txs[|txs| - 1]))
  }

  /** Totals add up over a concatenation. */
  lemma {:induction false} TotalConcat(a: seq<Transaction>, b: seq<Transaction>)
    ensures Total(a + b) == Add(Total(a), Total(b))
    decreases |b|
  {
    if b == [] {
      assert a + b == a;
    } else {
      var init, last := b[..|b| - 1], b[|b| - 1];
      assert a + b == (a + init) + [last] && b == init + [last];
      TotalConcat(a, init);
      TotalSnoc(a + init, last);
      TotalSnoc(init, last);
    }
  }

  /** No debit and no credit amount is negative, as statements write them. */
  predicate NonNegative(txs: seq<Transaction>) {
    forall i :: 0 <= i < |txs| ==> txs[i].debit >= 0.0 && txs[i].credit >= 0.0
  }

  /** With amounts that are not negative, the totals are not negative
      either, and each amount is at most the total it is part of. */
  lemma {:induction false} TotalBounds(txs: seq<Transaction>)
    requires NonNegative(txs)
    ensures Total(txs).debit >= 0.0 && Total(txs).credit >= 0.0
    ensures forall i :: 0 <= i < |txs| ==> txs[i].debit <= Total(txs).debit && txs[i].credit <= Total(txs).credit
    decreases |txs|
  {
    if txs != [] {
      var init := txs[..|txs| - 1];
      assert NonNegative(init) by {
        forall i | 0 <= i < |init| ensures init[i] == txs[i] { }
      }
      TotalBounds(init);
      forall i | 0 <= i < |txs| - 1 ensures txs[i] == init[i] { }
    }
  }

  /** The totals of the selections under the listed keys, added up. */
  function SumSelected(entries: seq<Entry>, names: seq<string>): Totals
    decreases |names|
  {
    if names == [] then ZERO
    else Add(SumSelected(entries, names[..|names| - 1]), Total(Select(entries, names[|names| - 1])))
  }

  lemma {:induction false} SumSelectedSnoc(entries: seq<Entry>, e: Entry, names: seq<string>)
    requires NoDuplicates(names)
    ensures SumSelected(entries + [e], names)
         == Add(SumSelected(entries, names), if e.0 in names then Of(e.1) else ZERO)
    decreases |names|
  {
    if names != [] {
      var init := names[..|names| - 1];
      var n := names[|names| - 1];
      assert NoDuplicates(init);
      var s := Select(entries, n);
      var x := if e.0 == n then Of(e.1) else ZERO;
      var y := if e.0 in init then Of(e.1) else ZERO;
      assert Total(Select(entries + [e], n)) == Add(Total(s), x) by {
        assert (entries + [e])[..|entries|] == entries;
        assert Select(entries + [e], n) == s + (if e.0 == n then [e.1] else []);
        if e.0 == n {
          TotalSnoc(s, e.1);
        } else {
          assert s + [] == s;
        }
      }
      assert Add(y, x) == if e.0 in names then Of(e.1) else ZERO by {
        assert e.0 in names <==> e.0 in init || e.0 == n;
        assert e.0 == n ==> e.0 !in init;
      }
      calc {
        SumSelected(entries + [e], names);
        Add(SumSelected(entries + [e], init), Total(Select(entries + [e], n)));
        { SumSelectedSnoc(entries, e, init); }
        Add(Add(SumSelected(entries, init), y), Add(Total(s), x));
        { AddRearrange(SumSelected(entries, init), y, Total(s), x); }
        Add(Add(SumSelected(entries, init), Total(s)), Add(y, x));
      }
    }
  }

  lemma AddRearrange(a: Totals, b: Totals, c: Totals, d: Totals)
    ensures Add(Add(a, b), Add(c, d)) == Add(Add(a, c), Add(b, d))
  {
  }

  lemma ValuesSnoc(entries: seq<Entry>, e: Entry)
    ensures Values(entries + [e]) == Values(entries) + [e.1]
  {
  }

  lemma TotalSnoc(txs: seq<Transaction>, tx: Transaction)
    ensures Total(txs + [tx]) == Add(Total(txs), Of(tx))
  {
    assert (txs + [tx])[..|txs|] == txs;
  }

  /** Totals are conserved by grouping: over a listing of the keys without
      repetition, the group totals add up to the total of all the entries,
      so no amount is dropped or counted twice. */
  lemma {:induction false} GroupTotalsAddUp(entries: seq<Entry>, names: seq<string>)
    requires NoDuplicates(names)
    requires forall i :: 0 <= i < |entries| ==> entries[i].0 in names
    ensures SumSelected(entries, names) == Total(Values(entries))
    decreases |entries|
  {
    if entries == [] {
      EmptySelections(entries, names);
    } else {
      var init := entries[..|entries| - 1];
      var e := entries[|entries| - 1];
      assert entries == init + [e];
      assert e.0 in names;
      assert forall i :: 0 <= i < |init| ==> init[i].0 in names by {
        forall i | 0 <= i < |init| ensures init[i].0 in names {
          assert init[i] == entries[i];
        }
      }
      ValuesSnoc(init, e);
      GroupTotalsAddUp(init, names);
      SumSelectedSnoc(init, e, names);
      TotalSnoc(Values(init), e.1);
    }
  }

  // ---------------------------------------------------------------------
  // Reported totals

  /** The totals of every group of a dictionary, under the same keys. */
  function GroupTotals(groups: map<string, seq<Transaction>>): (r: map<string, Totals>)
    ensures r.Keys == groups.Keys
  {
    map k | k in groups :: Total(groups[k])
  }

  /** The reported totals under the listed keys, added up. */
  function SumOver(totals: map<string, Totals>, names: seq<string>): Totals
    decreases |names|
  {
    if names == [] then ZERO
    else
      var n := names[|names| - 1];
      Add(SumOver(totals, names[..|names| - 1]), if n in totals then totals[n] else ZERO)
  }

  /** The reported totals of the dictionary built from some entries are the
      totals of the selections. */
  lemma {:induction false} SumOverGroupTotals(entries: seq<Entry>, names: seq<string>)
    ensures SumOver(GroupTotals(Group(entries)), names) == SumSelected(entries, names)
    decreases |names|
  {
    if names != [] {
      var n := names[|names| - 1];
      SumOverGroupTotals(entries, names[..|names| - 1]);
      GroupIsSelect(entries, n);
    }
  }

  /** A key is in the dictionary exactly when some entry carries it. */
  lemma GroupKeys(entries: seq<Entry>, k: string)
    ensures k in Group(entries) <==> exists i :: 0 <= i < |entries| && entries[i].0 == k
  {
    GroupIsSelect(entries, k);
    SelectMembers(entries, k);
  }

  /** A transaction is in the group under `k` exactly when it was filed
      under `k`. */
  lemma BucketMembers(entries: seq<Entry>, k: string, tx: Transaction)
    ensures tx in Bucket(Group(entries), k) <==> (k, tx) in entries
  {
    GroupIsSelect(entries, k);
    SelectMembers(entries, k);
  }

  /** The groups under the listed keys, one after the other. */
  function ConcatBuckets(m: map<string, seq<Transaction>>, names: seq<string>): seq<Transaction>
    decreases |names|
  {
    if names == [] then [] else ConcatBuckets(m, names[..|names| - 1]) + Bucket(m, names[|names| - 1])
  }

  lemma {:induction false} ConcatBucketsOfGroup(entries: seq<Entry>, names: seq<string>)
    ensures ConcatBuckets(Group(entries), names) == ConcatSelected(entries, names)
    decreases |names|
  {
    if names != [] {
      ConcatBucketsOfGroup(entries, names[..|names| - 1]);
      GroupIsSelect(entries, names[|names| - 1]);
    }
  }

  /** Every key carried by an entry is listed. */
  lemma ListedKeys(entries: seq<Entry>, names: seq<string>)
    requires forall k :: k in Group(entries) ==> k in names
    ensures forall i :: 0 <= i < |entries| ==> entries[i].0 in names
  {
    forall i | 0 <= i < |entries| ensures entries[i].0 in names {
      GroupKeys(entries, entries[i].0);
    }
  }

  /** Grouping is a partition: listing every key of the dictionary once, its
      groups together hold exactly the filed transactions, each as many
      times as it was filed. */
  lemma GroupedPartition(entries: seq<Entry>, names: seq<string>)
    requires NoDuplicates(names)
    requires forall k :: k in Group(entries) ==> k in names
    ensures multiset(ConcatBuckets(Group(entries), names)) == multiset(Values(entries))
  {
    ListedKeys(entries, names);
    ConcatBucketsOfGroup(entries, names);
    GroupsPartition(entries, names);
  }

  /** Grouping conserves totals: listing every key of the dictionary once,
      the reported group totals add up to the totals of all the filed
      transactions. */
  lemma GroupedTotalsAddUp(entries: seq<Entry>, names: seq<string>)
    requires NoDuplicates(names)
    requires forall k :: k in Group(entries) ==> k in names
    ensures SumOver(GroupTotals(Group(entries)), names) == Total(Values(entries))
  {
    ListedKeys(entries, names);
    SumOverGroupTotals(entries, names);
    GroupTotalsAddUp(entries, names);
  }

  /** One reported figure: money out or money in. */
  datatype Figure = Out(amount: real) | In(amount: real)

  /** The figures reported for a group: "out" when the debit total is
      positive, then "in" when the credit total is positive. */
  function Figures(t: Totals): (r: seq<Figure>)
    ensures Out(t.debit) in r <==> t.debit > 0.0
    ensures In(t.credit) in r <==> t.credit > 0.0
    ensures forall f :: f in r ==> f == Out(t.debit) || f == In(t.credit)
    ensures |r| == 2 ==> r == [Out(t.debit), In(t.credit)]
    ensures |r| == (if t.debit > 0.0 then 1 else 0) + (if t.credit > 0.0 then 1 else 0)
  {
    (if t.debit > 0.0 then [Out(t.debit)] else []) + (if t.credit > 0.0 then [In(t.credit)] else [])
  }
}
