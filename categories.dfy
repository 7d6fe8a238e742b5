/** Category rules: a named list of description patterns, lower-cased once
    when the rule is built, and the case-insensitive substring test that
    decides whether a transaction belongs to the category. */
module Categories {
  import opened Text
  import opened Statement

  /** A category as `Category.__init__` leaves it: the patterns are already
      lower-cased. */
  datatype Category = Category(name: string, patterns: seq<string>)

  /** One entry of the categories JSON document: its "category" name and its
      "description" patterns. */
  datatype CategoryDef = CategoryDef(category: string, description: seq<string>)

  /** `Category(name, description_patterns)`: keeps the name and stores
      every pattern lower-cased, in the same order. */
  function NewCategory(name: string, descriptionPatterns: seq<string>): (c: Category)
    ensures c.name == name && |c.patterns| == |descriptionPatterns|
    ensures forall i :: 0 <= i < |c.patterns| ==> c.patterns[i] == Lower(descriptionPatterns[i])
    ensures forall i :: 0 <= i < |c.patterns| ==> IsLower(c.patterns[i])
  {
    var patterns := seq(|descriptionPatterns|, i requires 0 <= i < |descriptionPatterns| => Lower(descriptionPatterns[i]));
    assert forall i :: 0 <= i < |patterns| ==> IsLower(patterns[i]) by {
      forall i | 0 <= i < |patterns| {
        LowerIsIdempotent(descriptionPatterns[i]);
      }
    }
    Category(name, patterns)
  }

  /** Building a category from the patterns of one already built changes
      nothing: lower-casing at construction is done once and for all. */
  lemma NewCategoryIsIdempotent(name: string, descriptionPatterns: seq<string>)
    ensures var c := NewCategory(name, descriptionPatterns); NewCategory(c.name, c.patterns) == c
  {
    var c := NewCategory(name, descriptionPatterns);
    var c' := NewCategory(c.name, c.patterns);
    forall i | 0 <= i < |c.patterns|
      ensures c'.patterns[i] == c.patterns[i]
    {
      LowerIsIdempotent(descriptionPatterns[i]);
    }
  }

  /** `any(pat in text for pat in patterns)`. */
  function AnyPatternIn(patterns: seq<string>, text: string): (r: bool)
    ensures r <==> exists j :: 0 <= j < |patterns| && Contains(text, patterns[j])
    decreases |patterns|
  {
    if patterns == [] then false
    else if Contains(text, patterns[0]) then true
    else
      var r := AnyPatternIn(patterns[1..], text);
      assert (exists j :: 0 <= j < |patterns| && Contains(text, patterns[j])) ==> r by {
        if exists j :: 0 <= j < |patterns| && Contains(text, patterns[j]) {
          var j :| 0 <= j < |patterns| && Contains(text, patterns[j]);
          assert patterns[1..][j - 1] == patterns[j];
        }
      }
      r
  }

  /** `Category.matches`: some stored pattern occurs in the lower-cased
      description. */
  function Matches(c: Category, tx: Transaction): (r: bool)
    ensures r <==> exists j, i :: 0 <= j < |c.patterns| && OccursAt(Lower(tx.description), c.patterns[j], i)
  {
    AnyPatternIn(c.patterns, Lower(tx.description))
  }

  /** Matching ignores the case of the description: two descriptions that
      differ only in the case of their letters match the same categories. */
  lemma MatchesIgnoresCase(c: Category, tx: Transaction, tx': Transaction)
    requires Lower(tx.description) == Lower(tx'.description)
    ensures Matches(c, tx) == Matches(c, tx')
  {
  }

  /** Matching ignores the case of the patterns too, because construction
      lower-cases them. */
  lemma NewCategoryIgnoresPatternCase(name: string, ps: seq<string>, ps': seq<string>, tx: Transaction)
    requires |ps| == |ps'| && forall i :: 0 <= i < |ps| ==> Lower(ps[i]) == Lower(ps'[i])
    ensures Matches(NewCategory(name, ps), tx) == Matches(NewCategory(name, ps'), tx)
  {
    assert NewCategory(name, ps).patterns == NewCategory(name, ps').patterns;
  }

  /** Matching is substring containment, not word matching: a category whose
      pattern occurs anywhere inside the description matches it. */
  lemma MatchesAnySubstring(c: Category, tx: Transaction, j: nat, prefix: string, suffix: string)
    requires j < |c.patterns| && Lower(tx.description) == prefix + c.patterns[j] + suffix
    ensures Matches(c, tx)
  {
    assert OccursAt(Lower(tx.description), c.patterns[j], |prefix|);
  }

  /** `parse_categories`: one category per entry of the document, in the
      order of declaration. */
  method ParseCategories(defs: seq<CategoryDef>) returns (categories: seq<Category>)
    ensures |categories| == |defs|
    ensures forall i :: 0 <= i < |defs| ==>
              categories[i] == NewCategory(defs[i].category, defs[i].description)
  {
    categories := [];
    for n := 0 to |defs|
      invariant |categories| == n
      invariant forall i :: 0 <= i < n ==>
                  categories[i] == NewCategory(defs[i].category, defs[i].description)
    {
      var cat := NewCategory(defs[n].category, defs[n].description);
      categories := categories + [cat];
    }
  }
}
