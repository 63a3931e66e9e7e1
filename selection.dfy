/**
 * The first stages of `getYearStats`: the page window the query's
 * `limit(limit, offset)` cuts out of the year's rows, and the author-name
 * filter applied to that window afterwards.
 */
module Selection {
  import opened IgnoreCase
  import opened BudgetRows

  function Min(a: int, b: int): int { if a <= b then a else b }

  /** `LIMIT limit OFFSET offset` over the rows in the order the store returns them. */
  function Window(rows: seq<BudgetWithAuthor>, limit: nat, offset: nat): (w: seq<BudgetWithAuthor>)
    ensures |w| <= limit
    ensures |w| == Min(limit, if offset <= |rows| then |rows| - offset else 0)
    ensures forall i :: 0 <= i < |w| ==> offset + i < |rows| && w[i] == rows[offset + i]
  {
    rows[Min(offset, |rows|)..Min(offset + limit, |rows|)]
  }

  /**
   * The filter's predicate `rec.authorFullName?.contains(fullName, true) ?: false`:
   * a row without an author never matches.
   */
  predicate NameMatches(rec: BudgetWithAuthor, fullName: string)
    ensures NameMatches(rec, fullName) ==> rec.authorFullName.Some?
  {
    match rec.authorFullName
    case None => false
    case Some(name) => ContainsIgnoreCase(name, fullName)
  }

  /** `List.filter` with `NameMatches`: the matching rows, in their order. */
  function FilterByName(s: seq<BudgetWithAuthor>, fullName: string): (f: seq<BudgetWithAuthor>)
    ensures |f| <= |s|
  {
    if s == [] then []
    else
      var last := s[|s| - 1];
      FilterByName(s[..|s| - 1], fullName) + (if NameMatches(last, fullName) then [last] else [])
  }

  /** The positions in `s` of the rows `FilterByName` keeps, in increasing order. */
  function KeptIndices(s: seq<BudgetWithAuthor>, fullName: string): seq<int>
  {
    if s == [] then []
    else
      KeptIndices(s[..|s| - 1], fullName) + (if NameMatches(s[|s| - 1], fullName) then [|s| - 1] else [])
  }

  /** `idx` lists, in strictly increasing order, positions of `s` whose rows make up `f`. */
  ghost predicate SelectsInOrder(f: seq<BudgetWithAuthor>, s: seq<BudgetWithAuthor>, idx: seq<int>)
  {
    && |idx| == |f|
    && (forall i :: 0 <= i < |idx| ==> 0 <= idx[i] < |s| && f[i] == s[idx[i]])
    && (forall i, j :: 0 <= i < j < |idx| ==> idx[i] < idx[j])
  }

  /**
   * The filter keeps exactly the matching rows, each once, in their original
   * order: its result is `s` restricted to the positions whose row matches.
   */
  lemma {:induction false} FilterByNameSelects(s: seq<BudgetWithAuthor>, fullName: string)
    ensures SelectsInOrder(FilterByName(s, fullName), s, KeptIndices(s, fullName))
    ensures forall j :: 0 <= j < |s| ==> (j in KeptIndices(s, fullName) <==> NameMatches(s[j], fullName))
  {
    if s != [] {
      var p := s[..|s| - 1];
      FilterByNameSelects(p, fullName);
      assert forall i :: 0 <= i < |p| ==> p[i] == s[i];
    }
  }

  /** Every row the filter keeps matches: in particular it has an author. */
  lemma FilterByNameKeepsMatches(s: seq<BudgetWithAuthor>, fullName: string)
    ensures forall r :: r in FilterByName(s, fullName) ==> r in s && r.authorFullName.Some?
    ensures forall r :: r in FilterByName(s, fullName) ==> ContainsIgnoreCase(r.authorFullName.value, fullName)
    ensures forall r :: r in s && NameMatches(r, fullName) ==> r in FilterByName(s, fullName)
  {
    FilterByNameSelects(s, fullName);
    var f, idx := FilterByName(s, fullName), KeptIndices(s, fullName);
    forall r | r in s && NameMatches(r, fullName) ensures r in f {
      var j :| 0 <= j < |s| && s[j] == r;
      var i :| 0 <= i < |idx| && idx[i] == j;
    }
  }

  /** The filter's outcome only depends on the needle up to case. */
  lemma {:induction false} FilterByNameIgnoresNeedleCase(s: seq<BudgetWithAuthor>, fullName: string)
    ensures FilterByName(s, UpperEachChar(fullName)) == FilterByName(s, fullName)
  {
    if s != [] {
      FilterByNameIgnoresNeedleCase(s[..|s| - 1], fullName);
      if s[|s| - 1].authorFullName.Some? {
        ContainsUppercaseNeedle(s[|s| - 1].authorFullName.value, fullName);
      }
    }
  }

  /**
   * An empty needle matches exactly the rows that have an author, so running
   * the filter with `""` would drop the authorless rows; this is why the
   * filter is skipped when `fullName` is empty.
   */
  lemma EmptyNeedleMatchesAuthoredRows(rec: BudgetWithAuthor)
    ensures NameMatches(rec, "") <==> rec.authorFullName.Some?
  {
    if rec.authorFullName.Some? {
      ContainsBasics(rec.authorFullName.value, "");
    }
  }
}
