/**
 * `BudgetService.getYearStats` after its query: the rows the store returns
 * for the year (left-joined with their authors) go through the page window,
 * the optional author-name filter, the count, the sums by type and the
 * shaping of each row into a response item.
 */
module BudgetService {
  import opened Wrappers
  import opened Int32
  import opened IgnoreCase
  import opened BudgetRows
  import opened LinkedMaps
  import opened Selection
  import opened TypeTotals
  import opened Items

  /** `BudgetYearStatsResponse`. */
  datatype YearStatsResponse = YearStatsResponse(
    total: nat,
    totalByType: seq<(string, int32)>,
    items: seq<Item>
  )

  /** The rows the response is about: the page window, filtered by author name when a name is given. */
  function Selected(rows: seq<BudgetWithAuthor>, param: BudgetYearParam): seq<BudgetWithAuthor>
  {
    var query := Window(rows, param.limit, param.offset);
    if param.fullName != "" then FilterByName(query, param.fullName) else query
  }

  /** The response `getYearStats` builds from the rows of the year. */
  function YearStats(rows: seq<BudgetWithAuthor>, param: BudgetYearParam): YearStatsResponse
  {
    var query := Selected(rows, param);
    YearStatsResponse(|query|, SumByType(query), seq(|query|, i requires 0 <= i < |query| => Shaped(query[i])))
  }

  /** The `run` block in `getYearStats`' `forEach`: a fresh `LinkedHashMap` filled by one `put` per column, the author columns only when non-null. */
  method ShapeRecord(rec: BudgetWithAuthor) returns (map': Item)
    ensures map' == Shaped(rec)
  {
    ghost var y, m, a, t := (Year, IntValue(rec.year)), (Month, IntValue(rec.month)),
                             (Amount, IntValue(rec.amount)), (Type, TypeValue(rec.budgetType));
    map' := [];
    map' := Put(map', Year, IntValue(rec.year));
    assert map' == [y];
    map' := Put(map', Month, IntValue(rec.month));
    assert map' == [y, m] by { PutAbsent([y], Month, IntValue(rec.month)); }
    map' := Put(map', Amount, IntValue(rec.amount));
    assert map' == [y, m, a] by { PutAbsent([y, m], Amount, IntValue(rec.amount)); }
    map' := Put(map', Type, TypeValue(rec.budgetType));
    assert map' == [y, m, a, t] by { PutAbsent([y, m, a], Type, TypeValue(rec.budgetType)); }
    if rec.authorFullName.Some? {
      ghost var n := (FullName, TextValue(rec.authorFullName.value));
      map' := Put(map', FullName, TextValue(rec.authorFullName.value));
      assert map' == [y, m, a, t, n] by { PutAbsent([y, m, a, t], FullName, TextValue(rec.authorFullName.value)); }
    }
    if rec.authorCreatedAt.Some? {
      ghost var before := map';
      assert CreatedAt !in Keys(before) by {
        assert Keys([y, m, a, t]) == [Year, Month, Amount, Type];
        assert before == [y, m, a, t] || Keys(before) == [Year, Month, Amount, Type, FullName];
      }
      map' := Put(map', CreatedAt, TextValue(rec.authorCreatedAt.value));
      assert map' == before + [(CreatedAt, TextValue(rec.authorCreatedAt.value))] by {
        PutAbsent(before, CreatedAt, TextValue(rec.authorCreatedAt.value));
      }
    }
  }

  /** The `forEach` in `getYearStats`: it appends one shaped item per row to the `items` list. */
  method ShapeItems(query: seq<BudgetWithAuthor>) returns (items: seq<Item>)
    ensures |items| == |query|
    ensures forall i :: 0 <= i < |query| ==> items[i] == Shaped(query[i])
  {
    items := [];
    var n := 0;
    while n < |query|
      invariant 0 <= n <= |query|
      invariant |items| == n
      invariant forall i :: 0 <= i < n ==> items[i] == Shaped(query[i])
    {
      var map' := ShapeRecord(query[n]);
      items := items + [map'];
      n := n + 1;
    }
  }

  /**
   * `getYearStats` on the rows the year's query returned: the response is
   * `YearStats`, it counts exactly its items, no more than one page of them,
   * and every item reports the requested year.
   */
  method GetYearStats(rows: seq<BudgetWithAuthor>, param: BudgetYearParam) returns (response: YearStatsResponse)
    requires AllOfYear(rows, param.year)
    ensures response == YearStats(rows, param)
    ensures response.total == |response.items| <= param.limit
    ensures forall i :: 0 <= i < |response.items| ==> Lookup(response.items[i], Year) == Some(IntValue(param.year))
  {
    var query := Window(rows, param.limit, param.offset);
    if param.fullName != "" {
      query := FilterByName(query, param.fullName);
    }
    var total := |query|;
    var sumByType := SumByType(query);
    var items := ShapeItems(query);
    response := YearStatsResponse(total, sumByType, items);
    forall i | 0 <= i < |items| ensures Lookup(items[i], Year) == Some(IntValue(param.year)) {
      ShapedItem(query[i]);
      assert query[i] in Window(rows, param.limit, param.offset) by {
        if param.fullName != "" {
          FilterByNameKeepsMatches(Window(rows, param.limit, param.offset), param.fullName);
        }
      }
    }
  }

  /** The positions, in the year's rows, of the rows `Selected` keeps, in increasing order. */
  function SelectedIndices(rows: seq<BudgetWithAuthor>, param: BudgetYearParam): seq<int>
  {
    var window := Window(rows, param.limit, param.offset);
    if param.fullName == "" then
      seq(|window|, i requires 0 <= i < |window| => param.offset + i)
    else
      var kept := KeptIndices(window, param.fullName);
      seq(|kept|, i requires 0 <= i < |kept| => param.offset + kept[i])
  }

  /** Without a name, the selected rows are those at the page's positions. */
  lemma PageSelection(rows: seq<BudgetWithAuthor>, param: BudgetYearParam)
    requires param.fullName == ""
    ensures SelectsInOrder(Selected(rows, param), rows, SelectedIndices(rows, param))
    ensures forall j :: 0 <= j < |rows| ==>
      (j in SelectedIndices(rows, param) <==> param.offset <= j < param.offset + param.limit)
  {
    var idx := SelectedIndices(rows, param);
    forall j | 0 <= j < |rows| && param.offset <= j < param.offset + param.limit ensures j in idx {
      assert idx[j - param.offset] == j;
    }
  }

  /** With a name, the selected rows sit, in order, at the positions `SelectedIndices` lists. */
  lemma FilteredPageOrder(rows: seq<BudgetWithAuthor>, param: BudgetYearParam)
    requires param.fullName != ""
    ensures SelectsInOrder(Selected(rows, param), rows, SelectedIndices(rows, param))
  {
    var window := Window(rows, param.limit, param.offset);
    FilterByNameSelects(window, param.fullName);
    var kept := KeptIndices(window, param.fullName);
    var idx := SelectedIndices(rows, param);
    forall i | 0 <= i < |idx| ensures 0 <= idx[i] < |rows| && Selected(rows, param)[i] == rows[idx[i]] {
      assert window[kept[i]] == rows[idx[i]];
    }
  }

  /** With a name, a position is selected exactly when it is on the page and its author's name matches. */
  lemma FilteredPagePosition(rows: seq<BudgetWithAuthor>, param: BudgetYearParam, j: int)
    requires param.fullName != "" && 0 <= j < |rows|
    ensures j in SelectedIndices(rows, param) <==>
      param.offset <= j < param.offset + param.limit && NameMatches(rows[j], param.fullName)
  {
    var window := Window(rows, param.limit, param.offset);
    var idx := SelectedIndices(rows, param);
    var kept := KeptIndices(window, param.fullName);
    FilterByNameSelects(window, param.fullName);
    if j in idx {
      var i :| 0 <= i < |idx| && idx[i] == j;
      assert window[kept[i]] == rows[j];
    }
    if param.offset <= j < param.offset + param.limit && NameMatches(rows[j], param.fullName) {
      var w := j - param.offset;
      assert window[w] == rows[j];
      var i :| 0 <= i < |kept| && kept[i] == w;
      assert idx[i] == j;
    }
  }

  /**
   * Pagination comes before the name filter: the response is about the rows at
   * positions `offset` to `offset + limit - 1` of the year's rows and, when a
   * name is given, only those among them whose author's name contains it
   * ignoring case. They are kept in their order, each once.
   */
  lemma SelectionIsPagedFilter(rows: seq<BudgetWithAuthor>, param: BudgetYearParam)
    ensures SelectsInOrder(Selected(rows, param), rows, SelectedIndices(rows, param))
    ensures forall j :: 0 <= j < |rows| ==>
      (j in SelectedIndices(rows, param) <==>
        param.offset <= j < param.offset + param.limit
        && (param.fullName == "" || NameMatches(rows[j], param.fullName)))
  {
    if param.fullName == "" {
      PageSelection(rows, param);
    } else {
      FilteredPageOrder(rows, param);
      forall j | 0 <= j < |rows|
        ensures j in SelectedIndices(rows, param) <==>
          param.offset <= j < param.offset + param.limit && NameMatches(rows[j], param.fullName)
      {
        FilteredPagePosition(rows, param, j);
      }
    }
  }

  /**
   * The response counts exactly its items, one per selected row, never more
   * than a page: each item is the shape of the row at the matching selected
   * position.
   */
  lemma YearStatsItems(rows: seq<BudgetWithAuthor>, param: BudgetYearParam)
    ensures var response, idx := YearStats(rows, param), SelectedIndices(rows, param);
      && response.total == |response.items| == |idx| <= param.limit
      && forall i :: 0 <= i < |idx| ==> 0 <= idx[i] < |rows| && response.items[i] == Shaped(rows[idx[i]])
  {
    SelectionIsPagedFilter(rows, param);
  }

  /**
   * Each item reports its row: `year`, `month`, `amount` and `type` unchanged,
   * `full_name` and `created_at` exactly when the author columns are non-null.
   */
  lemma ItemsReportTheirRows(rows: seq<BudgetWithAuthor>, param: BudgetYearParam, i: int)
    requires 0 <= i < |YearStats(rows, param).items|
    ensures var rec, item := Selected(rows, param)[i], YearStats(rows, param).items[i];
      && Distinct(Keys(item))
      && Lookup(item, Year) == Some(IntValue(rec.year))
      && Lookup(item, Month) == Some(IntValue(rec.month))
      && Lookup(item, Amount) == Some(IntValue(rec.amount))
      && Lookup(item, Type) == Some(TypeValue(rec.budgetType))
      && (FullName in Keys(item) <==> rec.authorFullName.Some?)
      && (CreatedAt in Keys(item) <==> rec.authorCreatedAt.Some?)
  {
    var rec := Selected(rows, param)[i];
    ShapedItem(rec);
    LookupFinds(Shaped(rec), FullName);
    LookupFinds(Shaped(rec), CreatedAt);
  }

  /** With an empty name the filter is skipped: the items are the whole page, authorless rows included. */
  lemma EmptyNameKeepsWholePage(rows: seq<BudgetWithAuthor>, param: BudgetYearParam)
    requires param.fullName == ""
    ensures var window, response := Window(rows, param.limit, param.offset), YearStats(rows, param);
      && response.total == |window|
      && |response.items| == |window|
      && forall i :: 0 <= i < |window| ==> response.items[i] == Shaped(window[i])
  {
  }

  /** With a non-empty name, every selected row has an author whose name contains it ignoring case. */
  lemma NameFilterKeepsOnlyMatches(rows: seq<BudgetWithAuthor>, param: BudgetYearParam)
    requires param.fullName != ""
    ensures forall rec :: rec in Selected(rows, param) ==>
      rec.authorFullName.Some? && ContainsIgnoreCase(rec.authorFullName.value, param.fullName)
  {
    FilterByNameKeepsMatches(Window(rows, param.limit, param.offset), param.fullName);
  }

  /**
   * `totalByType` has an entry for exactly the type names of the selected
   * rows, each once; a name's value is the sum of the amounts of the selected
   * rows of that type, reduced to 32 bits, and the values add up to the sum
   * over all selected rows.
   */
  lemma TotalByTypeSumsSelection(rows: seq<BudgetWithAuthor>, param: BudgetYearParam)
    ensures var sel, totals := Selected(rows, param), YearStats(rows, param).totalByType;
      && Distinct(Keys(totals))
      && (forall k :: k in Keys(totals) <==> HasType(sel, k))
      && (forall k :: HasType(sel, k) ==> Lookup(totals, k) == Some(Wrap(AmountTotal(OfType(sel, k)))))
      && Wrap(ValuesTotal(totals)) == Wrap(AmountTotal(sel))
  {
    var sel := Selected(rows, param);
    SumByTypeTotals(sel);
    SumOfWraps(sel);
  }

  /**
   * The entry of `totalByType` under a category's name: the sum, reduced to
   * 32 bits, of the amounts of the selected rows of that category, present
   * exactly when some selected row has that category.
   */
  lemma TotalByTypePerCategory(rows: seq<BudgetWithAuthor>, param: BudgetYearParam, t: BudgetType)
    ensures var sel := Selected(rows, param);
      Lookup(YearStats(rows, param).totalByType, t.Name())
        == if exists r :: r in sel && r.budgetType == t then Some(Wrap(AmountTotal(OfCategory(sel, t)))) else None
  {
    var sel := Selected(rows, param);
    SumByTypeLookup(sel, t.Name());
    OfTypeIsOfCategory(sel, t);
  }

  /** The name filter ignores case: upper-casing each character of the requested name changes nothing in the response. */
  lemma NameFilterIgnoresCase(rows: seq<BudgetWithAuthor>, param: BudgetYearParam)
    ensures YearStats(rows, param.(fullName := UpperEachChar(param.fullName))) == YearStats(rows, param)
  {
    var window := Window(rows, param.limit, param.offset);
    FilterByNameIgnoresNeedleCase(window, param.fullName);
    assert (UpperEachChar(param.fullName) == "") == (param.fullName == "");
  }

  /**
   * Rows outside the page window cannot affect the response: it is the
   * response for the page window alone, read from its start. In particular a
   * matching row beyond the window is never counted.
   */
  lemma ResponseDependsOnlyOnWindow(rows: seq<BudgetWithAuthor>, param: BudgetYearParam)
    ensures YearStats(rows, param) == YearStats(Window(rows, param.limit, param.offset), param.(offset := 0))
  {
    var window := Window(rows, param.limit, param.offset);
    assert Window(window, param.limit, 0) == window;
  }
}
