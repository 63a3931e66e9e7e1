/** Worked examples of `getYearStats` on concrete rows. */
module BudgetScenarios {
  import opened Wrappers
  import opened IgnoreCase
  import opened BudgetRows
  import opened LinkedMaps
  import opened Selection
  import opened TypeTotals
  import opened Items
  import opened BudgetService

  /** The author filter matches "John Smith" with the needle "jo": case is ignored. */
  lemma LowerCaseNeedleMatches()
    ensures ContainsIgnoreCase("John Smith", "jo")
  {
    assert CharEqualsIgnoreCase('J', 'j');
    assert RegionMatches("John Smith", 0, "jo");
  }

  /**
   * Two rows of 2020, one with an author and one without, and no name filter:
   * both are counted, each type gets its own sum, and the authorless row's
   * item has neither `full_name` nor `created_at`.
   */
  lemma TwoRowsWithoutFilter()
    ensures var rows := [
        BudgetWithAuthor(1, 2020, 1, 100, Income, Some("John Smith"), Some("2020-01-01T00:00:00.000Z")),
        BudgetWithAuthor(2, 2020, 2, 50, Outcome, None, None)];
      var response := YearStats(rows, BudgetYearParam(2020, 10, 0, ""));
      && response.total == 2
      && response.totalByType == [("Income", 100), ("Outcome", 50)]
      && |response.items| == 2
      && Lookup(response.items[0], FullName) == Some(TextValue("John Smith"))
      && Lookup(response.items[1], Amount) == Some(IntValue(50))
      && Lookup(response.items[1], FullName) == None
      && Lookup(response.items[1], CreatedAt) == None
  {
    var r1 := BudgetWithAuthor(1, 2020, 1, 100, Income, Some("John Smith"), Some("2020-01-01T00:00:00.000Z"));
    var r2 := BudgetWithAuthor(2, 2020, 2, 50, Outcome, None, None);
    var rows := [r1, r2];
    var param := BudgetYearParam(2020, 10, 0, "");
    assert Selected(rows, param) == rows;
    assert [r1, r2][..1] == [r1];
    assert rows[..1] == [r1] && [r1][..0] == [];
    assert GroupBy([r1]) == [("Income", [r1])] by {
      assert GroupBy([r1]) == Insert([], "Income", r1);
    }
    assert GroupBy(rows) == [("Income", [r1]), ("Outcome", [r2])] by {
      var g := [("Income", [r1])];
      assert GroupBy(rows) == Insert(g, "Outcome", r2);
      assert g[1..] == [];
      assert Insert(g, "Outcome", r2) == [g[0]] + Insert([], "Outcome", r2);
    }
    assert SumOf([r1]) == 100 && SumOf([r2]) == 50 by {
      assert [r1][..0] == [] && [r2][..0] == [];
    }
    ShapedItem(r1);
    ShapedItem(r2);
  }

  /**
   * Five rows of 2021 of which only the last two have an author named
   * "John Smith": with a page of three from the start and the filter "jo" the
   * response is empty, because the matching rows lie beyond the page; the
   * next page, from offset 3, finds both.
   */
  lemma MatchesBeyondThePageAreInvisible()
    ensures var rows := [
        BudgetWithAuthor(1, 2021, 1, 10, Income, None, None),
        BudgetWithAuthor(2, 2021, 2, 20, Income, None, None),
        BudgetWithAuthor(3, 2021, 3, 30, Outcome, None, None),
        BudgetWithAuthor(4, 2021, 4, 40, Income, Some("John Smith"), None),
        BudgetWithAuthor(5, 2021, 5, 50, Outcome, Some("John Smith"), None)];
      && YearStats(rows, BudgetYearParam(2021, 3, 0, "jo")) == YearStatsResponse(0, [], [])
      && YearStats(rows, BudgetYearParam(2021, 3, 3, "jo")).total == 2
  {
    var r1 := BudgetWithAuthor(1, 2021, 1, 10, Income, None, None);
    var r2 := BudgetWithAuthor(2, 2021, 2, 20, Income, None, None);
    var r3 := BudgetWithAuthor(3, 2021, 3, 30, Outcome, None, None);
    var r4 := BudgetWithAuthor(4, 2021, 4, 40, Income, Some("John Smith"), None);
    var r5 := BudgetWithAuthor(5, 2021, 5, 50, Outcome, Some("John Smith"), None);
    var rows := [r1, r2, r3, r4, r5];
    var first := BudgetYearParam(2021, 3, 0, "jo");
    assert Window(rows, 3, 0) == [r1, r2, r3];
    assert [r1, r2, r3][..2] == [r1, r2] && [r1, r2][..1] == [r1] && [r1][..0] == [];
    assert FilterByName([r1, r2, r3], "jo") == [] by {
      assert !NameMatches(r1, "jo") && !NameMatches(r2, "jo") && !NameMatches(r3, "jo");
      assert FilterByName([r1], "jo") == FilterByName([], "jo") + [];
      assert FilterByName([r1, r2], "jo") == FilterByName([r1], "jo") + [];
      assert FilterByName([r1, r2, r3], "jo") == FilterByName([r1, r2], "jo") + [];
    }
    assert Selected(rows, first) == [];
    LowerCaseNeedleMatches();
    assert Window(rows, 3, 3) == [r4, r5];
    assert [r4, r5][..1] == [r4] && [r4][..0] == [];
    assert FilterByName([r4, r5], "jo") == [r4, r5] by {
      assert NameMatches(r4, "jo") && NameMatches(r5, "jo");
      assert FilterByName([r4], "jo") == FilterByName([], "jo") + [r4];
      assert FilterByName([r4, r5], "jo") == FilterByName([r4], "jo") + [r5];
    }
  }
}
