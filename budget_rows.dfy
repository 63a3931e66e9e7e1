/**
 * The data the year query works on: one row of the budget table left-joined
 * with its author (`BudgetWithAuthor`), and the request parameters.
 */
module BudgetRows {
  import opened Wrappers
  import opened Int32

  /**
   * The budget category. Its enum declaration is not part of this model: the
   * two members stand for the declared ones, and only their names matter.
   */
  datatype BudgetType = Income | Outcome {
    /** The enum member's `name`. */
    function Name(): string
    {
      match this
      case Income => "Income"
      case Outcome => "Outcome"
    }
  }

  /** Distinct categories have distinct names, so grouping by name is grouping by category. */
  lemma NameInjective(a: BudgetType, b: BudgetType)
    ensures a.Name() == b.Name() <==> a == b
  {
  }

  /**
   * One query row. The author columns are null when the budget row has no
   * author (left join); the creation timestamp is kept as the text its
   * `toString()` gives.
   */
  datatype BudgetWithAuthor = BudgetWithAuthor(
    id: int32,
    year: int32,
    month: int32,
    amount: int32,
    budgetType: BudgetType,
    authorFullName: Option<string>,
    authorCreatedAt: Option<string>
  )

  /** The request: the year to report, the page window and the author-name filter. */
  datatype BudgetYearParam = BudgetYearParam(year: int32, limit: nat, offset: nat, fullName: string)

  /** The rows the store returns for a year all belong to that year. */
  ghost predicate AllOfYear(rows: seq<BudgetWithAuthor>, year: int32)
  {
    forall i :: 0 <= i < |rows| ==> rows[i].year == year
  }
}
