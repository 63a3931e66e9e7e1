# Budget year statistics

A Dafny model of `BudgetService.getYearStats` in the budget application. This is the
part of the report that runs after the database query. The rows of the requested
year, left-joined with their authors, go through five steps:

- They are cut to one page by `limit(param.limit, param.offset)`.
- When `param.fullName` is not empty, they are filtered to the rows whose author's
  name contains it, ignoring case.
- They are counted.
- They are grouped by type name, with the amounts of each group summed.
- Each row is shaped into an insertion-ordered map (`LinkedHashMap<String, Any>`).
  It always has `year`, `month`, `amount` and `type`. It has `full_name` and
  `created_at` only when the author columns are non-null.

The modules follow that pipeline:

- `Wrappers`: `Option`, the model of Kotlin's nullable types.
- `Int32`: Kotlin's `Int`, with two's-complement wrap-around for `sumOf`.
- `IgnoreCase`: `String.contains(other, ignoreCase = true)` and `Char.equals(…, ignoreCase = true)`.
- `BudgetRows`: `BudgetWithAuthor`, `BudgetYearParam` and `BudgetType`.
- `LinkedMaps`: insertion-ordered maps as association lists. They model
  `LinkedHashMap` and the map that `groupBy` returns.
- `Selection`: the page window and the author-name filter.
- `TypeTotals`: `groupBy { it.type.name }.mapValues { it.value.sumOf { v -> v.amount } }`.
- `Items`: the shape of one response item.
- `BudgetService`: `getYearStats` itself and the properties of its response.
- `BudgetScenarios`: concrete responses for small sets of rows.

`GetYearStats` mirrors the body of the source step by step. `var query` is reassigned
when a name is given. `ShapeItems` is a loop that builds one map per row with `put`s
(`ShapeRecord`). The whole response is proved equal to the function `YearStats`, and
the lemmas in `BudgetService` state what that response means.

The order in which the source paginates and filters is kept as written. The page
window is taken first and the name filter runs on that page, so a matching row
outside the window never shows up. `total` counts the filtered page, not all
matching rows. `ResponseDependsOnlyOnWindow` and `MatchesBeyondThePageAreInvisible`
state this.

## Model

| member | source | states |
|---|---|---|
| BudgetService.GetYearStats | src/main/java/mobi/sevenwinds/app/budget/BudgetService.kt:27-79 | Given rows of the requested year, the response is `YearStats` of them. `total` equals the number of items and is at most `limit`. Every item's `year` is the requested year. |
| BudgetService.ShapeItems | src/main/java/mobi/sevenwinds/app/budget/BudgetService.kt:52-71 | `forEach` appends exactly one item per row, in row order. Item `i` is the shape of row `i`. |
| BudgetService.ShapeRecord | src/main/java/mobi/sevenwinds/app/budget/BudgetService.kt:56-67 | The sequence of `put`s on a fresh map yields the entries year, month, amount, type, then full_name and created_at only when those author columns are non-null. |
| BudgetService.SelectionIsPagedFilter | src/main/java/mobi/sevenwinds/app/budget/BudgetService.kt:31-46 | The rows the response is about are an ordered subsequence of the year's rows. A row at position `j` is among them iff `offset <= j < offset + limit` and, when a name is given, its author's name is non-null and contains the name ignoring case. |
| BudgetService.FilteredPageOrder | src/main/java/mobi/sevenwinds/app/budget/BudgetService.kt:31-46 | With a name, the filtered page keeps its rows in their original order, at increasing positions of the year's rows. |
| BudgetService.FilteredPagePosition | src/main/java/mobi/sevenwinds/app/budget/BudgetService.kt:31-46 | With a name, position `j` is selected iff it is inside the page and its row's author name matches. |
| BudgetService.PageSelection | src/main/java/mobi/sevenwinds/app/budget/BudgetService.kt:31 | Without a name, the selected positions are exactly those of the page window, in order. |
| BudgetService.YearStatsItems | src/main/java/mobi/sevenwinds/app/budget/BudgetService.kt:48-71 | `total` equals the number of items and the number of selected positions, and is at most `limit`. Item `i` is the shape of the row at the i-th selected position. |
| BudgetService.ItemsReportTheirRows | src/main/java/mobi/sevenwinds/app/budget/BudgetService.kt:58-67 | Each item has distinct keys. It copies year, month, amount and type unchanged from its row. It has `full_name` iff the author's name is non-null, and `created_at` iff the author's creation time is non-null. |
| BudgetService.EmptyNameKeepsWholePage | src/main/java/mobi/sevenwinds/app/budget/BudgetService.kt:44 | With `fullName == ""` the items are exactly the shaped rows of the page window, authorless rows included. |
| BudgetService.NameFilterKeepsOnlyMatches | src/main/java/mobi/sevenwinds/app/budget/BudgetService.kt:45 | With a non-empty name, every selected row has a non-null author name that contains the name ignoring case. |
| BudgetService.TotalByTypeSumsSelection | src/main/java/mobi/sevenwinds/app/budget/BudgetService.kt:50 | `totalByType`'s keys are distinct and are exactly the type names of the selected rows. Each value is that type's amount total, reduced to 32 bits. The values add up, in 32 bits, to the sum over all selected rows. |
| BudgetService.NameFilterIgnoresCase | src/main/java/mobi/sevenwinds/app/budget/BudgetService.kt:45 | Replacing each character of the requested name by its `uppercaseChar()` leaves the response unchanged. |
| BudgetService.ResponseDependsOnlyOnWindow | src/main/java/mobi/sevenwinds/app/budget/BudgetService.kt:31-46 | The response equals the response for the page window alone with offset 0. Rows outside the window, matching or not, never affect it. |
| Selection.Window | src/main/java/mobi/sevenwinds/app/budget/BudgetService.kt:31 | `LIMIT/OFFSET` returns at most `limit` rows. Its length is `min(limit, max(0, n - offset))`, and row `i` is the year's row `offset + i`. |
| Selection.FilterByNameSelects | src/main/java/mobi/sevenwinds/app/budget/BudgetService.kt:45 | `filter` keeps the rows at exactly the positions whose row matches, in order. |
| Selection.FilterByNameKeepsMatches | src/main/java/mobi/sevenwinds/app/budget/BudgetService.kt:45 | Every kept row comes from the input and has a non-null author name containing the needle ignoring case. Every matching input row is kept. |
| Selection.FilterByNameIgnoresNeedleCase | src/main/java/mobi/sevenwinds/app/budget/BudgetService.kt:45 | Replacing each character of the needle by its `uppercaseChar()` leaves the filter's result unchanged. |
| Selection.EmptyNeedleMatchesAuthoredRows | src/main/java/mobi/sevenwinds/app/budget/BudgetService.kt:44-45 | The empty needle matches exactly the rows with a non-null author name. This is why the filter must be skipped for `""`. |
| IgnoreCase.ContainsUppercaseNeedle | src/main/java/mobi/sevenwinds/app/budget/BudgetService.kt:45 | `contains(…, true)` gives the same answer for a needle and the needle with each character upper-cased with `uppercaseChar()`. |
| IgnoreCase.ContainsUppercaseHaystack | src/main/java/mobi/sevenwinds/app/budget/BudgetService.kt:45 | `contains(…, true)` gives the same answer for a haystack and the haystack with each character upper-cased with `uppercaseChar()`. |
| IgnoreCase.ContainsBasics | src/main/java/mobi/sevenwinds/app/budget/BudgetService.kt:45 | Every name contains `""` and itself. No name contains a longer needle. |
| TypeTotals.SumByTypeTotals | src/main/java/mobi/sevenwinds/app/budget/BudgetService.kt:50 | The grouped sums have exactly one key per type name present, each key once. Each value is the 32-bit sum of that type's amounts. The values add up, in 32 bits, to the sum of all the rows. |
| TypeTotals.SumByTypeLookup | src/main/java/mobi/sevenwinds/app/budget/BudgetService.kt:50 | Looking up a type name finds the 32-bit total of that type's amounts when some row has that type. Otherwise the name is absent. |
| TypeTotals.SumOfWraps | src/main/java/mobi/sevenwinds/app/budget/BudgetService.kt:50 | `sumOf` over `Int` equals the exact sum of the amounts, reduced to 32 bits in two's complement. |
| TypeTotals.SumOfExact | src/main/java/mobi/sevenwinds/app/budget/BudgetService.kt:50 | When no partial sum leaves the 32-bit range, `sumOf` equals the exact sum. |
| TypeTotals.GroupByKeys | src/main/java/mobi/sevenwinds/app/budget/BudgetService.kt:50 | `groupBy`'s keys are distinct and are exactly the type names present. |
| TypeTotals.GroupByContents | src/main/java/mobi/sevenwinds/app/budget/BudgetService.kt:50 | Each group holds exactly the rows of its type, in their original order. |
| TypeTotals.GroupByTotal | src/main/java/mobi/sevenwinds/app/budget/BudgetService.kt:50 | The groups together hold the same amount total as the rows. |
| Items.ShapedKeys | src/main/java/mobi/sevenwinds/app/budget/BudgetService.kt:58-67 | An item's keys are year, month, amount and type, then `full_name` and `created_at` when present, in that order and distinct. |
| Items.ShapedColumns | src/main/java/mobi/sevenwinds/app/budget/BudgetService.kt:58-61 | `year`, `month`, `amount` and `type` map to the row's own values. |
| Items.ShapedAuthorColumns | src/main/java/mobi/sevenwinds/app/budget/BudgetService.kt:62-67 | `full_name` maps to the author's name iff it is non-null, and `created_at` maps to the creation time iff it is non-null. Otherwise the key is absent. |
| Items.ShapedItem | src/main/java/mobi/sevenwinds/app/budget/BudgetService.kt:56-67 | The key, column and author-column properties of an item, combined. |
| LinkedMaps.LookupFinds | src/main/java/mobi/sevenwinds/app/budget/BudgetService.kt:56 | In a map with distinct keys, a key is present iff `get` finds it, and the entry at each position is what `get` returns. |
| LinkedMaps.PutEffect | src/main/java/mobi/sevenwinds/app/budget/BudgetService.kt:58-66 | `put` keeps the keys of a map that has the key and appends the key otherwise. Afterwards `get` of that key yields the new value and every other key's value is unchanged. |
| LinkedMaps.PutAbsent | src/main/java/mobi/sevenwinds/app/budget/BudgetService.kt:58-66 | `put` of an absent key appends that entry at the end. |
| BudgetRows.NameInjective | src/main/java/mobi/sevenwinds/app/budget/BudgetService.kt:50 | Different budget types have different `name`s. `OfTypeIsOfCategory` uses it to carry grouping by name over to grouping by type. |
| BudgetService.TotalByTypePerCategory | src/main/java/mobi/sevenwinds/app/budget/BudgetService.kt:50 | The `totalByType` entry under a type's name is the 32-bit sum of the amounts of the selected rows of that type. It is present iff some selected row has that type. |
| BudgetService.Selected | src/main/java/mobi/sevenwinds/app/budget/BudgetService.kt:31-46 | The rows the response is about: the page window, then the name filter when a name is given. `SelectionIsPagedFilter` states which positions it keeps. |
| BudgetService.YearStats | src/main/java/mobi/sevenwinds/app/budget/BudgetService.kt:48-77 | The packaged response. `YearStatsItems`, `ItemsReportTheirRows` and `TotalByTypeSumsSelection` state its count, items and totals. |
| TypeTotals.OfTypeIsOfCategory | src/main/java/mobi/sevenwinds/app/budget/BudgetService.kt:50 | The rows under a type's name are exactly the rows of that type, in order. The name is present iff some row has that type. |
| TypeTotals.SumByType | src/main/java/mobi/sevenwinds/app/budget/BudgetService.kt:50 | `groupBy` followed by `mapValues` with `sumOf`. `SumByTypeTotals` and `SumByTypeLookup` state its keys and values. |
| TypeTotals.GroupBy | src/main/java/mobi/sevenwinds/app/budget/BudgetService.kt:50 | `groupBy { it.type.name }`, row by row. `GroupByKeys`, `GroupByContents` and `GroupByTotal` state its keys, groups and total. |
| TypeTotals.Insert | src/main/java/mobi/sevenwinds/app/budget/BudgetService.kt:50 | One step of `groupBy`: `getOrPut` of the key, then `add`. `InsertKeys`, `InsertGroups` and `InsertTotal` state its effect. |
| TypeTotals.InsertKeys | src/main/java/mobi/sevenwinds/app/budget/BudgetService.kt:50 | One step of `groupBy` keeps the keys distinct. It appends the key only when the key is new. |
| TypeTotals.InsertGroups | src/main/java/mobi/sevenwinds/app/budget/BudgetService.kt:50 | One step of `groupBy` appends the row to its key's group (a new last group `[rec]` when the key is new) and leaves every other group unchanged. |
| TypeTotals.InsertTotal | src/main/java/mobi/sevenwinds/app/budget/BudgetService.kt:50 | One step of `groupBy` adds the row's amount to the groups' exact total. |
| TypeTotals.TotalsOf | src/main/java/mobi/sevenwinds/app/budget/BudgetService.kt:50 | `mapValues { it.value.sumOf { v -> v.amount } }`. `TotalsOfKeys` states that it keeps the keys in order, and `SumByTypeLookup` gives its values. |
| TypeTotals.TotalsOfKeys | src/main/java/mobi/sevenwinds/app/budget/BudgetService.kt:50 | `mapValues` keeps the keys and their order. |
| TypeTotals.SumOf | src/main/java/mobi/sevenwinds/app/budget/BudgetService.kt:50 | `sumOf { v -> v.amount }` over `Int`. `SumOfWraps` states that it is the exact sum reduced to 32 bits. |
| Int32.Add | src/main/java/mobi/sevenwinds/app/budget/BudgetService.kt:50 | Kotlin's `Int.plus` inside `sumOf` equals the exact sum when that sum is in range; `Wrap` gives its value otherwise. |
| Int32.Wrap | src/main/java/mobi/sevenwinds/app/budget/BudgetService.kt:50 | The 32-bit result equals the input when the input is in range, and is always congruent to it modulo 2^32. |
| Selection.FilterByName | src/main/java/mobi/sevenwinds/app/budget/BudgetService.kt:45 | `filter` never returns more rows than it is given. `FilterByNameSelects` and `FilterByNameKeepsMatches` state which rows it keeps. |
| Selection.NameMatches | src/main/java/mobi/sevenwinds/app/budget/BudgetService.kt:45 | The lambda `rec.authorFullName?.contains(fullName, true) ?: false`: a row with a null author name never matches. |
| IgnoreCase.ContainsIgnoreCase | src/main/java/mobi/sevenwinds/app/budget/BudgetService.kt:45 | `contains(…, ignoreCase = true)`: a needle longer than the haystack is never found. `ContainsBasics`, `ContainsUppercaseNeedle` and `ContainsUppercaseHaystack` state the rest. |
| IgnoreCase.CharEqualsIgnoreCase | src/main/java/mobi/sevenwinds/app/budget/BudgetService.kt:45 | `Char.equals(…, ignoreCase = true)`. `CharEqualsUppercase` states that replacing the second character by its `uppercaseChar()` keeps the answer. |
| IgnoreCase.CharEqualsUppercase | src/main/java/mobi/sevenwinds/app/budget/BudgetService.kt:45 | Comparing a character ignoring case with another or with that other's `uppercaseChar()` gives the same answer. |
| IgnoreCase.UpperChar | src/main/java/mobi/sevenwinds/app/budget/BudgetService.kt:45 | `uppercaseChar` only changes lower-case letters of the modelled alphabet. |
| IgnoreCase.LowerChar | src/main/java/mobi/sevenwinds/app/budget/BudgetService.kt:45 | `lowercaseChar` only changes upper-case letters of the modelled alphabet, and keeps the character's upper-case form. |
| Items.Shaped | src/main/java/mobi/sevenwinds/app/budget/BudgetService.kt:56-67 | The item for a row, in put order. `ShapedItem` states its keys and values. |
| Items.TextInjective | src/main/java/mobi/sevenwinds/app/budget/BudgetService.kt:58-66 | Distinct item keys have distinct texts (`year`, …, `created_at`). |
| Items.ShapedTextKeys | src/main/java/mobi/sevenwinds/app/budget/BudgetService.kt:56-67 | The string keys of an item, as the `LinkedHashMap` holds them, are distinct. |
| TypeTotals.KeyOf | src/main/java/mobi/sevenwinds/app/budget/BudgetService.kt:50 | The key selector `{ it.type.name }`. `GroupByKeys` states that the groups' keys are exactly the keys of the rows, and `OfTypeIsOfCategory` that grouping by this key is grouping by type. |
| BudgetRows.BudgetType.Name | src/main/java/mobi/sevenwinds/app/budget/BudgetService.kt:50 | The enum's `name`. `NameInjective` states that different types have different names. |
| IgnoreCase.RegionMatches | src/main/java/mobi/sevenwinds/app/budget/BudgetService.kt:45 | `regionMatches(…, ignoreCase = true)` at one start index, the test `contains` runs at each index. `ContainsBasics`, `ContainsUppercaseNeedle` and `ContainsUppercaseHaystack` state its properties through `ContainsIgnoreCase`. |
| Items.ItemKey.Text | src/main/java/mobi/sevenwinds/app/budget/BudgetService.kt:58-66 | The string keys `year`, `month`, `amount`, `type`, `full_name` and `created_at`. `TextInjective` states that different keys have different texts. |
| LinkedMaps.Put | src/main/java/mobi/sevenwinds/app/budget/BudgetService.kt:58-66 | `LinkedHashMap.put`. `PutEffect` and `PutAbsent` state its effect on keys, order and values. |
| LinkedMaps.Lookup | src/main/java/mobi/sevenwinds/app/budget/BudgetService.kt:56-66 | `LinkedHashMap.get`. `LookupFinds` states that it finds exactly the present keys and returns their values. |
| LinkedMaps.Keys | src/main/java/mobi/sevenwinds/app/budget/BudgetService.kt:56-66 | The keys of the map in insertion order: one per entry, each the key of its entry. |
| BudgetScenarios.TwoRowsWithoutFilter | src/main/java/mobi/sevenwinds/app/budget/BudgetService.kt:44-77 | Without a filter, an authored income row and an authorless outcome row give `total` 2 and `totalByType` `[Income: 100, Outcome: 50]`. The second item has neither author key. |
| BudgetScenarios.MatchesBeyondThePageAreInvisible | src/main/java/mobi/sevenwinds/app/budget/BudgetService.kt:31-48 | When the matches lie outside the first page, that page's response is empty. The next page finds both. |
| BudgetScenarios.LowerCaseNeedleMatches | src/main/java/mobi/sevenwinds/app/budget/BudgetService.kt:45 | "John Smith" contains "jo" ignoring case. |

## Left out

- Running on `Dispatchers.IO` inside `withContext` and an Exposed `transaction` (lines 27-28). These are concurrency and database plumbing. The model is a single, sequential call.
- The left join of `BudgetTable` with `AuthorTable` and `select { year eq param.year }` (lines 29-30). These are SQL executed by the database. The model takes the year's joined rows, in the order the database returns them, as its input. `GetYearStats` requires that they are all of the requested year.
- The `map` from result rows to `BudgetWithAuthor` (lines 32-42). It reads database columns. The model's input rows are already `BudgetWithAuthor` values.
- `addRecord` (lines 13-25). It is an insert into the database, and the statistics do not depend on it.
- `DateTime.toString()` for `created_at` (line 66). Joda-Time formatting is not modelled. The creation time is an opaque string, written unchanged into the item.
- `contains(…, ignoreCase = true)` relies on the JVM's full Unicode case mapping. The model's `UpperChar`/`LowerChar` cover ASCII and the basic Cyrillic letters U+0400–U+045F. Case pairs elsewhere, including the rest of the Cyrillic block such as Ґ/ґ (U+0490/U+0491), are not folded. Other characters compare only by exact equality. Strings are sequences of Unicode scalar values. The JVM's UTF-16 code units, lone surrogates included, are not modelled: a character outside the Basic Multilingual Plane is one character here and two on the JVM.
- The members of `BudgetType` and the declarations of `BudgetYearParam` and `BudgetYearStatsResponse`. Their files are not part of this model. `BudgetType` is modelled as `Income | Outcome`.
- `limit` and `offset` are natural numbers in the model. The behaviour of a negative limit or offset passed to the database is not modelled.
- Serialising the response to JSON. `totalByType` and the items are ordered association lists, standing for the `LinkedHashMap`s the source returns. Their key order is fixed: the order of first occurrence, and the put order. The lemmas state key sets, values and distinctness, but not the order in `totalByType`.
- `total` is a `nat`. `count()` returns an `Int`, which cannot overflow here because the number of rows in a page never exceeds `limit`, itself an `Int`.
