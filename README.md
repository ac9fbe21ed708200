# Empty placeholders of a grid layout

A model, in Dafny, of the empty-slot computation of vue-grid-layout
(`src/helpers/emptyPlaceholdersUtils.js`). A layout is a sequence of items
placed on an integer grid, each with a key `i`, a position `x`, `y`, a
size `w`, `h` and an optional `placeholder` flag. Three functions work on
it:

- `getNumberOfRows` takes the largest `y` of any item (placeholders
  included, 0 by default) and adds the largest `h` among the items that
  start on that row (0 by default). It is modelled as pure functions in
  `Rows.dfy`: `MaxOrZero` is `Math.max(..., 0)`, `Ys` and `HeightsInRow`
  are the `map` and `filter` calls.
- `convertToFlaggedGrid` allocates a `rows x numberOfColumns` grid of
  `false` and sets to `true` every cell of every real (non-placeholder)
  item. It is modelled in `FlaggedGrid.dfy` as a method over an
  `array2<bool>`, with the same loops. `FlagItem` is the body of the
  `forEach` callback.
- `getEmptyPlaceholders` scans that grid row by row, left to right. For
  every `false` cell it appends a 1x1 item with `placeholder: true` and the
  key `placeholder-<row>-<col>`. It is modelled in `Placeholders.dfy` as a
  method with the same loops. `ScanRow` is its inner loop. The method is
  proved to return `EmptyPlaceholders`, a recursive definition of the
  row-major scan over the abstract occupancy `Covered`.

`Layout.dfy` holds the items and the occupancy relation. `PlaceholderProperties.dfy`
proves what the output means. `Scenarios.dfy` works through concrete
layouts.

The generated key `placeholder-<row>-<col>` is modelled as the datatype
value `PlaceholderKey(row, col)`. The caller's own keys are `Key(name)`.
`numberOfColumns` is any integer. A negative count makes the column loops
run zero times, which `Columns` models.

Two expectations one might have of this code do not hold, and the model
follows the code:

- One might expect that appending the generated placeholders to the
  layout and running the generator again returns an empty list. It does
  not. Placeholder items are skipped when flagging, so the same cells are
  reported again (`RerunReportsSameCells`,
  `PaddedLayoutStillHasPlaceholders`).
- One might expect every item of a non-overlapping layout to fit within
  the row count. It does not always (see Findings).

## Model

| member | source | states |
|---|---|---|
| `Layout.Occupies` | src/helpers/emptyPlaceholdersUtils.js:35-38 | a real item flags exactly the cells `y <= row < y+h`, `x <= col < x+w`; a placeholder item flags none. No contract: it is the definition `FlagItem` is proved against |
| `Layout.Covered` | src/helpers/emptyPlaceholdersUtils.js:34-42 | a cell is covered when some item of the layout occupies it. No contract: it is the definition `ConvertToFlaggedGrid` is proved against |
| `Layout.Cell` | src/helpers/emptyPlaceholdersUtils.js:78 | the pushed object `{x: j, y: i, w: 1, h: 1, i: placeholder-<i>-<j>, placeholder: true}`. No contract: `PlaceholdersAreEmptyCells` states the shape of every emitted item |
| `Layout.Columns` | src/helpers/emptyPlaceholdersUtils.js:28 | the number of columns the loops `j < numberOfColumns` visit, 0 for a negative count. No contract: it is a clamp the operations' contracts use |
| `Rows.MaxOrZero` | src/helpers/emptyPlaceholdersUtils.js:54 | `Math.max(...xs, 0)` is at least 0 and at least every element, and it is 0 or one of the elements |
| `Rows.Ys` | src/helpers/emptyPlaceholdersUtils.js:54 | `layout.map(({ y }) => y)`. No contract: `LastRowIndex` states what the maximum over it is |
| `Rows.LastRowIndex` | src/helpers/emptyPlaceholdersUtils.js:54 | `lastRowIndex` is at least every item's `y`, placeholders included, and it is 0 or some item's `y` |
| `Rows.HeightsInRow` | src/helpers/emptyPlaceholdersUtils.js:56 | the height of every item whose `y` is the given row is among the filtered heights |
| `Rows.HeightsInRowFromRow` | src/helpers/emptyPlaceholdersUtils.js:56 | every height the filter keeps belongs to an item whose `y` is that row |
| `Rows.NumberOfRows` | src/helpers/emptyPlaceholdersUtils.js:53-60 | `getNumberOfRows`. No contract of its own: `NumberOfRowsCharacterized` states its value for every layout, and the lemmas below state its properties |
| `Rows.NumberOfRowsOfEmptyLayout` | src/helpers/emptyPlaceholdersUtils.js:54-59 | the empty layout has 0 rows |
| `Rows.NumberOfRowsCharacterized` | src/helpers/emptyPlaceholdersUtils.js:53-60 | the row count is the largest `y` over all items, placeholders included (0 if none), plus the largest `h` among items with that `y` (0 if none) |
| `Rows.NumberOfRowsExceedsEveryRow` | src/helpers/emptyPlaceholdersUtils.js:54-59 | when every item has `h >= 1`, the row count is strictly greater than every item's `y` |
| `Rows.NumberOfRowsIgnoresOrder` | src/helpers/emptyPlaceholdersUtils.js:54-59 | two layouts with the same items in any order have the same row count |
| `Rows.TallItemOutgrowsNumberOfRows` | src/helpers/emptyPlaceholdersUtils.js:53-60 | a two-item layout with no overlap has row count 2, yet its first item reaches row 2, outside the grid; the corrected count is 3 and fits both |
| `Rows.RowsNeeded` | src/helpers/emptyPlaceholdersUtils.js:53-60 | corrected row count: every item ends on or above it, and it is 0 or the bottom of some item |
| `Rows.RowsNeededAgrees` | src/helpers/emptyPlaceholdersUtils.js:53-60 | on layouts of items at least one row tall that all end within the source's row count, the corrected count equals it |
| `Rows.AppendAboveLastRow` | src/helpers/emptyPlaceholdersUtils.js:54-59 | appending one-row items that start inside the grid and no lower than the last row index keeps the row count |
| `Rows.AppendEndingOnBottomRow` | src/helpers/emptyPlaceholdersUtils.js:54-59 | appending one-row items whose lowest one is the last appended, on the grid's bottom row, keeps the row count |
| `Layout.PlaceholderItemsNeverCover` | src/helpers/emptyPlaceholdersUtils.js:34-35 | a cell is covered by the layout iff it is covered by the layout with its placeholder items removed |
| `FlaggedGrid.FlagItem` | src/helpers/emptyPlaceholdersUtils.js:34-42 | a real item turns exactly the cells of its rectangle to `true` and leaves every other cell as it was; a placeholder item changes nothing |
| `FlaggedGrid.ConvertToFlaggedGrid` | src/helpers/emptyPlaceholdersUtils.js:19-45 | the grid is newly allocated, has `getNumberOfRows(layout)` rows of `numberOfColumns` cells, and cell (r, c) is `true` iff some real item has `y <= r < y+h` and `x <= c < x+w` |
| `Placeholders.ScanRow` | src/helpers/emptyPlaceholdersUtils.js:76-80 | scanning one row of a grid that flags exactly the covered cells yields that row's placeholders, left to right |
| `Placeholders.EmptyPlaceholders` | src/helpers/emptyPlaceholdersUtils.js:70-83 | the value `getEmptyPlaceholders` returns: the row-major scan of the grid's uncovered cells. No contract: the `PlaceholderProperties` lemmas state what it contains |
| `Placeholders.GetEmptyPlaceholders` | src/helpers/emptyPlaceholdersUtils.js:70-83 | the result is the row-major list of placeholders of the uncovered cells of the grid (`EmptyPlaceholders`), whose meaning the lemmas below state |
| `PlaceholderProperties.PlaceholdersAreEmptyCells` | src/helpers/emptyPlaceholdersUtils.js:75-78 | every emitted item has `w = 1`, `h = 1`, `placeholder = true`, key `placeholder-<y>-<x>`, lies inside the grid and is on a cell no real item covers |
| `PlaceholderProperties.PlaceholderIffEmptyCell` | src/helpers/emptyPlaceholdersUtils.js:75-81 | a grid cell is emitted iff no real item covers it, so real items and placeholders cover the grid with no cell covered by both |
| `PlaceholderProperties.PlaceholdersInRowMajorOrder` | src/helpers/emptyPlaceholdersUtils.js:75-81 | the output is strictly ascending in (y, x), so it has no duplicates |
| `PlaceholderProperties.PlaceholderCount` | src/helpers/emptyPlaceholdersUtils.js:75-81 | the output length is rows times columns minus the number of covered cells |
| `PlaceholderProperties.PlaceholdersOverlapNothing` | src/helpers/emptyPlaceholdersUtils.js:75-79 | no emitted placeholder overlaps a real input item, and no two emitted placeholders overlap |
| `PlaceholderProperties.PlaceholdersFollowCover` | src/helpers/emptyPlaceholdersUtils.js:75-81 | layouts that cover the same cells get the same placeholders for the same grid size |
| `PlaceholderProperties.PlaceholderItemsIgnored` | src/helpers/emptyPlaceholdersUtils.js:35 | two layouts with the same real items and the same row count get the same placeholders |
| `PlaceholderProperties.PaddingKeepsRowCount` | src/helpers/emptyPlaceholdersUtils.js:53-60 | appending a layout's own placeholders to it leaves its row count unchanged |
| `PlaceholderProperties.RerunReportsSameCells` | src/helpers/emptyPlaceholdersUtils.js:70-83 | running the generator on the layout padded with its own placeholders returns those same placeholders again |
| `Scenarios.EmptyLayoutHasNoPlaceholders` | src/helpers/emptyPlaceholdersUtils.js:75 | the empty layout gets no placeholders for any column count |
| `Scenarios.TwoItemsSpanOneRow` | src/helpers/emptyPlaceholdersUtils.js:53-60 | items `{x:0,y:0,w:1,h:1}` and `{x:1,y:0,w:2,h:1}` span one row |
| `Scenarios.TwoItemsCoverFirstThreeCells` | src/helpers/emptyPlaceholdersUtils.js:34-42 | those items cover cells (0,0), (0,1), (0,2) and not (0,3) |
| `Scenarios.TwoItemsPlaceholders` | src/helpers/emptyPlaceholdersUtils.js:70-83 | those items get no placeholders with 3 columns and exactly cell (0,3) with 4 |
| `Scenarios.LonePlaceholderStaysEmpty` | src/helpers/emptyPlaceholdersUtils.js:35 | a single placeholder item at (0,0) with 1 column gives one row and the placeholder of cell (0,0) |
| `Scenarios.OneItemLeavesSecondCell` | src/helpers/emptyPlaceholdersUtils.js:70-83 | one 1x1 item at (0,0) with 2 columns leaves exactly cell (0,1) |
| `Scenarios.PaddedLayoutStillHasPlaceholders` | src/helpers/emptyPlaceholdersUtils.js:35 | that layout padded with the placeholder of (0,1) still gets the placeholder of (0,1) |

## Findings

| source | as written | input that shows it | evidently intended | confidence | as-written member | corrected member |
|---|---|---|---|---|---|---|
| src/helpers/emptyPlaceholdersUtils.js:53-60 | the row count is the largest `y` plus the tallest `h` among the items on that row only | items `{x:0,y:0,w:1,h:3}` and `{x:1,y:1,w:1,h:1}`, 2 columns: they do not overlap, the count is 2, and line 38 then writes row 2 of a 2-row grid, which throws | the lowest bottom edge `y + h` of any item, or 0 | high; not executed | `Rows.TallItemOutgrowsNumberOfRows` | `Rows.RowsNeeded` |

The operations `ConvertToFlaggedGrid` and `GetEmptyPlaceholders` keep the
source's count, `NumberOfRows`, because they model the code as written.
Their precondition requires every real item with a non-empty rectangle to
end inside that count. `RowsNeededAgrees` shows that the corrected count
`RowsNeeded` is the same number on layouts where every item, placeholders
included, is at least one row tall and ends inside the source's count. On
those layouts the modelled operations behave as the corrected code would.
`RowsNeeded` makes room for every item (`TallItemOutgrowsNumberOfRows`
shows this on the failing input).

## Left out

- Out-of-grid writes are preconditions, not modelled behaviour. Every real
  item with a non-empty rectangle must lie inside the
  `getNumberOfRows x numberOfColumns` grid (`Layout.Fits`). In the source a
  row at or past the last one throws a TypeError at line 38. A column at or
  past `numberOfColumns` silently lengthens that row. A negative column
  sets a non-index property. Items with `w <= 0` or `h <= 0` never index
  the grid and are accepted.
- The two row counts can differ on layouts the operations accept.
  A placeholder item may reach below the source's count, and so may an
  item with `h <= 0`. Such an item is not written to the grid, but it can
  change either maximum. For example, a 1x3 placeholder at (0, 0) next to
  a real 1x1 item at (1, 1) gives 2 rows by the source's count and 3 by
  `RowsNeeded`. There the model keeps the source's count and promises
  nothing about the corrected one.
- The source's grid is an array of row arrays. The model uses one
  `array2<bool>`, which cannot be ragged. Ragged rows do not arise under
  the precondition.
- Placeholders.GetEmptyPlaceholders: its inner loop is the separate method
  `ScanRow`, so that each loop is proved on its own.
- The key string `placeholder-<row>-<col>` is the value
  `PlaceholderKey(row, col)`. Number-to-string formatting and template
  literals belong to JavaScript. A caller's own key that happens to spell
  the same string is not modelled as colliding.
- JavaScript values other than integers (missing fields, `NaN`,
  fractions) are not modelled. Neither is the `RangeError` that
  `Math.max(...)` can throw on a very large spread.
- The source checks neither overlap between items nor uniqueness of keys,
  and the model does not either.
- Rendering, drag-and-drop and the breakpoint logic that chooses
  `numberOfColumns` are not part of this file. `numberOfColumns` is a
  parameter.
