/**
 The number of rows of a layout's grid (getNumberOfRows): the largest `y` of
 any item, placeholders included, plus the largest `h` among the items that
 start on that row. Both maxima fall back to 0, as `Math.max(..., 0)` does.
 */
module Rows {
  import opened Layout

  /** `Math.max(...xs, 0)`: the largest element of `xs`, or 0 when every
      element is smaller or `xs` is empty. */
  function MaxOrZero(xs: seq<int>): (m: int)
    ensures 0 <= m
    ensures forall k :: 0 <= k < |xs| ==> xs[k] <= m
    ensures m == 0 || m in xs
  {
    if xs == [] then 0
    else
      var rest := MaxOrZero(xs[..|xs| - 1]);
      var last := xs[|xs| - 1];
      assert xs == xs[..|xs| - 1] + [last];
      if rest < last then last else rest
  }

  /** The three facts of `MaxOrZero`'s contract pin its value down. */
  lemma MaxOrZeroUnique(xs: seq<int>, m: int)
    requires 0 <= m
    requires forall k :: 0 <= k < |xs| ==> xs[k] <= m
    requires m == 0 || m in xs
    ensures MaxOrZero(xs) == m
  {
  }

  /** `layout.map(({ y }) => y)` */
  function Ys(layout: seq<Item>): seq<int>
  {
    seq(|layout|, k requires 0 <= k < |layout| => layout[k].y)
  }

  /** `layout.filter(({ y }) => y === row).map(({ h }) => h)` */
  function HeightsInRow(layout: seq<Item>, row: int): (hs: seq<int>)
    ensures forall k :: 0 <= k < |layout| && layout[k].y == row ==> layout[k].h in hs
  {
    if layout == [] then []
    else
      var pre := layout[..|layout| - 1];
      var rest := HeightsInRow(pre, row);
      var last := layout[|layout| - 1];
      assert forall k :: 0 <= k < |pre| ==> pre[k] == layout[k];
      if last.y == row then rest + [last.h] else rest
  }

  /** Every height HeightsInRow keeps belongs to an item that starts on `row`. */
  lemma {:induction false} HeightsInRowFromRow(layout: seq<Item>, row: int, v: int)
    requires v in HeightsInRow(layout, row)
    ensures exists k :: 0 <= k < |layout| && layout[k].y == row && layout[k].h == v
  {
    var pre := layout[..|layout| - 1];
    var last := layout[|layout| - 1];
    if v in HeightsInRow(pre, row) {
      HeightsInRowFromRow(pre, row, v);
      var k :| 0 <= k < |pre| && pre[k].y == row && pre[k].h == v;
      assert layout[k] == pre[k];
    } else {
      assert last.y == row && last.h == v;
    }
  }

  /** `lastRowIndex`: the largest `y` of any item, or 0. No item starts
      below it, and unless it is 0 some item starts on it. */
  function LastRowIndex(layout: seq<Item>): (lastRow: nat)
    ensures forall k :: 0 <= k < |layout| ==> layout[k].y <= lastRow
    ensures lastRow == 0 || exists k :: 0 <= k < |layout| && layout[k].y == lastRow
  {
    var ys := Ys(layout);
    assert forall k :: 0 <= k < |layout| ==> ys[k] == layout[k].y;
    MaxOrZero(ys)
  }

  /** getNumberOfRows: `lastRowIndex + maxHeightInLastRow`. */
  function NumberOfRows(layout: seq<Item>): nat
  {
    var lastRowIndex := LastRowIndex(layout);
    lastRowIndex + MaxOrZero(HeightsInRow(layout, lastRowIndex))
  }

  /** The empty layout has no rows: both maxima fall back to 0. */
  lemma NumberOfRowsOfEmptyLayout()
    ensures NumberOfRows([]) == 0
  {
  }

  /** NumberOfRows is `lastRow + tallest`, where `lastRow` is the largest `y`
      over all items (0 if none) and `tallest` the largest `h` among the
      items whose `y` is `lastRow` (0 if none). */
  lemma {:induction false} NumberOfRowsCharacterized(layout: seq<Item>, lastRow: int, tallest: int)
    requires 0 <= lastRow
    requires forall k :: 0 <= k < |layout| ==> layout[k].y <= lastRow
    requires lastRow == 0 || exists k :: 0 <= k < |layout| && layout[k].y == lastRow
    requires 0 <= tallest
    requires forall k :: 0 <= k < |layout| && layout[k].y == lastRow ==> layout[k].h <= tallest
    requires tallest == 0 || exists k :: 0 <= k < |layout| && layout[k].y == lastRow && layout[k].h == tallest
    ensures NumberOfRows(layout) == lastRow + tallest
  {
    var ys := Ys(layout);
    if lastRow != 0 {
      var k :| 0 <= k < |layout| && layout[k].y == lastRow;
      assert ys[k] == lastRow;
    }
    MaxOrZeroUnique(ys, lastRow);
    var hs := HeightsInRow(layout, lastRow);
    forall j | 0 <= j < |hs|
      ensures hs[j] <= tallest
    {
      HeightsInRowFromRow(layout, lastRow, hs[j]);
    }
    if tallest != 0 {
      var k :| 0 <= k < |layout| && layout[k].y == lastRow && layout[k].h == tallest;
      assert layout[k].h in hs;
    }
    MaxOrZeroUnique(hs, tallest);
  }

  /** When every item is at least one row tall, every item starts above the
      last row: NumberOfRows is strictly greater than every `y`. */
  lemma NumberOfRowsExceedsEveryRow(layout: seq<Item>)
    requires forall k :: 0 <= k < |layout| ==> layout[k].h >= 1
    ensures forall k :: 0 <= k < |layout| ==> layout[k].y < NumberOfRows(layout)
  {
    var lastRow := LastRowIndex(layout);
    var hs := HeightsInRow(layout, lastRow);
    var ys := Ys(layout);
    forall k | 0 <= k < |layout|
      ensures layout[k].y < NumberOfRows(layout)
    {
      assert ys[k] == layout[k].y;
      if exists j :: 0 <= j < |layout| && layout[j].y == lastRow {
        var j :| 0 <= j < |layout| && layout[j].y == lastRow;
        assert layout[j].h in hs;
      } else {
        assert lastRow != 0 ==> lastRow in ys;
      }
    }
  }

  /** The order of the items does not matter to the row count. */
  lemma NumberOfRowsIgnoresOrder(layout: seq<Item>, other: seq<Item>)
    requires multiset(layout) == multiset(other)
    ensures NumberOfRows(layout) == NumberOfRows(other)
  {
    forall it | it in layout ensures it in other {
      assert it in multiset(layout);
    }
    forall it | it in other ensures it in layout {
      assert it in multiset(other);
    }
    var lastRow := LastRowIndex(layout);
    var ys := Ys(layout);
    var hs := HeightsInRow(layout, lastRow);
    var tallest := MaxOrZero(hs);
    forall k | 0 <= k < |other| ensures other[k].y <= lastRow {
      assert other[k] in layout;
      var j :| 0 <= j < |layout| && layout[j] == other[k];
      assert ys[j] == other[k].y;
    }
    if lastRow != 0 {
      var j :| 0 <= j < |ys| && ys[j] == lastRow;
      assert layout[j] in other;
    }
    forall k | 0 <= k < |other| && other[k].y == lastRow ensures other[k].h <= tallest {
      assert other[k] in layout;
      var j :| 0 <= j < |layout| && layout[j] == other[k];
      assert layout[j].h in hs;
    }
    if tallest != 0 {
      HeightsInRowFromRow(layout, lastRow, tallest);
      var j :| 0 <= j < |layout| && layout[j].y == lastRow && layout[j].h == tallest;
      assert layout[j] in other;
    }
    NumberOfRowsCharacterized(layout, lastRow, tallest);
    NumberOfRowsCharacterized(other, lastRow, tallest);
  }

  /** `layout.map(({ y, h }) => y + h)`: the row just below each item. */
  function Bottoms(layout: seq<Item>): seq<int>
  {
    seq(|layout|, k requires 0 <= k < |layout| => layout[k].y + layout[k].h)
  }

  /** The row count getNumberOfRows evidently means: the lowest bottom edge
      of any item, or 0. Every item ends on or above it. */
  function RowsNeeded(layout: seq<Item>): (rows: nat)
    ensures forall k :: 0 <= k < |layout| ==> layout[k].y + layout[k].h <= rows
    ensures rows == 0 || exists k :: 0 <= k < |layout| && layout[k].y + layout[k].h == rows
  {
    var bs := Bottoms(layout);
    assert forall k :: 0 <= k < |layout| ==> bs[k] == layout[k].y + layout[k].h;
    var rows := MaxOrZero(bs);
    assert rows != 0 ==> exists k :: 0 <= k < |bs| && bs[k] == rows;
    rows
  }

  /** Two non-overlapping items that NumberOfRows does not make room for:
      the tall item starts at row 0 but the count only looks at row 1, so
      the tall item's third row lies outside the grid, while RowsNeeded
      makes room for both. */
  lemma TallItemOutgrowsNumberOfRows()
    ensures var layout := [Item(Key("a"), 0, 0, 1, 3, false), Item(Key("b"), 1, 1, 1, 1, false)];
      && !Overlap(layout[0], layout[1])
      && NumberOfRows(layout) == 2
      && !Fits(layout[0], NumberOfRows(layout), 2)
      && RowsNeeded(layout) == 3
      && AllFit(layout, RowsNeeded(layout), 2)
  {
    var layout := [Item(Key("a"), 0, 0, 1, 3, false), Item(Key("b"), 1, 1, 1, 1, false)];
    assert layout[1].y == 1 && layout[1].h == 1;
    NumberOfRowsCharacterized(layout, 1, 1);
  }

  /** On every layout of items at least one row tall whose items all end
      inside NumberOfRows rows, the corrected count is the same number. */
  lemma RowsNeededAgrees(layout: seq<Item>)
    requires forall k :: 0 <= k < |layout| ==> layout[k].h >= 1
    requires forall k :: 0 <= k < |layout| ==> layout[k].y + layout[k].h <= NumberOfRows(layout)
    ensures RowsNeeded(layout) == NumberOfRows(layout)
  {
    var lastRow := LastRowIndex(layout);
    var hs := HeightsInRow(layout, lastRow);
    var tallest := MaxOrZero(hs);
    if tallest != 0 {
      HeightsInRowFromRow(layout, lastRow, tallest);
    }
  }

  /** Appending one-row items that start no lower than the last row index,
      and inside the grid, leaves the row count unchanged. */
  lemma AppendAboveLastRow(layout: seq<Item>, extra: seq<Item>)
    requires forall p :: p in extra ==> p.h == 1 && p.y <= LastRowIndex(layout) && p.y < NumberOfRows(layout)
    ensures NumberOfRows(layout + extra) == NumberOfRows(layout)
  {
    var padded := layout + extra;
    var lastRow := LastRowIndex(layout);
    var hs := HeightsInRow(layout, lastRow);
    var tallest := MaxOrZero(hs);
    var ys := Ys(layout);
    assert forall k :: 0 <= k < |layout| ==> padded[k] == layout[k] && layout[k].y == ys[k];
    assert forall k :: |layout| <= k < |padded| ==> padded[k] == extra[k - |layout|] && padded[k] in extra;
    if lastRow != 0 {
      var j :| 0 <= j < |ys| && ys[j] == lastRow;
      assert padded[j].y == lastRow;
    }
    forall k | 0 <= k < |padded| && padded[k].y == lastRow
      ensures padded[k].h <= tallest
    {
      if k < |layout| {
        assert layout[k].h in hs;
      }
    }
    if tallest != 0 {
      HeightsInRowFromRow(layout, lastRow, tallest);
      var j :| 0 <= j < |layout| && layout[j].y == lastRow && layout[j].h == tallest;
      assert padded[j] == layout[j];
    }
    NumberOfRowsCharacterized(padded, lastRow, tallest);
  }

  /** Appending one-row items below the last row index, the last of which
      starts on the grid's bottom row and no earlier one lower, leaves the
      row count unchanged. */
  lemma AppendEndingOnBottomRow(layout: seq<Item>, extra: seq<Item>)
    requires extra != []
    requires forall p :: p in extra ==> p.h == 1 && p.y <= extra[|extra| - 1].y
    requires LastRowIndex(layout) < extra[|extra| - 1].y == NumberOfRows(layout) - 1
    ensures NumberOfRows(layout + extra) == NumberOfRows(layout)
  {
    var padded := layout + extra;
    var bottom := extra[|extra| - 1].y;
    var ys := Ys(layout);
    assert forall k :: 0 <= k < |layout| ==> padded[k] == layout[k] && layout[k].y == ys[k];
    assert forall k :: |layout| <= k < |padded| ==> padded[k] == extra[k - |layout|] && padded[k] in extra;
    assert padded[|padded| - 1] == extra[|extra| - 1];
    NumberOfRowsCharacterized(padded, bottom, 1);
  }
}
