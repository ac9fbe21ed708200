/**
 What getEmptyPlaceholders promises about its output, stated on
 EmptyPlaceholders, the value the method is proved to return.
 */
module PlaceholderProperties {
  import opened Layout
  import opened Rows
  import opened Placeholders

  /** Every emitted item is a 1x1 placeholder keyed `placeholder-<y>-<x>`,
      lies inside the NumberOfRows x numberOfColumns grid, and sits on a
      cell no real item covers. */
  lemma PlaceholdersAreEmptyCells(layout: seq<Item>, numberOfColumns: int)
    ensures forall p :: p in EmptyPlaceholders(layout, numberOfColumns) ==>
              && p.w == 1 && p.h == 1 && p.placeholder && p.i == PlaceholderKey(p.y, p.x)
              && 0 <= p.y < NumberOfRows(layout) && 0 <= p.x < Columns(numberOfColumns)
              && !Covered(layout, p.y, p.x)
  {
    PlaceholdersUpToAreEmptyCells(layout, NumberOfRows(layout), Columns(numberOfColumns));
  }

  /** A cell of the grid gets a placeholder exactly when no real item
      covers it: real items and placeholders together cover the grid, and
      no cell is covered by both. */
  lemma PlaceholderIffEmptyCell(layout: seq<Item>, numberOfColumns: int, row: int, col: int)
    requires 0 <= row < NumberOfRows(layout) && 0 <= col < Columns(numberOfColumns)
    ensures Cell(row, col) in EmptyPlaceholders(layout, numberOfColumns) <==> !Covered(layout, row, col)
  {
    var rows, cols := NumberOfRows(layout), Columns(numberOfColumns);
    if Covered(layout, row, col) {
      PlaceholdersUpToAreEmptyCells(layout, rows, cols);
    } else {
      PlaceholdersUpToComplete(layout, rows, cols, row, col);
    }
  }

  /** The output is strictly ascending in row-major order, so no cell is
      reported twice. */
  lemma PlaceholdersInRowMajorOrder(layout: seq<Item>, numberOfColumns: int)
    ensures var ps := EmptyPlaceholders(layout, numberOfColumns);
      forall a, b :: 0 <= a < b < |ps| ==> RowMajorBefore(ps[a], ps[b]) && ps[a] != ps[b]
  {
    PlaceholdersUpToAscend(layout, NumberOfRows(layout), Columns(numberOfColumns));
  }

  /** One placeholder per cell that is not flagged: the output length is
      the number of grid cells minus the number of covered cells. */
  lemma PlaceholderCount(layout: seq<Item>, numberOfColumns: int)
    ensures |EmptyPlaceholders(layout, numberOfColumns)| ==
            NumberOfRows(layout) * Columns(numberOfColumns)
            - CoveredCells(layout, NumberOfRows(layout), Columns(numberOfColumns))
  {
    PlaceholdersUpToCount(layout, NumberOfRows(layout), Columns(numberOfColumns));
  }

  /** No placeholder overlaps a real item of the layout, and no two
      placeholders overlap each other. */
  lemma PlaceholdersOverlapNothing(layout: seq<Item>, numberOfColumns: int)
    ensures var ps := EmptyPlaceholders(layout, numberOfColumns);
      && (forall a, k :: 0 <= a < |ps| && 0 <= k < |layout| && !layout[k].placeholder ==>
            !Overlap(ps[a], layout[k]))
      && (forall a, b :: 0 <= a < b < |ps| ==> !Overlap(ps[a], ps[b]))
  {
    var ps := EmptyPlaceholders(layout, numberOfColumns);
    PlaceholdersAreEmptyCells(layout, numberOfColumns);
    PlaceholdersInRowMajorOrder(layout, numberOfColumns);
    forall a, k | 0 <= a < |ps| && 0 <= k < |layout| && !layout[k].placeholder
      ensures !Overlap(ps[a], layout[k])
    {
      assert ps[a] in ps;
      assert !Occupies(layout[k], ps[a].y, ps[a].x);
    }
    forall a, b | 0 <= a < b < |ps|
      ensures !Overlap(ps[a], ps[b])
    {
      assert ps[a] in ps && ps[b] in ps;
    }
  }

  /** The placeholders depend on the layout only through which cells it
      covers. */
  lemma {:induction false} RowPlaceholdersFollowCover(layout: seq<Item>, other: seq<Item>, row: int, j: nat)
    requires forall c :: Covered(layout, row, c) == Covered(other, row, c)
    ensures RowPlaceholders(layout, row, j) == RowPlaceholders(other, row, j)
  {
    if j > 0 {
      RowPlaceholdersFollowCover(layout, other, row, j - 1);
    }
  }

  lemma {:induction false} PlaceholdersFollowCover(layout: seq<Item>, other: seq<Item>, i: nat, cols: nat)
    requires forall r, c :: Covered(layout, r, c) == Covered(other, r, c)
    ensures PlaceholdersUpTo(layout, i, cols) == PlaceholdersUpTo(other, i, cols)
  {
    if i > 0 {
      PlaceholdersFollowCover(layout, other, i - 1, cols);
      RowPlaceholdersFollowCover(layout, other, i - 1, cols);
    }
  }

  /** Placeholder items in the input never hide an empty cell: two layouts
      with the same real items and the same row count get the same
      placeholders. */
  lemma PlaceholderItemsIgnored(layout: seq<Item>, other: seq<Item>, numberOfColumns: int)
    requires RealItems(layout) == RealItems(other)
    requires NumberOfRows(layout) == NumberOfRows(other)
    ensures EmptyPlaceholders(layout, numberOfColumns) == EmptyPlaceholders(other, numberOfColumns)
  {
    forall r, c ensures Covered(layout, r, c) == Covered(other, r, c) {
      PlaceholderItemsNeverCover(layout, r, c);
      PlaceholderItemsNeverCover(other, r, c);
    }
    PlaceholdersFollowCover(layout, other, NumberOfRows(layout), Columns(numberOfColumns));
  }

  /** Appending a layout's own placeholders to it leaves its row count
      unchanged. When some placeholder starts below the last row index, the
      last placeholder lies on the grid's bottom row: a real item covering
      that row from above would cover the rows in between as well. */
  lemma PaddingKeepsRowCount(layout: seq<Item>, numberOfColumns: int)
    ensures NumberOfRows(layout + EmptyPlaceholders(layout, numberOfColumns)) == NumberOfRows(layout)
  {
    var ps := EmptyPlaceholders(layout, numberOfColumns);
    var lastRow := LastRowIndex(layout);
    var rows := NumberOfRows(layout);
    PlaceholdersAreEmptyCells(layout, numberOfColumns);
    if forall p :: p in ps ==> p.y <= lastRow {
      AppendAboveLastRow(layout, ps);
    } else {
      PlaceholdersInRowMajorOrder(layout, numberOfColumns);
      var last := ps[|ps| - 1];
      assert last in ps;
      forall p | p in ps ensures p.y <= last.y {
        var a :| 0 <= a < |ps| && ps[a] == p;
        if a < |ps| - 1 {
          assert RowMajorBefore(ps[a], last);
        }
      }
      PlaceholderIffEmptyCell(layout, numberOfColumns, rows - 1, last.x);
      assert last.y == rows - 1;
      AppendEndingOnBottomRow(layout, ps);
    }
  }

  /** Running the generator again on the layout padded with its own
      placeholders reports the same cells again: placeholder items never
      flag a cell. */
  lemma RerunReportsSameCells(layout: seq<Item>, numberOfColumns: int)
    ensures var ps := EmptyPlaceholders(layout, numberOfColumns);
      EmptyPlaceholders(layout + ps, numberOfColumns) == ps
  {
    var ps := EmptyPlaceholders(layout, numberOfColumns);
    var padded := layout + ps;
    PaddingKeepsRowCount(layout, numberOfColumns);
    PlaceholdersAreEmptyCells(layout, numberOfColumns);
    assert forall k :: |layout| <= k < |padded| ==> padded[k] == ps[k - |layout|] && padded[k] in ps;
    assert forall k :: 0 <= k < |layout| ==> padded[k] == layout[k];
    forall r, c ensures Covered(padded, r, c) == Covered(layout, r, c) {
      if Covered(padded, r, c) {
        var k :| 0 <= k < |padded| && Occupies(padded[k], r, c);
        assert k < |layout|;
      }
    }
    PlaceholdersFollowCover(padded, layout, NumberOfRows(layout), Columns(numberOfColumns));
  }
}
