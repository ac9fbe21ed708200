/**
 getEmptyPlaceholders: scans the flagged grid row by row, left to right, and
 emits one 1x1 placeholder item for every cell no real item covers.
 */
module Placeholders {
  import opened Layout
  import opened Rows
  import opened FlaggedGrid

  /** The placeholders of row `row` among its first `j` cells, left to right. */
  function RowPlaceholders(layout: seq<Item>, row: int, j: nat): seq<Item>
  {
    if j == 0 then []
    else RowPlaceholders(layout, row, j - 1) + (if Covered(layout, row, j - 1) then [] else [Cell(row, j - 1)])
  }

  /** The placeholders of the first `i` rows of a grid `cols` cells wide, in
      row-major order. */
  function PlaceholdersUpTo(layout: seq<Item>, i: nat, cols: nat): seq<Item>
  {
    if i == 0 then []
    else PlaceholdersUpTo(layout, i - 1, cols) + RowPlaceholders(layout, i - 1, cols)
  }

  /** What getEmptyPlaceholders returns. */
  function EmptyPlaceholders(layout: seq<Item>, numberOfColumns: int): seq<Item>
  {
    PlaceholdersUpTo(layout, NumberOfRows(layout), Columns(numberOfColumns))
  }

  /** getEmptyPlaceholders, over the grid convertToFlaggedGrid builds. */
  method GetEmptyPlaceholders(layout: seq<Item>, numberOfColumns: int) returns (res: seq<Item>)
    requires AllFit(layout, NumberOfRows(layout), Columns(numberOfColumns))
    ensures res == EmptyPlaceholders(layout, numberOfColumns)
  {
    res := [];
    var flaggedGrid := ConvertToFlaggedGrid(layout, numberOfColumns);
    var numberOfRows := NumberOfRows(layout);

    for i := 0 to numberOfRows
      invariant res == PlaceholdersUpTo(layout, i, flaggedGrid.Length1)
      invariant forall r, c :: 0 <= r < flaggedGrid.Length0 && 0 <= c < flaggedGrid.Length1 ==>
                  (flaggedGrid[r, c] <==> Covered(layout, r, c))
    {
      var row := ScanRow(layout, flaggedGrid, i);
      res := res + row;
    }
  }

  /** The inner loop of getEmptyPlaceholders: the placeholders of row `i`,
      left to right, read off a grid that flags exactly the covered cells. */
  method ScanRow(layout: seq<Item>, flaggedGrid: array2<bool>, i: nat) returns (res: seq<Item>)
    requires i < flaggedGrid.Length0
    requires forall c :: 0 <= c < flaggedGrid.Length1 ==> (flaggedGrid[i, c] <==> Covered(layout, i, c))
    ensures res == RowPlaceholders(layout, i, flaggedGrid.Length1)
  {
    res := [];
    for j := 0 to flaggedGrid.Length1
      invariant res == RowPlaceholders(layout, i, j)
    {
      if !flaggedGrid[i, j] {
        res := res + [Cell(i, j)];
      }
    }
  }

  /** Cells (row, col) and (row', col') in row-major order. */
  predicate RowMajorBefore(a: Item, b: Item)
  {
    a.y < b.y || (a.y == b.y && a.x < b.x)
  }

  /** The number of covered cells among the first `j` cells of a row. */
  function CoveredInRow(layout: seq<Item>, row: int, j: nat): nat
  {
    if j == 0 then 0
    else CoveredInRow(layout, row, j - 1) + (if Covered(layout, row, j - 1) then 1 else 0)
  }

  /** The number of covered cells in the first `i` rows of a grid `cols`
      cells wide: the number of `true` cells of the flagged grid. */
  function CoveredCells(layout: seq<Item>, i: nat, cols: nat): nat
  {
    if i == 0 then 0
    else CoveredCells(layout, i - 1, cols) + CoveredInRow(layout, i - 1, cols)
  }

  /** `p` is the placeholder of an empty cell of a rows x cols grid. */
  predicate IsEmptyCell(layout: seq<Item>, p: Item, rows: int, cols: int)
  {
    p == Cell(p.y, p.x) && 0 <= p.y < rows && 0 <= p.x < cols && !Covered(layout, p.y, p.x)
  }

  // Facts about one row, each by induction on the number of cells scanned.

  lemma {:induction false} RowPlaceholdersAreEmptyCells(layout: seq<Item>, row: int, j: nat)
    ensures forall p :: p in RowPlaceholders(layout, row, j) ==>
              p == Cell(row, p.x) && 0 <= p.x < j && !Covered(layout, row, p.x)
  {
    if j > 0 {
      RowPlaceholdersAreEmptyCells(layout, row, j - 1);
    }
  }

  lemma {:induction false} RowPlaceholdersAscend(layout: seq<Item>, row: int, j: nat)
    ensures forall a, b :: 0 <= a < b < |RowPlaceholders(layout, row, j)| ==>
              RowPlaceholders(layout, row, j)[a].x < RowPlaceholders(layout, row, j)[b].x
  {
    if j > 0 {
      RowPlaceholdersAscend(layout, row, j - 1);
      RowPlaceholdersAreEmptyCells(layout, row, j - 1);
      var pre := RowPlaceholders(layout, row, j - 1);
      var ps := RowPlaceholders(layout, row, j);
      forall a, b | 0 <= a < b < |ps|
        ensures ps[a].x < ps[b].x
      {
        assert ps[a] == pre[a];
        if b < |pre| {
          assert ps[b] == pre[b];
        } else {
          assert pre[a] in pre;
        }
      }
    }
  }

  lemma {:induction false} RowPlaceholdersComplete(layout: seq<Item>, row: int, j: nat, c: int)
    requires 0 <= c < j && !Covered(layout, row, c)
    ensures Cell(row, c) in RowPlaceholders(layout, row, j)
  {
    if c < j - 1 {
      RowPlaceholdersComplete(layout, row, j - 1, c);
    }
  }

  lemma {:induction false} RowPlaceholdersCount(layout: seq<Item>, row: int, j: nat)
    ensures |RowPlaceholders(layout, row, j)| + CoveredInRow(layout, row, j) == j
  {
    if j > 0 {
      RowPlaceholdersCount(layout, row, j - 1);
    }
  }

  // The same facts for the first `i` rows, by induction on `i`.

  lemma {:induction false} PlaceholdersUpToAreEmptyCells(layout: seq<Item>, i: nat, cols: nat)
    ensures forall p :: p in PlaceholdersUpTo(layout, i, cols) ==> IsEmptyCell(layout, p, i, cols)
  {
    if i > 0 {
      PlaceholdersUpToAreEmptyCells(layout, i - 1, cols);
      RowPlaceholdersAreEmptyCells(layout, i - 1, cols);
    }
  }

  lemma {:induction false} PlaceholdersUpToAscend(layout: seq<Item>, i: nat, cols: nat)
    ensures forall a, b :: 0 <= a < b < |PlaceholdersUpTo(layout, i, cols)| ==>
              RowMajorBefore(PlaceholdersUpTo(layout, i, cols)[a], PlaceholdersUpTo(layout, i, cols)[b])
  {
    if i > 0 {
      PlaceholdersUpToAscend(layout, i - 1, cols);
      PlaceholdersUpToAreEmptyCells(layout, i - 1, cols);
      RowPlaceholdersAreEmptyCells(layout, i - 1, cols);
      RowPlaceholdersAscend(layout, i - 1, cols);
      var pre := PlaceholdersUpTo(layout, i - 1, cols);
      var row := RowPlaceholders(layout, i - 1, cols);
      var ps := PlaceholdersUpTo(layout, i, cols);
      assert ps == pre + row;
      forall a, b | 0 <= a < b < |ps|
        ensures RowMajorBefore(ps[a], ps[b])
      {
        if b < |pre| {
          assert ps[a] == pre[a] && ps[b] == pre[b];
        } else if a < |pre| {
          assert ps[a] == pre[a] && pre[a] in pre;
          assert ps[b] == row[b - |pre|] && row[b - |pre|] in row;
        } else {
          assert ps[a] == row[a - |pre|] && ps[b] == row[b - |pre|];
          assert row[a - |pre|] in row;
        }
      }
    }
  }

  lemma {:induction false} PlaceholdersUpToComplete(layout: seq<Item>, i: nat, cols: nat, r: int, c: int)
    requires 0 <= r < i && 0 <= c < cols && !Covered(layout, r, c)
    ensures Cell(r, c) in PlaceholdersUpTo(layout, i, cols)
  {
    var pre := PlaceholdersUpTo(layout, i - 1, cols);
    var row := RowPlaceholders(layout, i - 1, cols);
    assert PlaceholdersUpTo(layout, i, cols) == pre + row;
    if r < i - 1 {
      PlaceholdersUpToComplete(layout, i - 1, cols, r, c);
      assert Cell(r, c) in pre;
    } else {
      RowPlaceholdersComplete(layout, r, cols, c);
      assert Cell(r, c) in row;
    }
  }

  lemma {:induction false} PlaceholdersUpToCount(layout: seq<Item>, i: nat, cols: nat)
    ensures |PlaceholdersUpTo(layout, i, cols)| + CoveredCells(layout, i, cols) == i * cols
  {
    if i > 0 {
      PlaceholdersUpToCount(layout, i - 1, cols);
      RowPlaceholdersCount(layout, i - 1, cols);
      assert i * cols == (i - 1) * cols + cols;
    }
  }
}
