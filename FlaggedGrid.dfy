/**
 convertToFlaggedGrid: a numberOfRows x numberOfColumns matrix of booleans,
 `true` exactly on the cells some real item covers. The matrix starts all
 `false`; each real item then sets its own cells to `true` in place.
 */
module FlaggedGrid {
  import opened Layout
  import opened Rows

  /** The body of the `layout.forEach` callback: a real item sets every cell
      of its rectangle to `true`; a placeholder item changes nothing. */
  method FlagItem(grid: array2<bool>, item: Item)
    requires Fits(item, grid.Length0, grid.Length1)
    modifies grid
    ensures forall r, c :: 0 <= r < grid.Length0 && 0 <= c < grid.Length1 ==>
              grid[r, c] == (old(grid[r, c]) || Occupies(item, r, c))
  {
    if !item.placeholder {
      var i := item.y;
      while i < item.y + item.h
        invariant item.y <= i && (i <= item.y + item.h || i == item.y)
        invariant forall r, c :: 0 <= r < grid.Length0 && 0 <= c < grid.Length1 ==>
                    grid[r, c] == (old(grid[r, c]) || (item.y <= r < i && item.x <= c < item.x + item.w))
      {
        var j := item.x;
        while j < item.x + item.w
          invariant item.x <= j && (j <= item.x + item.w || j == item.x)
          invariant forall r, c :: 0 <= r < grid.Length0 && 0 <= c < grid.Length1 ==>
                      grid[r, c] == (old(grid[r, c]) || (item.y <= r < i && item.x <= c < item.x + item.w)
                                                     || (r == i && item.x <= c < j))
        {
          grid[i, j] := true;
          j := j + 1;
        }
        i := i + 1;
      }
    }
  }

  /** convertToFlaggedGrid: the grid has NumberOfRows(layout) rows of
      `numberOfColumns` cells, and a cell is `true` exactly when some real
      item of the layout covers it. Every real item must lie inside the
      grid; writing outside it is a runtime error in the source. */
  method ConvertToFlaggedGrid(layout: seq<Item>, numberOfColumns: int) returns (flaggedGrid: array2<bool>)
    requires AllFit(layout, NumberOfRows(layout), Columns(numberOfColumns))
    ensures fresh(flaggedGrid)
    ensures flaggedGrid.Length0 == NumberOfRows(layout)
    ensures flaggedGrid.Length1 == Columns(numberOfColumns)
    ensures forall r, c :: 0 <= r < flaggedGrid.Length0 && 0 <= c < flaggedGrid.Length1 ==>
              (flaggedGrid[r, c] <==> Covered(layout, r, c))
  {
    var numberOfRows := NumberOfRows(layout);
    var cols := Columns(numberOfColumns);
    flaggedGrid := new bool[numberOfRows, cols];

    for i := 0 to numberOfRows
      invariant forall r, c :: 0 <= r < i && 0 <= c < cols ==> !flaggedGrid[r, c]
    {
      for j := 0 to cols
        invariant forall r, c :: 0 <= r < i && 0 <= c < cols ==> !flaggedGrid[r, c]
        invariant forall c :: 0 <= c < j ==> !flaggedGrid[i, c]
      {
        flaggedGrid[i, j] := false;
      }
    }

    for k := 0 to |layout|
      invariant forall r, c :: 0 <= r < numberOfRows && 0 <= c < cols ==>
                  (flaggedGrid[r, c] <==> Covered(layout[..k], r, c))
    {
      FlagItem(flaggedGrid, layout[k]);
      forall r, c | 0 <= r < numberOfRows && 0 <= c < cols
        ensures flaggedGrid[r, c] <==> Covered(layout[..k + 1], r, c)
      {
        CoveredExtend(layout, k, r, c);
      }
    }
    assert layout[..|layout|] == layout;
  }
}
