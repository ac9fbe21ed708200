/**
 Layout items of a grid layout and the occupancy relation between items and
 grid cells. A cell is addressed by (row, col); an item covers the rectangle
 [y, y + h) x [x, x + w).
 */
module Layout {

  /** The key `i` of a layout item: either the caller's own key, or the key
      `placeholder-<row>-<col>` that the placeholder generator builds, kept
      here as its (row, col) content. */
  datatype ItemId = Key(name: string) | PlaceholderKey(row: int, col: int)

  /** One item of a layout. An absent `placeholder` flag is `false`. */
  datatype Item = Item(i: ItemId, x: int, y: int, w: int, h: int, placeholder: bool)

  /** The item flags cell (row, col): it is not a placeholder and its
      rectangle contains the cell. */
  predicate Occupies(item: Item, row: int, col: int)
  {
    !item.placeholder && item.y <= row < item.y + item.h && item.x <= col < item.x + item.w
  }

  /** Some real (non-placeholder) item of the layout covers cell (row, col). */
  predicate Covered(layout: seq<Item>, row: int, col: int)
  {
    exists k :: 0 <= k < |layout| && Occupies(layout[k], row, col)
  }

  /** The rectangles of two items share at least one cell. */
  predicate Overlap(a: Item, b: Item)
  {
    a.x < b.x + b.w && b.x < a.x + a.w && a.y < b.y + b.h && b.y < a.y + a.h
  }

  /** The 1x1 placeholder item generated for the empty cell (row, col). */
  function Cell(row: int, col: int): Item
  {
    Item(PlaceholderKey(row, col), col, row, 1, 1, true)
  }

  /** The number of columns the loops `for (j = 0; j < numberOfColumns; j++)`
      visit: none when the count is negative. */
  function Columns(numberOfColumns: int): nat
  {
    if numberOfColumns < 0 then 0 else numberOfColumns
  }

  /** Writing the item's cells stays inside a rows x cols grid. Placeholder
      items and items with an empty rectangle write nothing. */
  predicate Fits(item: Item, rows: int, cols: int)
  {
    item.placeholder || item.w <= 0 || item.h <= 0 ||
    (0 <= item.x && item.x + item.w <= cols && 0 <= item.y && item.y + item.h <= rows)
  }

  predicate AllFit(layout: seq<Item>, rows: int, cols: int)
  {
    forall k :: 0 <= k < |layout| ==> Fits(layout[k], rows, cols)
  }

  /** The layout without its placeholder items, in their original order. */
  function RealItems(layout: seq<Item>): (kept: seq<Item>)
    ensures forall it :: it in kept ==> it in layout && !it.placeholder
    ensures forall k :: 0 <= k < |layout| && !layout[k].placeholder ==> layout[k] in kept
  {
    if layout == [] then []
    else
      var rest := RealItems(layout[..|layout| - 1]);
      var last := layout[|layout| - 1];
      if last.placeholder then rest else rest + [last]
  }

  /** Placeholder items never flag a cell: dropping them leaves the
      occupancy of every cell as it was. */
  lemma PlaceholderItemsNeverCover(layout: seq<Item>, row: int, col: int)
    ensures Covered(layout, row, col) <==> Covered(RealItems(layout), row, col)
  {
    var kept := RealItems(layout);
    if Covered(layout, row, col) {
      var k :| 0 <= k < |layout| && Occupies(layout[k], row, col);
      assert layout[k] in kept;
      var j :| 0 <= j < |kept| && kept[j] == layout[k];
      assert Occupies(kept[j], row, col);
    }
    if Covered(kept, row, col) {
      var j :| 0 <= j < |kept| && Occupies(kept[j], row, col);
      assert kept[j] in layout;
      var k :| 0 <= k < |layout| && layout[k] == kept[j];
      assert Occupies(layout[k], row, col);
    }
  }

  /** Extending a layout prefix by one item adds exactly that item's cells. */
  lemma CoveredExtend(layout: seq<Item>, n: nat, row: int, col: int)
    requires n < |layout|
    ensures Covered(layout[..n + 1], row, col) <==> Covered(layout[..n], row, col) || Occupies(layout[n], row, col)
  {
    var pre, ext := layout[..n], layout[..n + 1];
    if Covered(ext, row, col) {
      var k :| 0 <= k < |ext| && Occupies(ext[k], row, col);
      if k < n {
        assert pre[k] == ext[k];
      }
    }
    if Covered(pre, row, col) {
      var k :| 0 <= k < |pre| && Occupies(pre[k], row, col);
      assert ext[k] == pre[k];
    }
    if Occupies(layout[n], row, col) {
      assert ext[n] == layout[n];
    }
  }
}
