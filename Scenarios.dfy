/**
 Concrete layouts and what getEmptyPlaceholders makes of them.
 */
module Scenarios {
  import opened Layout
  import opened Rows
  import opened Placeholders
  import opened PlaceholderProperties

  /** Item "1" in column 0 and item "2" across columns 1 and 2, both on row 0. */
  function TwoItems(): seq<Item>
  {
    [Item(Key("1"), 0, 0, 1, 1, false), Item(Key("2"), 1, 0, 2, 1, false)]
  }

  /** The empty layout has no rows, so it gets no placeholders at any width. */
  lemma EmptyLayoutHasNoPlaceholders(numberOfColumns: int)
    ensures EmptyPlaceholders([], numberOfColumns) == []
  {
    NumberOfRowsOfEmptyLayout();
  }

  /** TwoItems spans one row. */
  lemma TwoItemsSpanOneRow()
    ensures NumberOfRows(TwoItems()) == 1
  {
    var layout := TwoItems();
    assert layout[0].y == 0 && layout[0].h == 1;
    NumberOfRowsCharacterized(layout, 0, 1);
  }

  /** TwoItems covers the first three cells of row 0 and not the fourth. */
  lemma TwoItemsCoverFirstThreeCells()
    ensures Covered(TwoItems(), 0, 0) && Covered(TwoItems(), 0, 1) && Covered(TwoItems(), 0, 2)
    ensures !Covered(TwoItems(), 0, 3)
  {
    var layout := TwoItems();
    assert Occupies(layout[0], 0, 0) && Occupies(layout[1], 0, 1) && Occupies(layout[1], 0, 2);
  }

  /** Three columns are filled exactly; a fourth column leaves cell (0, 3). */
  lemma TwoItemsPlaceholders()
    ensures EmptyPlaceholders(TwoItems(), 3) == []
    ensures EmptyPlaceholders(TwoItems(), 4) == [Cell(0, 3)]
  {
    TwoItemsSpanOneRow();
    TwoItemsCoverFirstThreeCells();
    var layout := TwoItems();
    assert PlaceholdersUpTo(layout, 1, 3) == RowPlaceholders(layout, 0, 3);
    assert PlaceholdersUpTo(layout, 1, 4) == RowPlaceholders(layout, 0, 4);
  }

  /** A placeholder item in the input does not fill its cell: the cell is
      still reported. */
  lemma LonePlaceholderStaysEmpty()
    ensures var layout := [Item(Key("p"), 0, 0, 1, 1, true)];
      NumberOfRows(layout) == 1 && EmptyPlaceholders(layout, 1) == [Cell(0, 0)]
  {
    var layout := [Item(Key("p"), 0, 0, 1, 1, true)];
    assert layout[0].y == 0 && layout[0].h == 1;
    NumberOfRowsCharacterized(layout, 0, 1);
    assert !Covered(layout, 0, 0);
    assert PlaceholdersUpTo(layout, 1, 1) == RowPlaceholders(layout, 0, 1);
  }

  /** One item in the first of two columns. */
  function OneItem(): seq<Item>
  {
    [Item(Key("1"), 0, 0, 1, 1, false)]
  }

  lemma OneItemLeavesSecondCell()
    ensures EmptyPlaceholders(OneItem(), 2) == [Cell(0, 1)]
  {
    var layout := OneItem();
    assert layout[0].y == 0 && layout[0].h == 1;
    NumberOfRowsCharacterized(layout, 0, 1);
    assert Occupies(layout[0], 0, 0);
    assert PlaceholdersUpTo(layout, 1, 2) == RowPlaceholders(layout, 0, 2);
  }

  /** Padding a layout with its placeholders does not make the generator
      return nothing: the cell (0, 1) is reported again. */
  lemma PaddedLayoutStillHasPlaceholders()
    ensures EmptyPlaceholders(OneItem() + [Cell(0, 1)], 2) == [Cell(0, 1)]
  {
    OneItemLeavesSecondCell();
    RerunReportsSameCells(OneItem(), 2);
  }
}
