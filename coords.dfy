/** The row-major layout of the grid: a flat index `i` stands for column
    `i % width` of row `i / width`, and column `x` of row `y` is stored at
    `x + width * y`. */
module Coords {
  import opened Cells

  /** `index_to_coords_with_grid_width`: the column and row of index `i`. */
  function IndexToCoordsWithGridWidth(i: nat, width: nat): (r: (nat, nat))
    requires width > 0
    ensures r.0 < width && r.0 + width * r.1 == i
  {
    (i % width, i / width)
  }

  /** `coords_to_index`: the flat position of column `x` in row `y`; for a
      column inside the grid it is undone by IndexToCoordsWithGridWidth. */
  function CoordsToIndex(width: nat, x: nat, y: nat): (i: nat)
    ensures x < width ==> IndexToCoordsWithGridWidth(i, width) == (x, y)
  {
    DivModOfIndex(width, x, y);
    x + width * y
  }

  /** For a column inside a row of `width` cells, dividing the flat index
      by the width gives back the row, and the remainder the column. */
  lemma DivModOfIndex(width: nat, x: nat, y: nat)
    ensures x < width ==> (x + width * y) % width == x && (x + width * y) / width == y
  {
    if x < width {
      DivModUnique(width, x + width * y, y, x);
    }
  }

  /** `index_to_coords`: the column and row of index `i` in the configured
      grid; an index of the grid lands on one of its rows. */
  function IndexToCoords(c: Config, i: nat): (r: (nat, nat))
    requires c.width > 0
    ensures r.0 < c.width && r.0 + c.width * r.1 == i
    ensures i < c.Length() ==> r.1 < c.height
  {
    RowInsideGrid(c, i);
    IndexToCoordsWithGridWidth(i, c.width)
  }

  /** An index below width × height lies in one of the `height` rows. */
  lemma RowInsideGrid(c: Config, i: nat)
    requires c.width > 0
    ensures i < c.Length() ==> i / c.width < c.height
  {
    if i < c.Length() && i / c.width >= c.height {
      MulMonotone(c.height, i / c.width, c.width);
    }
  }

  /** The case the program's unit test checks. */
  lemma IndexToCoordsExample()
    ensures IndexToCoordsWithGridWidth(9, 4) == (1, 2)
  {
  }

  /** Every cell of the grid has an index inside the grid, and that index
      maps back to the same column and row. */
  lemma CoordsRoundTrip(c: Config, x: nat, y: nat)
    requires x < c.width && y < c.height
    ensures CoordsToIndex(c.width, x, y) < c.Length()
    ensures IndexToCoords(c, CoordsToIndex(c.width, x, y)) == (x, y)
  {
    MulMonotone(y + 1, c.height, c.width);
  }

  /** Every index of the grid maps to a cell of the grid whose index is the
      one we started from. */
  lemma IndexRoundTrip(c: Config, i: nat)
    requires c.width > 0 && i < c.Length()
    ensures IndexToCoords(c, i).0 < c.width && IndexToCoords(c, i).1 < c.height
    ensures CoordsToIndex(c.width, IndexToCoords(c, i).0, IndexToCoords(c, i).1) == i
  {
  }
}
