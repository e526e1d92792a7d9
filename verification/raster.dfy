/** The in-memory raster the codec borrows from the image library. */
module Raster {
  import opened Bits

  /**
   A decoded colour image of `rows` × `cols` pixels with three 8-bit channels
   each, flattened the way numpy stores it: row by row, pixel by pixel, and
   channels 0, 1, 2 within a pixel. Channel `ch` of pixel (`row`, `col`) is
   `data[(row * cols + col) * 3 + ch]`.
   */
  datatype Image = Image(rows: nat, cols: nat, data: seq<Byte>) {

    /** The channel values fill exactly the `rows` × `cols` × 3 shape. */
    predicate Valid()
    {
      |data| == rows * cols * 3
    }
  }

  /** The channels of row `row` start at `row * cols * 3`, and the next row starts `3 * cols` later, inside the image. */
  lemma RowFits(row: nat, rows: nat, cols: nat)
    requires row < rows
    ensures row * cols * 3 + 3 * cols <= rows * cols * 3
    ensures row * cols * 3 + 3 * cols == (row + 1) * cols * 3
  {
    assert row * cols * 3 + 3 * cols == (row + 1) * (cols * 3);
    assert (row + 1) * (cols * 3) <= rows * (cols * 3);
  }
}
