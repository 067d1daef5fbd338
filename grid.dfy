/**
 * The image assembler: the 181 decoded pixel codes are laid out on a
 * 13 x 15 grid whose outline is a rounded diamond.  Every row has an
 * inclusive range of active columns; all other cells are black (0).
 * Codes 0..14 are rescaled to grey levels through a fixed table.
 */
module Grid {
  import opened Types

  const Rows: nat := 13
  const Cols: nat := 15
  /** Number of pixel codes one image carries. */
  const CodeCount: nat := 181
  /** Number of cells of the grid. */
  const CellCount: nat := 195

  /** Grey level of each of the 15 pixel codes. */
  const DecoderTable: seq<byte> := [0, 18, 36, 55, 73, 91, 109, 128, 146, 164, 182, 200, 219, 237, 255]

  /** A linear buffer of pixel codes as the decoder produces it. */
  predicate IsCodes(codes: seq<byte>) {
    |codes| == CodeCount && forall k | 0 <= k < |codes| :: codes[k] < 15
  }

  /** First active column of a row (inclusive). */
  function RowStart(row: nat): nat {
    if row == 0 then 3 else if row == 1 then 2 else if row <= 3 then 1 else 0
  }

  /** Last active column of a row (inclusive). */
  function RowEnd(row: nat): nat {
    if row == 0 then 11 else if row == 1 then 12 else if row <= 3 then 13 else 14
  }

  function RowWidth(row: nat): nat {
    RowEnd(row) - RowStart(row) + 1
  }

  predicate Active(row: nat, col: nat) {
    row < Rows && RowStart(row) <= col <= RowEnd(row)
  }

  /** Position of a cell in the row-major image buffer. */
  function CellIndex(row: nat, col: nat): nat {
    row * Cols + col
  }

  /** Number of codes consumed by the rows before `row`: the running index of the unpacking loop. */
  function RowOffset(row: nat): nat {
    if row == 0 then 0 else RowOffset(row - 1) + RowWidth(row - 1)
  }

  /** Index in the linear buffer of the code that lands on an active cell. */
  function CodeIndex(row: nat, col: nat): (i: nat)
    requires Active(row, col)
    ensures i < CodeCount
  {
    RowOffsetClosedForm(row);
    RowOffsetClosedForm(Rows);
    RowOffset(row) + col - RowStart(row)
  }

  lemma {:induction false} RowOffsetClosedForm(row: nat)
    requires row <= Rows
    ensures RowOffset(row) == if row == 0 then 0 else if row == 1 then 9 else if row == 2 then 20
                              else if row == 3 then 33 else 46 + 15 * (row - 4)
  {
    if row > 0 {
      RowOffsetClosedForm(row - 1);
    }
  }

  /** The rows together hold exactly the 181 codes. */
  lemma RowsConsumeAllCodes()
    ensures RowOffset(Rows) == CodeCount
  {
    RowOffsetClosedForm(Rows);
  }

  /**
   * Codes are consumed in row-major order: of two active cells, the one that
   * comes first in the image takes the earlier code (so no code is used twice).
   */
  lemma CodesInRowMajorOrder(r1: nat, c1: nat, r2: nat, c2: nat)
    requires Active(r1, c1) && Active(r2, c2)
    requires c1 < Cols && c2 < Cols
    requires CellIndex(r1, c1) < CellIndex(r2, c2)
    ensures CodeIndex(r1, c1) < CodeIndex(r2, c2)
  {
    RowOffsetClosedForm(r1);
    RowOffsetClosedForm(r2);
  }

  /** Every code lands on some active cell: the cell that receives code `i`. */
  function CellOfCode(i: nat): (rc: (nat, nat))
    requires i < CodeCount
    ensures Active(rc.0, rc.1) && CodeIndex(rc.0, rc.1) == i
  {
    RowOffsetClosedForm(0);
    RowOffsetClosedForm(1);
    RowOffsetClosedForm(2);
    RowOffsetClosedForm(3);
    if i < 9 then (0, 3 + i)
    else if i < 20 then (1, 2 + (i - 9))
    else if i < 33 then (2, 1 + (i - 20))
    else if i < 46 then (3, 1 + (i - 33))
    else
      var row := 4 + (i - 46) / 15;
      RowOffsetClosedForm(row);
      (row, (i - 46) % 15)
  }

  /** The grey level of one cell of the unpacked image. */
  function Pixel(codes: seq<byte>, row: nat, col: nat): byte
    requires IsCodes(codes) && row < Rows
  {
    if RowStart(row) <= col <= RowEnd(row) then
      DecoderTable[codes[CodeIndex(row, col)]]
    else 0
  }

  /** The 195-cell image built from 181 codes. */
  function Unpack(codes: seq<byte>): (img: seq<byte>)
    requires IsCodes(codes)
    ensures |img| == CellCount
  {
    seq(CellCount, k requires 0 <= k < CellCount => Pixel(codes, k / Cols, k % Cols))
  }

  /**
   * The layout of an unpacked image: cells outside the diamond are black, and
   * the cell at (row, col) of the diamond shows the grey level of the code at
   * that cell's position in reading order.
   */
  lemma UnpackLayout(codes: seq<byte>)
    requires IsCodes(codes)
    ensures var img := Unpack(codes);
            && (forall row: nat, col: nat | row < Rows && col < Cols && !Active(row, col) :: img[CellIndex(row, col)] == 0)
            && (forall row: nat, col: nat | Active(row, col) :: img[CellIndex(row, col)] == DecoderTable[codes[CodeIndex(row, col)]])
  {
    PixelLayout(codes, Unpack(codes));
  }

  /** A buffer holding `Pixel` at every flat index has the row/column layout of the grid. */
  lemma PixelLayout(codes: seq<byte>, img: seq<byte>)
    requires IsCodes(codes) && |img| == CellCount
    requires forall k | 0 <= k < CellCount :: img[k] == Pixel(codes, k / Cols, k % Cols)
    ensures forall row: nat, col: nat | row < Rows && col < Cols && !Active(row, col) :: img[CellIndex(row, col)] == 0
    ensures forall row: nat, col: nat | Active(row, col) :: img[CellIndex(row, col)] == DecoderTable[codes[CodeIndex(row, col)]]
  {
    forall row: nat, col: nat | row < Rows && col < Cols
      ensures img[CellIndex(row, col)] == Pixel(codes, row, col)
    {
      var k := CellIndex(row, col);
      assert k / Cols == row && k % Cols == col;
    }
  }

  /** The grey table spreads the 15 codes evenly over 0..255, rounding to nearest. */
  lemma DecoderTableIsRoundedScale()
    ensures |DecoderTable| == 15
    ensures forall c | 0 <= c < 15 :: DecoderTable[c] == (c * 255 + 7) / 14
    ensures DecoderTable[0] == 0 && DecoderTable[7] == 128 && DecoderTable[14] == 255
    ensures forall c | 0 < c < 15 :: DecoderTable[c - 1] < DecoderTable[c]
  {
  }
}
