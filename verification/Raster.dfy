/** What a page's rows look like once they are padded to bands: bits past the width and rows past the last are white. */
module Raster {
  import opened Arith
  import opened Bytes
  import opened Bits
  import opened Band

  const MAX_WIDTH := 65280

  function BandWidth(width: nat): nat {
    (width + 255) / 256 * 256
  }

  function BytesPerRow(width: nat): nat {
    BandWidth(width) / 8
  }

  function RowBytesUsed(width: nat): nat {
    (width + 7) / 8
  }

  lemma RowFits(width: nat)
    ensures RowBytesUsed(width) <= BytesPerRow(width) && BytesPerRow(width) * 8 == BandWidth(width)
    ensures 0 < width <= MAX_WIDTH ==> 0 < RowBytesUsed(width) && 256 <= BandWidth(width) <= MAX_WIDTH
  {
    var blocks := (width + 255) / 256;
    assert width <= 256 * blocks && BandWidth(width) == 256 * blocks && BytesPerRow(width) == 32 * blocks;
    if width <= MAX_WIDTH {
      assert blocks <= 255;
    }
  }

  ghost predicate IsRaster(width: nat, rows: seq<seq<Byte>>) {
    0 < width <= MAX_WIDTH && forall row <- rows :: |row| == RowBytesUsed(width)
  }

  lemma RasterWidth(width: nat, rows: seq<seq<Byte>>)
    requires IsRaster(width, rows)
    ensures 0 < width <= MAX_WIDTH
  {
  }

  /** `b & (0xFF << (8 - used))`, where no bits used means all of them. */
  function MaskByte(b: Byte, used: nat): Byte
    requires used < 8
  {
    if used == 0 then b
    else
      Masking(b, 8 - used);
      b / Pow2(8 - used) * Pow2(8 - used)
  }

  lemma Masking(b: nat, m: nat)
    ensures 0 <= b / Pow2(m) * Pow2(m) <= b
  {
    DivMod(b, Pow2(m));
  }

  lemma {:induction false} MaskBits(b: nat, m: nat, n: nat)
    ensures 0 <= b / Pow2(m) * Pow2(m) && (Bit(b / Pow2(m) * Pow2(m), n) <==> n >= m && Bit(b, n))
  {
    Masking(b, m);
    if m > 0 {
      var p := Pow2(m - 1);
      MaskBits(b / 2, m - 1, if n > 0 then n - 1 else 0);
      HalfMask(b, p);
      TwiceProduct(b / 2 / p, p);
      assert b / Pow2(m) * Pow2(m) == 2 * (b / 2 / p * p);
      BitOfDouble(b / 2 / p * p, n);
    }
  }

  lemma TwiceProduct(q: nat, p: nat)
    ensures q * (2 * p) == 2 * (q * p)
  {
  }

  lemma BitOfDouble(v: nat, n: nat)
    ensures Bit(2 * v, n) <==> n > 0 && Bit(v, n - 1)
  {
  }

  lemma HalfMask(b: nat, p: nat)
    requires p > 0
    ensures b / (2 * p) == b / 2 / p
  {
    var q, r := b / 2 / p, b / 2 % p;
    assert b / 2 == q * p + r;
    assert b == q * (2 * p) + (2 * r + b % 2);
    DivModUnique(b, 2 * p, q, 2 * r + b % 2);
  }

  /** Byte `c` of row `y` as the workspace holds it; 0 is white. */
  function RowByte(width: nat, rows: seq<seq<Byte>>, y: nat, c: nat): Byte
    requires IsRaster(width, rows)
  {
    if y >= |rows| || c >= RowBytesUsed(width) then 0
    else if c == RowBytesUsed(width) - 1 then MaskByte(rows[y][c], width % 8)
    else rows[y][c]
  }

  /** Padding is white and nothing else is: a pixel is black where it was written black within the width. */
  lemma RowPixel(width: nat, rows: seq<seq<Byte>>, y: nat, x: nat)
    requires IsRaster(width, rows)
    ensures Bit(RowByte(width, rows, y, x / 8), 7 - x % 8) <==>
              y < |rows| && x < width && x < 8 * |rows[y]| && Pixel(rows[y], x)
  {
    NoBits(7 - x % 8);
    ColumnsOfByte(width, x);
    hide RowBytesUsed, Bit;
    var used := RowBytesUsed(width);
    if y < |rows| && x / 8 == used - 1 && width % 8 != 0 {
      MaskBits(rows[y][used - 1], 8 - width % 8, 7 - x % 8);
    }
  }

  /** Which pixels of a byte lie within the width. */
  lemma ColumnsOfByte(width: nat, x: nat)
    ensures var used := RowBytesUsed(width);
            && (x / 8 + 1 < used ==> x < width) && (x / 8 >= used ==> x >= width)
            && (x / 8 + 1 == used ==> (x < width <==> width % 8 == 0 || x % 8 < width % 8))
    ensures x / 8 < RowBytesUsed(width) ==> x < 8 * RowBytesUsed(width)
  {
  }

  /** Band `k` of a page, as 128 padded rows. */
  function BandRows(width: nat, rows: seq<seq<Byte>>, k: nat): (s: seq<Byte>)
    requires IsRaster(width, rows)
    ensures |s| == LINES * BytesPerRow(width)
  {
    seq(LINES * BytesPerRow(width), j requires 0 <= j < LINES * BytesPerRow(width) => BandByte(width, rows, k, j))
  }

  function BandByte(width: nat, rows: seq<seq<Byte>>, k: nat, j: nat): Byte
    requires IsRaster(width, rows) && j < LINES * BytesPerRow(width)
  {
    RowByte(width, rows, k * LINES + LineOf(BytesPerRow(width), j), ColumnOf(BytesPerRow(width), j))
  }

  lemma BandRowsAt(width: nat, rows: seq<seq<Byte>>, k: nat, line: nat, c: nat)
    requires IsRaster(width, rows) && line < LINES && c < BytesPerRow(width)
    ensures ByteOf(BandRows(width, rows, k), BytesPerRow(width), line, c) == RowByte(width, rows, k * LINES + line, c)
  {
    hide BytesPerRow, RowByte;
    RowIndexFits(BytesPerRow(width), line, c);
  }

  predicate Blank(s: seq<Byte>) {
    forall b <- s :: b == 0
  }

  lemma BlankByte(s: seq<Byte>, bpr: nat, line: nat, c: nat)
    requires Blank(s) && |s| == LINES * bpr && line < LINES && c < bpr
    ensures ByteOf(s, bpr, line, c) == 0
  {
    RowIndexFits(bpr, line, c);
    assert s[line * bpr + c] in s;
  }

  /** A band of which no row has been written is white. */
  lemma UnwrittenBandIsBlank(width: nat, rows: seq<seq<Byte>>, k: nat)
    requires IsRaster(width, rows) && |rows| <= k * LINES
    ensures Blank(BandRows(width, rows, k))
  {
    hide BandByte;
    forall j | 0 <= j < LINES * BytesPerRow(width)
      ensures BandByte(width, rows, k, j) == 0
    {
      UnwrittenByte(width, rows, k, j);
    }
  }

  lemma UnwrittenByte(width: nat, rows: seq<seq<Byte>>, k: nat, j: nat)
    requires IsRaster(width, rows) && |rows| <= k * LINES && j < LINES * BytesPerRow(width)
    ensures BandByte(width, rows, k, j) == 0
  {
    hide BytesPerRow, MaskByte;
    RowIndexCovers(BytesPerRow(width), j);
    var line: nat, c: nat := j / BytesPerRow(width), j % BytesPerRow(width);
    assert BandByte(width, rows, k, j) == RowByte(width, rows, k * LINES + line, c);
  }

  /** A band whose last row has been written does not change any more. */
  lemma WrittenBandIsFixed(width: nat, rows: seq<seq<Byte>>, row: seq<Byte>, k: nat)
    requires IsRaster(width, rows + [row]) && IsRaster(width, rows) && (k + 1) * LINES <= |rows|
    ensures BandRows(width, rows + [row], k) == BandRows(width, rows, k)
  {
    forall j | 0 <= j < LINES * BytesPerRow(width)
      ensures BandByte(width, rows + [row], k, j) == BandByte(width, rows, k, j)
    {
      RowIndexCovers(BytesPerRow(width), j);
    }
  }
}
