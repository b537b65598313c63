/** The band layout: 128 lines stored column by column, complemented. */
module Band {
  import opened Arith
  import opened Bytes

  const LINES := 128

  lemma RowIndexFits(bpr: nat, line: nat, col: nat)
    requires line < LINES && col < bpr
    ensures line * bpr + col < LINES * bpr
    ensures col * LINES + line < LINES * bpr
    ensures (line * bpr + col) % bpr == col && (line * bpr + col) / bpr == line
  {
    MulMonotone(line + 1, LINES, bpr);
    DivModUnique(line * bpr + col, bpr, line, col);
  }

  lemma RowIndexCovers(bpr: nat, j: nat)
    requires j < LINES * bpr
    ensures j / bpr < LINES && j % bpr < bpr && j / bpr * bpr + j % bpr == j
  {
    DivMod(j, bpr);
    if j / bpr >= LINES {
      MulMonotone(LINES, j / bpr, bpr);
    }
  }

  function LineOf(bpr: nat, j: nat): (line: nat)
    requires j < LINES * bpr
    ensures line < LINES
  {
    RowIndexCovers(bpr, j);
    j / bpr
  }

  function ColumnOf(bpr: nat, j: nat): (c: nat)
    requires j < LINES * bpr
    ensures c < bpr
  {
    RowIndexCovers(bpr, j);
    j % bpr
  }

  /** Byte `c` of line `line` of rows of `bpr` bytes. */
  function ByteOf(rows: seq<Byte>, bpr: nat, line: nat, c: nat): Byte
    requires |rows| == LINES * bpr && line < LINES && c < bpr
  {
    RowIndexFits(bpr, line, c);
    rows[line * bpr + c]
  }

  /** Rows of the same bytes line by line are the same rows. */
  lemma LinesDetermine(s: seq<Byte>, t: seq<Byte>, bpr: nat)
    requires |s| == |t| == LINES * bpr
    requires forall l, c :: 0 <= l < LINES && 0 <= c < bpr ==> ByteOf(s, bpr, l, c) == ByteOf(t, bpr, l, c)
    ensures s == t
  {
    forall j | 0 <= j < |s|
      ensures s[j] == t[j]
    {
      RowIndexCovers(bpr, j);
      assert ByteOf(s, bpr, j / bpr, j % bpr) == ByteOf(t, bpr, j / bpr, j % bpr);
    }
  }

  /** Byte `line` of column `col` of a band is the complement of byte `col` of row `line`. */
  function RowsToBand(rows: seq<Byte>, bpr: nat): (band: seq<Byte>)
    requires |rows| == LINES * bpr
    ensures |band| == |rows|
  {
    seq(|rows|, i requires 0 <= i < |rows| =>
      RowIndexFits(bpr, i % LINES, i / LINES);
      0xFF - rows[i % LINES * bpr + i / LINES])
  }

  function BandToRows(band: seq<Byte>, bpr: nat): (rows: seq<Byte>)
    requires |band| == LINES * bpr
    ensures |rows| == |band|
  {
    seq(|band|, j requires 0 <= j < |band| =>
      RowIndexCovers(bpr, j);
      RowIndexFits(bpr, j / bpr, j % bpr);
      0xFF - band[j % bpr * LINES + j / bpr])
  }

  lemma BandAt(rows: seq<Byte>, bpr: nat, line: nat, col: nat)
    requires |rows| == LINES * bpr && line < LINES && col < bpr
    ensures col * LINES + line < |rows| && line * bpr + col < |rows|
    ensures RowsToBand(rows, bpr)[col * LINES + line] == 0xFF - rows[line * bpr + col]
  {
    RowIndexFits(bpr, line, col);
  }

  lemma RowsAt(band: seq<Byte>, bpr: nat, line: nat, col: nat)
    requires |band| == LINES * bpr && line < LINES && col < bpr
    ensures col * LINES + line < |band| && line * bpr + col < |band|
    ensures BandToRows(band, bpr)[line * bpr + col] == 0xFF - band[col * LINES + line]
  {
    RowIndexFits(bpr, line, col);
  }

  /** The two layouts are inverse to each other. */
  lemma BandRoundTrip(s: seq<Byte>, bpr: nat)
    requires |s| == LINES * bpr
    ensures BandToRows(RowsToBand(s, bpr), bpr) == s
    ensures RowsToBand(BandToRows(s, bpr), bpr) == s
  {
    RowsComeBack(s, bpr);
    BandComesBack(s, bpr);
  }

  lemma RowsComeBack(rows: seq<Byte>, bpr: nat)
    requires |rows| == LINES * bpr
    ensures BandToRows(RowsToBand(rows, bpr), bpr) == rows
  {
    hide RowsToBand, BandToRows, ByteOf;
    var band := RowsToBand(rows, bpr);
    var back := BandToRows(band, bpr);
    forall l, c | 0 <= l < LINES && 0 <= c < bpr
      ensures ByteOf(back, bpr, l, c) == ByteOf(rows, bpr, l, c)
    {
      ByteThere(rows, bpr, l, c);
      ByteBack(band, bpr, l, c);
    }
    LinesDetermine(back, rows, bpr);
  }

  lemma ByteThere(rows: seq<Byte>, bpr: nat, l: nat, c: nat)
    requires |rows| == LINES * bpr && l < LINES && c < bpr
    ensures c * LINES + l < |rows| && RowsToBand(rows, bpr)[c * LINES + l] == 0xFF - ByteOf(rows, bpr, l, c)
  {
    hide RowsToBand;
    BandAt(rows, bpr, l, c);
  }

  lemma ByteBack(band: seq<Byte>, bpr: nat, l: nat, c: nat)
    requires |band| == LINES * bpr && l < LINES && c < bpr
    ensures c * LINES + l < |band| && ByteOf(BandToRows(band, bpr), bpr, l, c) == 0xFF - band[c * LINES + l]
  {
    hide BandToRows;
    RowsAt(band, bpr, l, c);
  }

  lemma BandComesBack(band: seq<Byte>, bpr: nat)
    requires |band| == LINES * bpr
    ensures RowsToBand(BandToRows(band, bpr), bpr) == band
  {
    hide RowsToBand, BandToRows, ByteOf;
    var rows := BandToRows(band, bpr);
    forall i: nat | i < |band|
      ensures RowsToBand(rows, bpr)[i] == band[i]
    {
      ByteBack(band, bpr, i % LINES, i / LINES);
      ByteThere(rows, bpr, i % LINES, i / LINES);
    }
  }

  /** The transpose as the program runs it, column by column. */
  method TransposeToBand(rows: array<Byte>, bpr: nat, band: array<Byte>)
    requires rows != band && rows.Length == band.Length == LINES * bpr
    modifies band
    ensures band[..] == RowsToBand(rows[..], bpr)
  {
    hide RowsToBand;
    for col := 0 to bpr
      invariant forall i :: 0 <= i < col * LINES ==> band[i] == RowsToBand(rows[..], bpr)[i]
    {
      for line := 0 to LINES
        invariant forall i :: 0 <= i < col * LINES + line ==> band[i] == RowsToBand(rows[..], bpr)[i]
      {
        BandAt(rows[..], bpr, line, col);
        band[col * LINES + line] := 0xFF - rows[line * bpr + col];
      }
    }
  }

  /** The row bytes stored when `line` bytes of column `col`, and all columns before it, are done. */
  predicate Reached(bpr: nat, line: nat, col: nat, j: nat)
    requires bpr > 0
  {
    j % bpr < col || (j % bpr == col && j / bpr < line)
  }

  lemma ReachedStep(bpr: nat, line: nat, col: nat, j: nat)
    requires line < LINES && col < bpr && j < LINES * bpr
    ensures Reached(bpr, line + 1, col, j) <==> Reached(bpr, line, col, j) || j == line * bpr + col
  {
    RowIndexFits(bpr, line, col);
    RowIndexCovers(bpr, j);
  }

  lemma ReachedColumn(bpr: nat, col: nat, j: nat)
    requires col < bpr && j < LINES * bpr
    ensures Reached(bpr, 0, col + 1, j) <==> Reached(bpr, LINES, col, j)
    ensures !Reached(bpr, 0, 0, j) && Reached(bpr, 0, bpr, j)
  {
    RowIndexCovers(bpr, j);
  }

  method TransposeToRows(band: array<Byte>, bpr: nat, rows: array<Byte>)
    requires rows != band && rows.Length == band.Length == LINES * bpr
    modifies rows
    ensures rows[..] == BandToRows(band[..], bpr)
  {
    hide BandToRows, Reached;
    ghost var target := BandToRows(band[..], bpr);
    forall j | 0 <= j < rows.Length && bpr > 0
      ensures !Reached(bpr, 0, 0, j) && Reached(bpr, 0, bpr, j)
    {
      ReachedColumn(bpr, 0, j);
    }
    for col := 0 to bpr
      invariant forall j :: 0 <= j < rows.Length && Reached(bpr, 0, col, j) ==> rows[j] == target[j]
    {
      for line := 0 to LINES
        invariant forall j :: 0 <= j < rows.Length && Reached(bpr, line, col, j) ==> rows[j] == target[j]
      {
        RowsAt(band[..], bpr, line, col);
        rows[line * bpr + col] := 0xFF - band[col * LINES + line];
        forall j | 0 <= j < rows.Length && Reached(bpr, line + 1, col, j)
          ensures rows[j] == target[j]
        {
          ReachedStep(bpr, line, col, j);
        }
      }
      forall j | 0 <= j < rows.Length && Reached(bpr, 0, col + 1, j)
        ensures rows[j] == target[j]
      {
        ReachedColumn(bpr, col, j);
      }
    }
  }
}
