/**
 * The dots of error diffusion as the solution of one system of equations, in the columns of the page:
 * no scan order, no cells, only what each pixel's error is and where its shares come from.
 */
module ErrorDiffusionMeaning {
  import opened Bytes
  import opened ErrorDiffusion

  /** The direction in which a line is scanned. */
  function Dir(line: Line): int {
    if line.y % 2 == 0 then 1 else -1
  }

  /** `weight` sixteenths of the error in column `x`, truncated toward zero; nothing comes from beyond the edges. */
  function Share(errors: seq<int>, x: int, weight: nat): int {
    if 0 <= x < |errors| then Trunc(errors[x] * weight, 16) else 0
  }

  /** What C division by 16 gives: the greatest multiple in size, with the sign of the dividend. */
  lemma TruncMeaning(a: int, q: int)
    ensures q == Trunc(a, 16) <==>
              if a >= 0 then q >= 0 && 16 * q <= a < 16 * q + 16 else q <= 0 && 16 * q - 16 < a <= 16 * q
  {
  }

  /** What the line above sends to column `x`: 3/16 against its direction, 5/16 straight down, 1/16 along it. */
  function FromAbove(line: Line, errors: seq<int>, x: int): int {
    Share(errors, x + Dir(line), 3) + Share(errors, x, 5) + Share(errors, x - Dir(line), 1)
  }

  /** The value of pixel `x` of line `k`: its ink, 7/16 from the pixel scanned before it, the shares from above. */
  function Total(lines: seq<Line>, errors: seq<seq<int>>, k: nat, x: nat): int
    requires k < |lines| == |errors| && x < |lines[k].ink|
  {
    lines[k].ink[x] + (if k == 0 then 0 else FromAbove(lines[k - 1], errors[k - 1], x))
    + Share(errors[k], x - Dir(lines[k]), 7)
  }

  /** A value of 128 or more prints, which leaves 255 less. */
  function Left(v: int): int {
    if v >= 128 then v - 255 else v
  }

  ghost predicate AreErrors(width: nat, lines: seq<Line>, errors: seq<seq<int>>)
    requires forall l <- lines :: |l.ink| == width
  {
    && |errors| == |lines|
    && (forall k :: 0 <= k < |errors| ==> |errors[k]| == width)
    && forall k, x :: 0 <= k < |errors| && 0 <= x < width ==> IsErrorAt(width, lines, errors, k, x)
  }

  predicate IsErrorAt(width: nat, lines: seq<Line>, errors: seq<seq<int>>, k: nat, x: nat)
    requires (forall l <- lines :: |l.ink| == width) && k < |lines| == |errors| && x < width && x < |errors[k]|
  {
    assert lines[k] in lines;
    errors[k][x] == Left(Total(lines, errors, k, x))
  }

  // ---- one line

  /** The errors of a line in the order of the scan. */
  function ErrorLine(ink: seq<int>, above: seq<int>): (r: seq<int>)
    requires |ink| == |above|
    ensures |r| == |ink|
  {
    seq(|ink|, i requires 0 <= i < |ink| => Error(ink, above, i))
  }

  /** The errors of a line, left to right. */
  function ErrorRow(cells: seq<int>, line: Line): (r: seq<int>)
    requires |line.ink| == |cells|
    ensures |r| == |cells|
  {
    Scan(ErrorLine(Scan<int>(line.ink, line.y), Scan(cells, line.y)), line.y)
  }

  lemma ErrorLineAt(ink: seq<int>, above: seq<int>, i: nat)
    requires i < |ink| == |above|
    ensures ErrorLine(ink, above)[i] == Error(ink, above, i)
  {
    hide Error;
  }

  lemma ErrorRowAt(cells: seq<int>, line: Line, x: nat)
    requires |line.ink| == |cells| && x < |cells|
    ensures var ink, above := Scan<int>(line.ink, line.y), Scan(cells, line.y);
            ErrorRow(cells, line)[x] == Error(ink, above, ScanIndex(|cells|, line.y, x))
  {
    hide Error, ErrorLine, Scan, ScanIndex;
    var ink, above := Scan<int>(line.ink, line.y), Scan(cells, line.y);
    ScanAt(ErrorLine(ink, above), line.y, x);
    ErrorLineAt(ink, above, ScanIndex(|cells|, line.y, x));
  }

  /** The value that is compared with 128, in terms of the row of errors. */
  lemma ValueAt(cells: seq<int>, line: Line, x: nat)
    requires |line.ink| == |cells| && x < |cells|
    ensures var ink, above := Scan<int>(line.ink, line.y), Scan(cells, line.y);
            Value(ink, above, ScanIndex(|cells|, line.y, x))
            == line.ink[x] + cells[x] + Share(ErrorRow(cells, line), x - Dir(line), 7)
  {
    hide Error, Dots, ErrorRow, Black;
    if 0 <= x - Dir(line) < |cells| {
      ErrorRowAt(cells, line, x - Dir(line));
    }
  }

  /** The row meets the equations of its line. */
  lemma RowIsSolution(cells: seq<int>, line: Line, x: nat)
    requires |line.ink| == |cells| && x < |cells|
    ensures var row := ErrorRow(cells, line);
            var v := line.ink[x] + cells[x] + Share(row, x - Dir(line), 7);
            row[x] == Left(v) && (Dots(cells, line)[x] <==> v >= 128)
  {
    ErrorRowAt(cells, line, x);
    DotAt(cells, line, x);
    ValueAt(cells, line, x);
    hide Value, ErrorRow, Dots, Share;
  }

  /** There is no other solution: each error is determined by the one before it in the scan. */
  lemma {:induction false} RowIsOnlySolution(cells: seq<int>, line: Line, row: seq<int>, i: nat)
    requires |line.ink| == |cells| == |row| && i < |cells|
    requires IsSolution(cells, line, row)
    ensures var x := ScanIndex(|cells|, line.y, i); row[x] == ErrorRow(cells, line)[x]
    decreases i
  {
    hide ErrorRow, Left, Dots, IsSolution;
    var x := ScanIndex(|cells|, line.y, i);
    RowIsSolution(cells, line, x);
    SolutionAt(cells, line, row, x);
    if i > 0 {
      RowIsOnlySolution(cells, line, row, i - 1);
    }
  }

  ghost predicate IsSolution(cells: seq<int>, line: Line, row: seq<int>)
    requires |line.ink| == |cells| == |row|
  {
    forall x: nat :: x < |row| ==> row[x] == Left(line.ink[x] + cells[x] + Share(row, x - Dir(line), 7))
  }

  lemma SolutionAt(cells: seq<int>, line: Line, row: seq<int>, x: nat)
    requires |line.ink| == |cells| == |row| && IsSolution(cells, line, row) && x < |row|
    ensures row[x] == Left(line.ink[x] + cells[x] + Share(row, x - Dir(line), 7))
  {
  }

  lemma RowIsUnique(cells: seq<int>, line: Line, row: seq<int>)
    requires |line.ink| == |cells| == |row| && IsSolution(cells, line, row)
    ensures row == ErrorRow(cells, line)
  {
    hide ErrorRow, IsSolution;
    forall x: nat | x < |row|
      ensures row[x] == ErrorRow(cells, line)[x]
    {
      RowIsOnlySolution(cells, line, row, ScanIndex(|cells|, line.y, x));
    }
  }

  lemma BelowAt(cells: seq<int>, line: Line, x: nat)
    requires |line.ink| == |cells| && x < |cells|
    ensures var ink, above := Scan<int>(line.ink, line.y), Scan(cells, line.y);
            NextCells(cells, line)[x] == Below(ink, above, ScanIndex(|cells|, line.y, x))
  {
    CellsAreScanned(cells, line);
    hide Below, BelowLine, Scan, ScanIndex, NextCells;
    var ink, above := Scan<int>(line.ink, line.y), Scan(cells, line.y);
    ScanAt(BelowLine(ink, above), line.y, x);
    LineAt(ink, above, ScanIndex(|cells|, line.y, x));
  }

  lemma SharesBelow(ink: seq<int>, above: seq<int>, i: nat)
    requires i < |ink| == |above|
    ensures Below(ink, above, i) == (if i == 0 then 0 else Trunc(Error(ink, above, i - 1) * 1, 16))
                                    + Trunc(Error(ink, above, i) * 5, 16)
                                    + if i + 1 == |ink| then 0 else Trunc(Error(ink, above, i + 1) * 3, 16)
  {
    hide Error, Trunc;
  }

  /** The cells that a line leaves are the shares that its errors send down. */
  lemma CellsAreShares(cells: seq<int>, line: Line, x: nat)
    requires |line.ink| == |cells| && x < |cells|
    ensures NextCells(cells, line)[x] == FromAbove(line, ErrorRow(cells, line), x)
  {
    hide Error, ErrorRow, Below, Trunc;
    var i := ScanIndex(|cells|, line.y, x);
    BelowAt(cells, line, x);
    ErrorRowAt(cells, line, x);
    if 0 <= x - Dir(line) < |cells| {
      ErrorRowAt(cells, line, x - Dir(line));
    }
    if 0 <= x + Dir(line) < |cells| {
      ErrorRowAt(cells, line, x + Dir(line));
    }
    SharesBelow(Scan<int>(line.ink, line.y), Scan(cells, line.y), i);
  }

  // ---- a run of lines

  function ErrorTable(width: nat, lines: seq<Line>): (r: seq<seq<int>>)
    requires forall l <- lines :: |l.ink| == width
    ensures |r| == |lines|
  {
    if lines == [] then []
    else
      var before, last := lines[..|lines| - 1], lines[|lines| - 1];
      assert last in lines;
      ErrorTable(width, before) + [ErrorRow(CellsAfter(width, before), last)]
  }

  lemma {:induction false} TableAt(width: nat, lines: seq<Line>, k: nat)
    requires (forall l <- lines :: |l.ink| == width) && k < |lines|
    ensures lines[k] in lines && forall l <- lines[..k] :: l in lines
    ensures ErrorTable(width, lines)[k] == ErrorRow(CellsAfter(width, lines[..k]), lines[k])
  {
    hide ErrorRow, CellsAfter;
    var n := |lines| - 1;
    if k < n {
      assert forall l <- lines[..n] :: l in lines;
      TableAt(width, lines[..n], k);
      assert lines[..n][..k] == lines[..k];
    }
  }

  lemma CellsFromAbove(width: nat, lines: seq<Line>, k: nat, x: nat)
    requires (forall l <- lines :: |l.ink| == width) && k < |lines| && x < width
    ensures forall l <- lines[..k] :: l in lines
    ensures CellsAfter(width, lines[..k])[x]
            == if k == 0 then 0 else FromAbove(lines[k - 1], ErrorTable(width, lines)[k - 1], x)
  {
    hide ErrorRow, ErrorTable, FromAbove, NextCells;
    if k > 0 {
      TableAt(width, lines, k - 1);
      assert lines[..k][..k - 1] == lines[..k - 1] && lines[..k][k - 1] == lines[k - 1];
      CellsAreShares(CellsAfter(width, lines[..k - 1]), lines[k - 1], x);
    }
  }

  lemma TableIsSolution(width: nat, lines: seq<Line>)
    requires forall l <- lines :: |l.ink| == width
    ensures AreErrors(width, lines, ErrorTable(width, lines))
  {
    hide ErrorRow, ErrorTable, FromAbove, Left, Share, CellsAfter;
    var errors := ErrorTable(width, lines);
    forall k | 0 <= k < |errors|
      ensures |errors[k]| == width
    {
      TableAt(width, lines, k);
    }
    forall k, x | 0 <= k < |errors| && 0 <= x < width
      ensures IsErrorAt(width, lines, errors, k, x)
    {
      TableAt(width, lines, k);
      CellsFromAbove(width, lines, k, x);
      RowIsSolution(CellsAfter(width, lines[..k]), lines[k], x);
    }
  }

  lemma {:induction false} SolutionIsTable(width: nat, lines: seq<Line>, errors: seq<seq<int>>, k: nat)
    requires (forall l <- lines :: |l.ink| == width) && AreErrors(width, lines, errors) && k < |lines|
    ensures errors[k] == ErrorTable(width, lines)[k]
  {
    hide ErrorRow, ErrorTable, FromAbove, Left, Share, CellsAfter;
    TableAt(width, lines, k);
    if k > 0 {
      SolutionIsTable(width, lines, errors, k - 1);
    }
    var cells, row := CellsAfter(width, lines[..k]), errors[k];
    forall x: nat | x < |row|
      ensures row[x] == Left(lines[k].ink[x] + cells[x] + Share(row, x - Dir(lines[k]), 7))
    {
      CellsFromAbove(width, lines, k, x);
      assert IsErrorAt(width, lines, errors, k, x);
    }
    RowIsUnique(cells, lines[k], row);
  }

  lemma SolutionIsUnique(width: nat, lines: seq<Line>, errors: seq<seq<int>>)
    requires (forall l <- lines :: |l.ink| == width) && AreErrors(width, lines, errors)
    ensures errors == ErrorTable(width, lines)
  {
    hide ErrorTable, IsErrorAt;
    forall j | 0 <= j < |lines|
      ensures errors[j] == ErrorTable(width, lines)[j]
    {
      SolutionIsTable(width, lines, errors, j);
    }
  }

  /**
   * Floyd and Steinberg's rule, for every run of lines since a reset: the equations have exactly one
   * solution, and a pixel prints if and only if its value in that solution is at least 128.
   */
  lemma DiffusionMeaning(width: nat, lines: seq<Line>, errors: seq<seq<int>>)
    requires forall l <- lines :: |l.ink| == width
    ensures errors == ErrorTable(width, lines) <==> AreErrors(width, lines, errors)
  {
    hide AreErrors, ErrorTable;
    TableIsSolution(width, lines);
    if AreErrors(width, lines, errors) {
      SolutionIsUnique(width, lines, errors);
    }
  }

  lemma DotMeaning(width: nat, lines: seq<Line>, k: nat, x: nat)
    requires (forall l <- lines :: |l.ink| == width) && k < |lines| && x < width
    ensures lines[k] in lines && forall l <- lines[..k] :: l in lines
    ensures Dots(CellsAfter(width, lines[..k]), lines[k])[x] <==> Total(lines, ErrorTable(width, lines), k, x) >= 128
  {
    hide ErrorRow, ErrorTable, FromAbove, Left, Share, CellsAfter;
    TableAt(width, lines, k);
    CellsFromAbove(width, lines, k, x);
    RowIsSolution(CellsAfter(width, lines[..k]), lines[k], x);
  }
}
