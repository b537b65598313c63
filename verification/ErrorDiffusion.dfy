/**
 * Floyd-Steinberg error diffusion as a recurrence: each pixel gathers what its neighbours pushed
 * to it. The program scatters instead (module Halftoner); here are the bounds and the balance of
 * ink over whole runs.
 */
module ErrorDiffusion {
  import opened Bytes

  /** C division, which truncates toward zero. */
  function Trunc(a: int, d: int): int
    requires d > 0
  {
    if a >= 0 then a / d else -(-a / d)
  }

  /** The four shares of a pixel's error. */
  function Ahead(e: int): int { Trunc(e * 7, 16) }
  function Behind(e: int): int { Trunc(e * 3, 16) }
  function Under(e: int): int { Trunc(e * 5, 16) }
  function Beyond(e: int): int { Trunc(e * 1, 16) }

  /**
   * One line, in the order it is scanned: `ink` and what the line above left in each cell.
   * The value that pixel `i` is compared with 128.
   */
  function Value(ink: seq<int>, above: seq<int>, i: nat): int
    requires i < |ink| == |above|
    decreases i, 0
  {
    ink[i] + above[i] + if i == 0 then 0 else Ahead(Error(ink, above, i - 1))
  }

  predicate Black(ink: seq<int>, above: seq<int>, i: nat)
    requires i < |ink| == |above|
    decreases i, 1
  {
    Value(ink, above, i) >= 128
  }

  /** The quantisation error of pixel `i`. */
  function Error(ink: seq<int>, above: seq<int>, i: nat): int
    requires i < |ink| == |above|
    decreases i, 2
  {
    Value(ink, above, i) - if Black(ink, above, i) then 255 else 0
  }

  /** What the line leaves in the cell below pixel `i`: shares of the pixels i - 1, i and i + 1. */
  function Below(ink: seq<int>, above: seq<int>, i: nat): int
    requires i < |ink| == |above|
  {
    (if i == 0 then 0 else Beyond(Error(ink, above, i - 1)))
    + Under(Error(ink, above, i))
    + (if i + 1 == |ink| then 0 else Behind(Error(ink, above, i + 1)))
  }

  /** Even lines are scanned left to right, odd lines right to left. */
  function Scan<T>(s: seq<T>, y: nat): (r: seq<T>)
    ensures |r| == |s|
    ensures forall i :: 0 <= i < |s| ==> r[i] == if y % 2 == 0 then s[i] else s[|s| - 1 - i]
  {
    if y % 2 == 0 then s else seq(|s|, i requires 0 <= i < |s| => s[|s| - 1 - i])
  }

  datatype Line = Line(ink: seq<Byte>, y: nat)

  /** The cells after a line, left to right, from the cells before it. */
  function NextCells(cells: seq<int>, line: Line): (r: seq<int>)
    requires |line.ink| == |cells|
    ensures |r| == |cells|
  {
    var ink, above := Scan<int>(line.ink, line.y), Scan(cells, line.y);
    Scan(seq(|cells|, i requires 0 <= i < |cells| => Below(ink, above, i)), line.y)
  }

  /** The dots of a line, left to right. */
  function Dots(cells: seq<int>, line: Line): (r: seq<bool>)
    requires |line.ink| == |cells|
    ensures |r| == |cells|
  {
    var ink, above := Scan<int>(line.ink, line.y), Scan(cells, line.y);
    Scan(seq(|cells|, i requires 0 <= i < |cells| => Black(ink, above, i)), line.y)
  }

  /** The cells after a run of lines of `width` pixels, starting from a reset. */
  function CellsAfter(width: nat, lines: seq<Line>): (r: seq<int>)
    requires forall l <- lines :: |l.ink| == width
    ensures |r| == width
  {
    if lines == [] then seq(width, i => 0)
    else
      var last := lines[|lines| - 1];
      assert last in lines;
      NextCells(CellsAfter(width, lines[..|lines| - 1]), last)
  }

  // ---- column by column

  function BlackLine(ink: seq<int>, above: seq<int>): (r: seq<bool>)
    requires |ink| == |above|
    ensures |r| == |ink|
  {
    seq(|ink|, i requires 0 <= i < |ink| => Black(ink, above, i))
  }

  function BelowLine(ink: seq<int>, above: seq<int>): (r: seq<int>)
    requires |ink| == |above|
    ensures |r| == |ink|
  {
    seq(|ink|, i requires 0 <= i < |ink| => Below(ink, above, i))
  }

  lemma DotsAreScanned(cells: seq<int>, line: Line)
    requires |line.ink| == |cells|
    ensures Dots(cells, line) == Scan(BlackLine(Scan<int>(line.ink, line.y), Scan(cells, line.y)), line.y)
  {
    hide Black, Scan;
  }

  lemma CellsAreScanned(cells: seq<int>, line: Line)
    requires |line.ink| == |cells|
    ensures NextCells(cells, line) == Scan(BelowLine(Scan<int>(line.ink, line.y), Scan(cells, line.y)), line.y)
  {
    hide Below, Scan;
  }

  /** When the scan comes to column `x`, and, the other way round, where it is at step `x`. */
  function ScanIndex(width: nat, y: nat, x: nat): (i: nat)
    requires x < width
    ensures i < width
  {
    if y % 2 == 0 then x else width - 1 - x
  }

  lemma ScanAt<T>(s: seq<T>, y: nat, x: nat)
    requires x < |s|
    ensures Scan(s, y)[x] == s[ScanIndex(|s|, y, x)]
  {
  }

  lemma LineAt(ink: seq<int>, above: seq<int>, i: nat)
    requires i < |ink| == |above|
    ensures BlackLine(ink, above)[i] == Black(ink, above, i)
    ensures BelowLine(ink, above)[i] == Below(ink, above, i)
  {
    hide Black, Below;
  }

  lemma DotAt(cells: seq<int>, line: Line, x: nat)
    requires |line.ink| == |cells| && x < |cells|
    ensures var ink, above := Scan<int>(line.ink, line.y), Scan(cells, line.y);
            Dots(cells, line)[x] == Black(ink, above, ScanIndex(|cells|, line.y, x))
  {
    DotsAreScanned(cells, line);
    hide Black, BlackLine, Scan, ScanIndex, Dots;
    var ink, above := Scan<int>(line.ink, line.y), Scan(cells, line.y);
    ScanAt(BlackLine(ink, above), line.y, x);
    LineAt(ink, above, ScanIndex(|cells|, line.y, x));
  }

  // ---- bounds

  const CELL_BOUND := 69   // 23 + 39 + 7
  const ACC_BOUND := 124   // 69 + 55
  const ERR_BOUND := 127

  ghost predicate IsInk(ink: seq<int>) {
    forall i :: 0 <= i < |ink| ==> 0 <= ink[i] <= 255
  }

  ghost predicate Within(s: seq<int>, bound: int) {
    forall i :: 0 <= i < |s| ==> -bound <= s[i] <= bound
  }

  lemma SharesAreBounded(e: int)
    requires -ERR_BOUND <= e <= ERR_BOUND
    ensures -55 <= Ahead(e) <= 55 && -23 <= Behind(e) <= 23 && -39 <= Under(e) <= 39 && -7 <= Beyond(e) <= 7
  {
  }

  /** Every pixel's error stays within 127 and what its cell had accumulated within 124. */
  lemma {:induction false} ErrorIsBounded(ink: seq<int>, above: seq<int>, i: nat)
    requires i < |ink| == |above| && IsInk(ink) && Within(above, CELL_BOUND)
    ensures -ERR_BOUND <= Error(ink, above, i) <= ERR_BOUND
    ensures -ACC_BOUND <= Value(ink, above, i) - ink[i] <= ACC_BOUND
  {
    hide Ahead;
    if i > 0 {
      ErrorIsBounded(ink, above, i - 1);
      SharesAreBounded(Error(ink, above, i - 1));
    }
  }

  lemma BelowIsBounded(ink: seq<int>, above: seq<int>, i: nat)
    requires i < |ink| == |above| && IsInk(ink) && Within(above, CELL_BOUND)
    ensures -CELL_BOUND <= Below(ink, above, i) <= CELL_BOUND
  {
    hide Error, Under, Beyond, Behind;
    ErrorIsBounded(ink, above, i);
    SharesAreBounded(Error(ink, above, i));
    if i > 0 {
      ErrorIsBounded(ink, above, i - 1);
      SharesAreBounded(Error(ink, above, i - 1));
    }
    if i + 1 < |ink| {
      ErrorIsBounded(ink, above, i + 1);
      SharesAreBounded(Error(ink, above, i + 1));
    }
  }

  lemma NextCellsAreBounded(cells: seq<int>, line: Line)
    requires |line.ink| == |cells| && Within(cells, CELL_BOUND)
    ensures Within(NextCells(cells, line), CELL_BOUND)
  {
    hide Below;
    var ink, above := Scan<int>(line.ink, line.y), Scan(cells, line.y);
    forall i | 0 <= i < |cells|
      ensures -CELL_BOUND <= Below(ink, above, i) <= CELL_BOUND
    {
      BelowIsBounded(ink, above, i);
    }
  }

  /** From a reset the cells stay bounded for ever, whatever the image. */
  lemma {:induction false} CellsStayBounded(width: nat, lines: seq<Line>)
    requires forall l <- lines :: |l.ink| == width
    ensures Within(CellsAfter(width, lines), CELL_BOUND)
  {
    hide NextCells;
    if lines != [] {
      var n := |lines| - 1;
      assert lines[n] in lines;
      CellsStayBounded(width, lines[..n]);
      NextCellsAreBounded(CellsAfter(width, lines[..n]), lines[n]);
    }
  }

  /** Nearly solid ink is always black and nearly blank ink always white, whatever surrounds it. */
  lemma ExtremesAreExact(width: nat, lines: seq<Line>, line: Line, x: nat)
    requires (forall l <- lines :: |l.ink| == width) && |line.ink| == width && x < width
    ensures var dots := Dots(CellsAfter(width, lines), line);
            (line.ink[x] >= 252 ==> dots[x]) && (line.ink[x] <= 3 ==> !dots[x])
  {
    hide CellsAfter, Value, Dots;
    var cells := CellsAfter(width, lines);
    CellsStayBounded(width, lines);
    DotAt(cells, line, x);
    ErrorIsBounded(Scan<int>(line.ink, line.y), Scan(cells, line.y), ScanIndex(width, line.y, x));
  }

  // ---- balance of ink

  function SumTo(s: seq<int>, k: nat): int
    requires k <= |s|
  {
    if k == 0 then 0 else SumTo(s, k - 1) + s[k - 1]
  }

  function Sum(s: seq<int>): int {
    SumTo(s, |s|)
  }

  /** The ink that dots lay down: 255 each. */
  function Laid(dots: seq<bool>): (r: seq<int>)
    ensures |r| == |dots|
  {
    seq(|dots|, i requires 0 <= i < |dots| => if dots[i] then 255 else 0)
  }

  lemma {:induction false} SumOfReverse(s: seq<int>, r: seq<int>, k: nat)
    requires |r| == |s| && (forall i :: 0 <= i < |s| ==> r[i] == s[|s| - 1 - i]) && k <= |s|
    ensures SumTo(r, k) == Sum(s) - SumTo(s, |s| - k)
  {
    if k > 0 {
      SumOfReverse(s, r, k - 1);
    }
  }

  lemma SumOfScan(s: seq<int>, y: nat)
    ensures Sum(Scan(s, y)) == Sum(s)
  {
    if y % 2 != 0 {
      SumOfReverse(s, Scan(s, y), |s|);
    }
  }

  /** Truncating the four shares loses at most 3 of an error. */
  lemma SharesLoseAtMost3(e: int)
    ensures -3 <= e - Ahead(e) - Behind(e) - Under(e) - Beyond(e) <= 3
  {
  }

  /** The shares that, after `k` pixels, have not reached a cell below one of these pixels. */
  function Edge(ink: seq<int>, above: seq<int>, k: nat): int
    requires k <= |ink| == |above|
  {
    if k == 0 then 0
    else Ahead(Error(ink, above, k - 1)) + Beyond(Error(ink, above, k - 1)) + Behind(Error(ink, above, 0))
         - if k == |ink| then 0 else Behind(Error(ink, above, k))
  }

  /** What comes into the first `k` pixels of a line, against what they print and pass down. */
  lemma {:induction false} LineBalanceTo(ink: seq<int>, above: seq<int>, k: nat)
    requires k <= |ink| == |above|
    ensures var lost := SumTo(ink, k) + SumTo(above, k) - SumTo(Laid(BlackLine(ink, above)), k)
                        - SumTo(BelowLine(ink, above), k) - Edge(ink, above, k);
            -3 * k <= lost <= 3 * k
  {
    hide Ahead, Behind, Under, Beyond;
    if k > 0 {
      LineBalanceTo(ink, above, k - 1);
      var i := k - 1;
      var e := Error(ink, above, i);
      SharesLoseAtMost3(e);
      assert e == ink[i] + above[i] + (if i == 0 then 0 else Ahead(Error(ink, above, i - 1)))
                  - (if Black(ink, above, i) then 255 else 0);
      assert Laid(BlackLine(ink, above))[k - 1] == if Black(ink, above, k - 1) then 255 else 0;
      assert BelowLine(ink, above)[k - 1] == Below(ink, above, k - 1);
    }
  }

  /** A line loses at most 3 per pixel to truncation and 85 off its two ends (55 + 23 + 7). */
  lemma LineBalance(ink: seq<int>, above: seq<int>)
    requires |ink| == |above| && IsInk(ink) && Within(above, CELL_BOUND)
    ensures var lost := Sum(ink) + Sum(above) - Sum(Laid(BlackLine(ink, above))) - Sum(BelowLine(ink, above));
            -3 * |ink| - 85 <= lost <= 3 * |ink| + 85
  {
    hide Ahead, Behind, Under, Beyond, Error;
    LineBalanceTo(ink, above, |ink|);
    if |ink| > 0 {
      ErrorIsBounded(ink, above, 0);
      ErrorIsBounded(ink, above, |ink| - 1);
      SharesAreBounded(Error(ink, above, 0));
      SharesAreBounded(Error(ink, above, |ink| - 1));
    }
  }

  lemma LaidOfScan(dots: seq<bool>, y: nat)
    ensures Laid(Scan(dots, y)) == Scan(Laid(dots), y)
  {
  }

  lemma StepBalance(cells: seq<int>, line: Line)
    requires |line.ink| == |cells| && Within(cells, CELL_BOUND)
    ensures var lost := Sum(line.ink) + Sum(cells) - Sum(Laid(Dots(cells, line))) - Sum(NextCells(cells, line));
            -3 * |cells| - 85 <= lost <= 3 * |cells| + 85
  {
    hide Sum, Laid, Below, Black;
    var y := line.y;
    var ink, above := Scan<int>(line.ink, y), Scan(cells, y);
    LineBalance(ink, above);
    SumOfScan(line.ink, y);
    SumOfScan(cells, y);
    LaidOfScan(BlackLine(ink, above), y);
    SumOfScan(Laid(BlackLine(ink, above)), y);
    SumOfScan(BelowLine(ink, above), y);
    DotsAreScanned(cells, line);
    CellsAreScanned(cells, line);
  }

  function InkOf(lines: seq<Line>): int {
    if lines == [] then 0 else InkOf(lines[..|lines| - 1]) + Sum(lines[|lines| - 1].ink)
  }

  /** The number of black dots a run prints. */
  function DotsOf(width: nat, lines: seq<Line>): nat
    requires forall l <- lines :: |l.ink| == width
  {
    if lines == [] then 0
    else
      var before, last := lines[..|lines| - 1], lines[|lines| - 1];
      assert last in lines;
      DotsOf(width, before) + Count(Dots(CellsAfter(width, before), last))
  }

  function Count(dots: seq<bool>): nat {
    if dots == [] then 0 else Count(dots[..|dots| - 1]) + if dots[|dots| - 1] then 1 else 0
  }

  lemma {:induction false} LaidIsCount(dots: seq<bool>, k: nat)
    requires k <= |dots|
    ensures SumTo(Laid(dots), k) == 255 * Count(dots[..k])
  {
    if k > 0 {
      LaidIsCount(dots, k - 1);
      assert dots[..k][..k - 1] == dots[..k - 1];
    }
  }

  lemma {:induction false} RunBalance(width: nat, lines: seq<Line>)
    requires forall l <- lines :: |l.ink| == width
    ensures var lost := InkOf(lines) - 255 * DotsOf(width, lines) - Sum(CellsAfter(width, lines));
            -|lines| * (3 * width + 85) <= lost <= |lines| * (3 * width + 85)
  {
    hide Sum, Laid, Count, NextCells, Dots;
    if lines == [] {
      ZeroSum(width);
    } else {
      var before, last := lines[..|lines| - 1], lines[|lines| - 1];
      assert last in lines;
      RunBalance(width, before);
      var cells := CellsAfter(width, before);
      CellsStayBounded(width, before);
      StepBalance(cells, last);
      LaidTotal(Dots(cells, last));
      var n, m: int := |before|, 3 * width + 85;
      assert |lines| * m == n * m + m;
    }
  }

  lemma LaidTotal(dots: seq<bool>)
    ensures Sum(Laid(dots)) == 255 * Count(dots)
  {
    LaidIsCount(dots, |dots|);
    assert dots[..|dots|] == dots;
  }

  lemma {:induction false} BoundedSum(s: seq<int>, k: nat, bound: int)
    requires k <= |s| && Within(s, bound)
    ensures -bound * k <= SumTo(s, k) <= bound * k
  {
    if k > 0 {
      BoundedSum(s, k - 1, bound);
    }
  }

  lemma ZeroSum(width: nat)
    ensures Sum(CellsAfter(width, [])) == 0
  {
    BoundedSum(CellsAfter(width, []), width, 0);
  }

  /**
   * Ink is conserved over any run of lines from a reset: 255 per dot differs from the ink by at
   * most 3 per pixel, 85 per line and 69 per column.
   */
  lemma InkIsConserved(width: nat, lines: seq<Line>)
    requires forall l <- lines :: |l.ink| == width
    ensures var lost := InkOf(lines) - 255 * DotsOf(width, lines);
            var slack := 3 * (width * |lines|) + 85 * |lines| + 69 * width;
            -slack <= lost <= slack
  {
    hide InkOf, DotsOf, CellsAfter, SumTo;
    RunBalance(width, lines);
    CellsStayBounded(width, lines);
    BoundedSum(CellsAfter(width, lines), width, CELL_BOUND);
    assert |lines| * (3 * width + 85) == 3 * (width * |lines|) + 85 * |lines|;
  }
}
