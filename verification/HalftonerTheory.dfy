/** Which pixels the screening methods print, and how many of them in every window of constant ink. */
module HalftonerTheory {
  import opened Arith
  import opened Bytes
  import opened Counting
  import opened Screens
  import opened DotCounts
  import opened ErrorDiffusion
  import opened ErrorDiffusionMeaning
  import opened Halftoner
  import Mask = BlueNoise

  /** The plain threshold is the same everywhere. */
  lemma ThresholdDot(h: Halftoner, ink: seq<Byte>, y: nat, x: nat)
    requires h.Valid() && h.params.kind == Method.Threshold && |ink| == h.width && x < h.width
    ensures h.LineDots(ink, y)[x] <==> ink[x] > h.params.threshold
  {
    DivModUnique(x, 1, x, 0);
  }

  /** An ordered screen compares each pixel with the threshold of the cell under it. */
  lemma OrderedDot(h: Halftoner, ink: seq<Byte>, y: nat, x: nat)
    requires h.Valid() && h.Ordered() && |ink| == h.width && x < h.width
    ensures h.cell > 0 && y % h.cell * h.cell + x % h.cell < h.matrix.Length
    ensures h.LineDots(ink, y)[x] <==> ink[x] > h.matrix[y % h.cell * h.cell + x % h.cell]
  {
    hide IsScreen, Halftoner.Diffusing, Dots;
    ScreenIsPositive(h.matrix[..], h.cell, h.ranks);
    var row := h.ScreenRow(y);
    assert x % h.cell % h.cell == x % h.cell by {
      DivModUnique(x % h.cell, h.cell, 0, x % h.cell);
    }
    assert row[x % h.cell] == h.matrix[CellUnder(h.cell, x % h.cell, y)];
  }

  /** Blue noise compares each pixel with the mask entry in row y mod 64 and column x mod 64. */
  lemma BlueNoiseDot(h: Halftoner, ink: seq<Byte>, y: nat, x: nat)
    requires h.Valid() && h.params.kind == Method.BlueNoise && |ink| == h.width && x < h.width
    ensures h.LineDots(ink, y)[x] <==> ink[x] > h.mask[y % 64 * 64 + x % 64]
  {
    hide IsScreen, ScreenDots, Halftoner.Diffusing, Halftoner.ScreenRow, Dots;
    MaskRowDot(ink, h.mask, y, x);
  }

  lemma MaskRowDot(ink: seq<Byte>, mask: seq<Byte>, y: nat, x: nat)
    requires |mask| == 4096 && x < |ink|
    ensures ScreenDots(ink, mask[y % 64 * 64..y % 64 * 64 + 64])[x] <==> ink[x] > mask[y % 64 * 64 + x % 64]
  {
    SliceAt(mask, y % 64 * 64, x % 64);
  }

  lemma SliceAt(mask: seq<Byte>, from: nat, x: nat)
    requires x < 64 && from + 64 <= |mask|
    ensures mask[from..from + 64][x] == mask[from + x]
  {
  }

  /** Error diffusion prints a pixel exactly when its value in the equations of the run so far is at least 128. */
  lemma DiffusedDot(h: Halftoner, ink: seq<Byte>, y: nat, x: nat)
    requires h.Valid() && h.params.kind == Method.FloydSteinberg && |ink| == h.width && x < h.width
    ensures forall l <- h.lines + [Line(ink, y)] :: |l.ink| == h.width
    ensures var lines := h.lines + [Line(ink, y)];
            h.LineDots(ink, y)[x] <==> Total(lines, ErrorTable(h.width, lines), |h.lines|, x) >= 128
  {
    hide Dots, CellsAfter, ErrorTable, Total, Halftoner.Valid, Halftoner.LineDots;
    DiffusedDots(h, ink, y);
    var lines := h.lines + [Line(ink, y)];
    assert lines[..|h.lines|] == h.lines && lines[|h.lines|] == Line(ink, y);
    DotMeaning(h.width, lines, |h.lines|, x);
  }

  // ---- windows of constant ink

  function Constant(v: Byte, n: nat): (ink: seq<Byte>)
    ensures |ink| == n && forall i :: 0 <= i < n ==> ink[i] == v
  {
    seq(n, _ => v)
  }

  /** On ink `v` everywhere, is pixel (x0 + a, y0 + b) printed? */
  ghost predicate Prints(h: Halftoner, v: Byte, x0: nat, y0: nat, a: nat, b: nat)
    requires h.Valid() && x0 + a < h.width
    reads h, h.matrix, h.state
  {
    h.LineDots(Constant(v, h.width), y0 + b)[x0 + a]
  }

  /** The dots that ink `v` prints in the c-by-c window at (x0, y0). */
  ghost function DotsPrinted(h: Halftoner, v: Byte, c: nat, x0: nat, y0: nat): set<(nat, nat)>
    requires h.Valid() && x0 + c <= h.width
    reads h, h.matrix, h.state
  {
    set a: nat, b: nat | a < c && b < c && Prints(h, v, x0, y0, a, b) :: (a, b)
  }

  lemma SamePlaces(h: Halftoner, v: Byte, c: nat, x0: nat, y0: nat, screen: seq<int>)
    requires h.Valid() && x0 + c <= h.width && 0 < c && c * c <= |screen|
    requires forall a: nat, b: nat :: a < c && b < c ==>
                                        (Prints(h, v, x0, y0, a, b) <==> v > screen[CellUnder(c, x0 + a, y0 + b)])
    ensures DotsPrinted(h, v, c, x0, y0) == DotsIn(screen, c, v, x0, y0)
  {
    hide Prints, CellUnder, Halftoner.Valid;
  }

  /** On constant ink an ordered method prints its share of dots, exactly, in every window of the size of its cell. */
  lemma OrderedWindow(h: Halftoner, v: Byte, x0: nat, y0: nat)
    requires h.Valid() && h.Ordered() && x0 + h.cell <= h.width
    ensures |DotsPrinted(h, v, h.cell, x0, y0)| == DotCount(v, h.cell * h.cell)
  {
    var c, screen: seq<Byte> := h.cell, h.matrix[..];
    assert IsScreen(screen, c, h.ranks);
    hide IsScreen, DotCount, Prints, DotsPrinted, DotsIn, Halftoner.Valid;
    ScreenIsPositive(screen, c, h.ranks);
    forall a: nat, b: nat | a < c && b < c
      ensures Prints(h, v, x0, y0, a, b) <==> v > screen[CellUnder(c, x0 + a, y0 + b)]
    {
      OrderedPrint(h, v, x0, y0, a, b);
    }
    SamePlaces(h, v, c, x0, y0, screen);
    WindowHasExactCount(screen, c, h.ranks, v, x0, y0);
  }

  lemma OrderedPrint(h: Halftoner, v: Byte, x0: nat, y0: nat, a: nat, b: nat)
    requires h.Valid() && h.Ordered() && x0 + a < h.width
    ensures h.cell > 0 && CellUnder(h.cell, x0 + a, y0 + b) < h.matrix.Length
    ensures Prints(h, v, x0, y0, a, b) <==> v > h.matrix[CellUnder(h.cell, x0 + a, y0 + b)]
  {
    hide Halftoner.Valid, Halftoner.LineDots;
    OrderedDot(h, Constant(v, h.width), y0 + b, x0 + a);
  }

  /** With a mask that the generator made, blue noise prints ceil(4096 v / 255) dots in every 64-by-64 window. */
  lemma BlueNoiseWindow(h: Halftoner, order: seq<nat>, v: Byte, x0: nat, y0: nat)
    requires h.Valid() && h.params.kind == Method.BlueNoise && x0 + 64 <= h.width
    requires Mask.IsMask(h.mask, order) && IsPermutation(order)
    ensures var n := |DotsPrinted(h, v, 64, x0, y0)|; 4096 * v as int <= 255 * n < 4096 * v as int + 255
  {
    hide Mask.IsMask, IsPermutation, Prints, DotsPrinted, DotsIn, Halftoner.Valid, CellUnder;
    MaskSize(h.mask, order);
    forall a: nat, b: nat | a < 64 && b < 64
      ensures Prints(h, v, x0, y0, a, b) <==> v > h.mask[CellUnder(64, x0 + a, y0 + b)]
    {
      BlueNoisePrint(h, v, x0, y0, a, b);
    }
    SamePlaces(h, v, 64, x0, y0, h.mask);
    Mask.MaskWindowHasExactCount(h.mask, order, v, x0, y0);
  }

  lemma MaskSize(mask: seq<int>, order: seq<nat>)
    requires Mask.IsMask(mask, order)
    ensures |mask| == 4096
  {
  }

  lemma BlueNoisePrint(h: Halftoner, v: Byte, x0: nat, y0: nat, a: nat, b: nat)
    requires h.Valid() && h.params.kind == Method.BlueNoise && x0 + a < h.width && |h.mask| == 4096
    ensures Prints(h, v, x0, y0, a, b) <==> v > h.mask[CellUnder(64, x0 + a, y0 + b)]
  {
    hide Halftoner.Valid, Halftoner.LineDots;
    BlueNoiseDot(h, Constant(v, h.width), y0 + b, x0 + a);
  }
}
