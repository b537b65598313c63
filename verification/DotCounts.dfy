/** Thresholds from ranks, and the exact number of dots that an ordered screen prints. */
module DotCounts {
  import opened Arith
  import opened Bytes
  import opened Counting
  import opened Screens

  /** The threshold of a rank among `levels`. */
  function Threshold(rank: nat, levels: nat): nat
    requires levels > 0
  {
    var a, b := (2 * rank + 1) * 256, 2 * levels;
    DivMod(a, b);
    a / b
  }

  lemma ThresholdFits(rank: nat, levels: nat)
    requires rank < levels
    ensures Threshold(rank, levels) < 0x100
  {
    CutIsExact(256, rank, levels);
  }

  /** ink > threshold, without the division. */
  lemma CutIsExact(v: nat, rank: nat, levels: nat)
    requires levels > 0
    ensures v > Threshold(rank, levels) <==> 2 * (v * levels) > (2 * rank + 1) * 256
  {
    QuotientBelow((2 * rank + 1) * 256, 2 * levels, v);
    assert v * (2 * levels) == 2 * (v * levels);
  }

  lemma QuotientBelow(a: nat, b: nat, v: nat)
    requires b > 0
    ensures v > a / b <==> v * b > a
  {
    DivMod(a, b);
    if v > a / b {
      MulMonotone(a / b + 1, v, b);
    } else {
      MulMonotone(v, a / b, b);
    }
  }

  /** How many of `levels` ranks a constant ink of `v` turns black. */
  function DotCount(v: nat, levels: nat): nat {
    (2 * (v * levels) + 255) / 512
  }

  lemma CountCuts(v: nat, rank: nat, levels: nat)
    requires levels > 0
    ensures v > Threshold(rank, levels) <==> rank < DotCount(v, levels)
  {
    CutIsExact(v, rank, levels);
  }

  /** The dot count is within half a dot of the ink, and never more than there are cells. */
  lemma CountIsFair(v: Byte, levels: nat)
    ensures var n, ideal: int := DotCount(v, levels), v as int * levels;
            n <= levels && -128 <= 256 * n - ideal <= 128
  {
    MulMonotone(v, 255, levels);
  }

  /** Solid ink is solid black only below 128 levels: from there on the top threshold is 255. */
  lemma SolidBlack(levels: nat)
    ensures DotCount(255, levels) == levels <==> levels < 128
    ensures levels > 0 ==> (Threshold(levels - 1, levels) == 255 <==> levels >= 128)
  {
    if levels > 0 {
      CutIsExact(255, levels - 1, levels);
      ThresholdFits(levels - 1, levels);
    }
  }

  /** Scales ranks to thresholds in place. */
  method ScaleMatrix(m: array<Byte>, n: nat, levels: nat)
    requires n <= m.Length && levels > 0 && forall i :: 0 <= i < n ==> m[i] < levels
    modifies m
    ensures forall i :: 0 <= i < n ==> m[i] == Threshold(old(m[i]), levels)
    ensures m[n..] == old(m[n..])
  {
    for i := 0 to n
      invariant forall j :: 0 <= j < i ==> m[j] == Threshold(old(m[j]), levels)
      invariant forall j :: i <= j < m.Length ==> m[j] == old(m[j])
    {
      var rank: int := m[i];
      ThresholdFits(rank, levels);
      m[i] := (2 * rank + 1) * 256 / (2 * levels) % 0x100;
    }
  }

  /** `screen` holds the thresholds of a permutation of ranks, in rows of `c`. */
  ghost predicate IsScreen(screen: seq<Byte>, c: nat, ranks: seq<int>) {
    && c > 0 && c * c == |ranks| <= |screen| && IsPermutation(ranks)
    && forall i :: 0 <= i < |ranks| ==> screen[i] == Threshold(ranks[i], |ranks|)
  }

  /** The screen cell under pixel (x, y). */
  function CellUnder(c: nat, x: nat, y: nat): (i: nat)
    requires c > 0
    ensures i < c * c
  {
    AtIsUnique(c, x % c, y % c);
    At(c, x % c, y % c)
  }

  /** The places of the dots that ink `v` prints in the c-by-c window at (x0, y0). */
  ghost function DotsIn(screen: seq<int>, c: nat, v: nat, x0: nat, y0: nat): set<(nat, nat)>
    requires 0 < c && c * c <= |screen|
  {
    set a: nat, b: nat | a < c && b < c && v > screen[CellUnder(c, x0 + a, y0 + b)] :: (a, b)
  }

  lemma ModShift(x: nat, a: nat, c: nat)
    requires a < c
    ensures (x + a) % c == if x % c + a < c then x % c + a else x % c + a - c
  {
    var q, r := x / c, x % c;
    assert x == q * c + r;
    if r + a < c {
      DivModUnique(x + a, c, q, r + a);
    } else {
      DivModUnique(x + a, c, q + 1, r + a - c);
    }
  }

  lemma CellUnderIsUnique(c: nat, x0: nat, y0: nat, a: nat, b: nat, a': nat, b': nat)
    requires a < c && b < c && a' < c && b' < c
    requires CellUnder(c, x0 + a, y0 + b) == CellUnder(c, x0 + a', y0 + b')
    ensures a == a' && b == b'
  {
    AtIsUnique(c, (x0 + a) % c, (y0 + b) % c);
    AtIsUnique(c, (x0 + a') % c, (y0 + b') % c);
    ModShift(x0, a, c);
    ModShift(x0, a', c);
    ModShift(y0, b, c);
    ModShift(y0, b', c);
  }

  lemma ShiftTo(x: nat, p: nat, c: nat) returns (a: nat)
    requires p < c
    ensures a < c && (x + a) % c == p
  {
    a := if p >= x % c then p - x % c else p + c - x % c;
    ModShift(x, a, c);
  }

  lemma CellUnderIsOnto(c: nat, x0: nat, y0: nat, i: nat) returns (a: nat, b: nat)
    requires i < c * c
    ensures a < c && b < c && CellUnder(c, x0 + a, y0 + b) == i
  {
    AtCovers(c, i);
    a := ShiftTo(x0, i % c, c);
    b := ShiftTo(y0, i / c, c);
  }

  /** Ink `v` exceeds the thresholds of the lowest `count` ranks, and no others. */
  ghost predicate Cuts(screen: seq<int>, c: nat, ranks: seq<int>, v: nat, count: nat) {
    && c > 0 && c * c == |ranks| <= |screen| && IsPermutation(ranks) && count <= c * c
    && forall i :: 0 <= i < |ranks| ==> (v > screen[i] <==> ranks[i] < count)
  }

  /** The rank behind each dot of a window. */
  ghost function RanksOfDots(screen: seq<int>, c: nat, ranks: seq<int>, v: nat, x0: nat, y0: nat)
      : (f: map<(nat, nat), nat>)
    requires c > 0 && c * c == |ranks| <= |screen| && IsPermutation(ranks)
    ensures f.Keys == DotsIn(screen, c, v, x0, y0)
  {
    map p | p in DotsIn(screen, c, v, x0, y0) :: ranks[CellUnder(c, x0 + p.0, y0 + p.1)] as nat
  }

  lemma DotsHaveDifferentRanks(screen: seq<int>, c: nat, ranks: seq<int>, v: nat, x0: nat, y0: nat,
                               p: (nat, nat), q: (nat, nat))
    requires c > 0 && c * c == |ranks| <= |screen| && IsPermutation(ranks)
    requires var f := RanksOfDots(screen, c, ranks, v, x0, y0);
             p in f && q in f && f[p] == f[q]
    ensures p == q
  {
    hide CellUnder;
    var i, j := CellUnder(c, x0 + p.0, y0 + p.1), CellUnder(c, x0 + q.0, y0 + q.1);
    assert i == j;
    CellUnderIsUnique(c, x0, y0, p.0, p.1, q.0, q.1);
  }

  lemma RankHasDot(screen: seq<int>, c: nat, ranks: seq<int>, v: nat, count: nat, x0: nat, y0: nat, z: nat)
      returns (p: (nat, nat))
    requires Cuts(screen, c, ranks, v, count) && z < count
    ensures var f := RanksOfDots(screen, c, ranks, v, x0, y0);
            p in f && f[p] == z
  {
    hide CellUnder;
    PermutationIsOnto(ranks, z);
    var i: nat :| i < c * c && ranks[i] == z;
    var a, b := CellUnderIsOnto(c, x0, y0, i);
    p := (a, b);
  }

  lemma DotHasLowRank(screen: seq<int>, c: nat, ranks: seq<int>, v: nat, count: nat, x0: nat, y0: nat, p: (nat, nat))
    requires Cuts(screen, c, ranks, v, count) && p in DotsIn(screen, c, v, x0, y0)
    ensures RanksOfDots(screen, c, ranks, v, x0, y0)[p] < count
  {
    hide CellUnder, IsPermutation;
  }

  /** Ink that exceeds the thresholds of `count` ranks prints `count` dots in every window, wherever it lies. */
  lemma WindowCount(screen: seq<int>, c: nat, ranks: seq<int>, v: nat, count: nat, x0: nat, y0: nat)
    requires Cuts(screen, c, ranks, v, count)
    ensures |DotsIn(screen, c, v, x0, y0)| == count
  {
    var dots := DotsIn(screen, c, v, x0, y0);
    var f := RanksOfDots(screen, c, ranks, v, x0, y0);
    assert f.Keys == dots && c > 0 && c * c == |ranks| <= |screen| && IsPermutation(ranks);
    hide *;
    forall p <- dots
      ensures f[p] in UpTo(count)
    {
      DotHasLowRank(screen, c, ranks, v, count, x0, y0, p);
    }
    forall p, q | p in dots && q in dots && f[p] == f[q]
      ensures p == q
    {
      DotsHaveDifferentRanks(screen, c, ranks, v, x0, y0, p, q);
    }
    forall z <- UpTo(count)
      ensures exists p :: p in dots && f[p] == z
    {
      var p := RankHasDot(screen, c, ranks, v, count, x0, y0, z);
    }
    SameSize(dots, UpTo(count), f);
  }

  /**
   * Every c-by-c window of a constant ink has exactly DotCount(v, c^2) dots, wherever it lies and
   * whatever permutation the screen is made of.
   */
  lemma WindowHasExactCount(screen: seq<Byte>, c: nat, ranks: seq<int>, v: Byte, x0: nat, y0: nat)
    requires IsScreen(screen, c, ranks)
    ensures |DotsIn(screen, c, v, x0, y0)| == DotCount(v, c * c)
  {
    hide IsPermutation, Threshold, DotCount, DotsIn;
    CountIsFair(v, c * c);
    forall i | 0 <= i < |ranks|
      ensures v > screen[i] <==> ranks[i] < DotCount(v, c * c)
    {
      RankIsIndex(ranks, i);
      CountCuts(v, ranks[i], |ranks|);
    }
    WindowCount(screen, c, ranks, v, DotCount(v, c * c), x0, y0);
  }

  lemma RankIsIndex(ranks: seq<int>, i: nat)
    requires IsPermutation(ranks) && i < |ranks|
    ensures 0 <= ranks[i] < |ranks|
  {
  }
}
