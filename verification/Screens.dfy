/** Ordered screens: Bayer matrices by in-place doubling, clustered dots by greedy ranking. */
module Screens {
  import opened Arith
  import opened Bytes
  import opened Bits
  import opened Counting

  const MAX_CELL := 16

  /** The place of column `x` of row `y` in a flat matrix of rows of `n`. */
  function At(n: nat, x: nat, y: nat): nat {
    y * n + x
  }

  lemma AtIsUnique(n: nat, x: nat, y: nat)
    requires x < n
    ensures At(n, x, y) % n == x && At(n, x, y) / n == y
    ensures y < n ==> At(n, x, y) < n * n
  {
    DivModUnique(y * n + x, n, y, x);
    if y < n {
      MulMonotone(y + 1, n, n);
    }
  }

  lemma AtCovers(n: nat, i: nat)
    requires i < n * n
    ensures i % n < n && i / n < n && At(n, i % n, i / n) == i
  {
    if i / n >= n {
      MulMonotone(n, i / n, n);
    }
  }

  // ---- Bayer

  /** The quadrant a doubling puts a copy in: 0 top left, 2 top right, 3 bottom left, 1 bottom right. */
  function Corner(right: bool, bottom: bool): nat {
    if bottom then (if right then 1 else 3) else if right then 2 else 0
  }

  /** The Bayer matrix of size 2^k by recursion on its quadrants. */
  function BayerRank(k: nat, x: nat, y: nat): nat {
    if k == 0 then 0
    else
      var h := Pow2(k - 1);
      4 * BayerRank(k - 1, x % h, y % h) + Corner(x >= h, y >= h)
  }

  lemma {:induction false} BayerRange(k: nat, x: nat, y: nat)
    ensures BayerRank(k, x, y) < Pow2(k) * Pow2(k)
  {
    if k == 0 {
      OneCell(x, y);
    } else {
      hide BayerRank, Pow2;
      var h := Pow2(k - 1);
      DivMod(x, h);
      DivMod(y, h);
      BayerRange(k - 1, x % h, y % h);
      BayerStep(k, x, y);
      Pow2Twice(k - 1);
      SquareOfDouble(h);
    }
  }

  lemma OneCell(x: nat, y: nat)
    ensures BayerRank(0, x, y) == 0 && Pow2(0) == 1
  {
  }

  lemma BayerStep(k: nat, x: nat, y: nat)
    requires k > 0
    ensures 0 <= x % Pow2(k - 1) && 0 <= y % Pow2(k - 1)
    ensures BayerRank(k, x, y) <= 4 * BayerRank(k - 1, x % Pow2(k - 1), y % Pow2(k - 1)) + 3
  {
  }

  lemma SquareOfDouble(h: nat)
    ensures (2 * h) * (2 * h) == 4 * (h * h)
  {
  }

  /** Different places have different ranks. */
  lemma {:induction false} BayerInjective(k: nat, x: nat, y: nat, x': nat, y': nat)
    requires x < Pow2(k) && y < Pow2(k) && x' < Pow2(k) && y' < Pow2(k)
    requires BayerRank(k, x, y) == BayerRank(k, x', y')
    ensures x == x' && y == y'
  {
    if k > 0 {
      var h := Pow2(k - 1);
      assert Corner(x >= h, y >= h) == Corner(x' >= h, y' >= h);
      HalfMod(x, h);
      HalfMod(x', h);
      HalfMod(y, h);
      HalfMod(y', h);
      BayerInjective(k - 1, x % h, y % h, x' % h, y' % h);
    }
  }

  lemma HalfMod(x: nat, h: nat)
    requires x < 2 * h
    ensures x % h == if x >= h then x - h else x
  {
    DivModUnique(x, h, if x >= h then 1 else 0, if x >= h then x - h else x);
  }

  /** The matrix `m` of rows of `n` holds the Bayer matrix of size `s` = 2^k in its top left corner. */
  ghost predicate HoldsBayer(m: seq<Byte>, n: nat, k: nat, s: nat)
    requires Fits(n, s, |m|)
  {
    forall x, y :: 0 <= x < s && 0 <= y < s ==> m[At(n, x, y)] == BayerRank(k, x, y)
  }

  ghost predicate Fits(n: nat, s: nat, length: nat) {
    forall x, y :: 0 <= x < s && 0 <= y < s ==> At(n, x, y) < length
  }

  lemma AtFits(n: nat, length: nat)
    requires n * n <= length
    ensures Fits(n, n, length)
  {
    forall x, y | 0 <= x < n && 0 <= y < n
      ensures At(n, x, y) < length
    {
      AtIsUnique(n, x, y);
    }
  }

  /** The quadrant cells of different places do not meet, nor do those of one place. */
  lemma QuadrantsApart(n: nat, s: nat, a: nat, b: nat, x: nat, y: nat)
    requires 2 * s <= n && a < s && b < s && x < s && y < s
    ensures a != x || b != y ==> Corners(n, s, a, b) !! Corners(n, s, x, y)
    ensures At(n, x, y) != At(n, x + s, y) && At(n, x, y) != At(n, x, y + s) && At(n, x, y) != At(n, x + s, y + s)
    ensures At(n, x + s, y) != At(n, x, y + s) && At(n, x + s, y) != At(n, x + s, y + s)
    ensures At(n, x, y + s) != At(n, x + s, y + s)
  {
    CornersAt(n, s, a, b);
    CornersAt(n, s, x, y);
  }

  lemma CornersAt(n: nat, s: nat, x: nat, y: nat)
    requires 2 * s <= n && x < s && y < s
    ensures At(n, x, y) % n == x && At(n, x, y) / n == y
    ensures At(n, x + s, y) % n == x + s && At(n, x + s, y) / n == y
    ensures At(n, x, y + s) % n == x && At(n, x, y + s) / n == y + s
    ensures At(n, x + s, y + s) % n == x + s && At(n, x + s, y + s) / n == y + s
  {
    AtIsUnique(n, x, y);
    AtIsUnique(n, x + s, y);
    AtIsUnique(n, x, y + s);
    AtIsUnique(n, x + s, y + s);
  }

  function Corners(n: nat, s: nat, x: nat, y: nat): set<nat> {
    {At(n, x, y), At(n, x + s, y), At(n, x, y + s), At(n, x + s, y + s)}
  }

  lemma {:induction false} Pow2Grows(j: nat, k: nat)
    requires Pow2(j) < Pow2(k)
    ensures j < k && 2 * Pow2(j) <= Pow2(k)
    decreases k
  {
    if k > 0 && j > 0 {
      Pow2Grows(j - 1, k - 1);
    }
  }

  /** Bayer matrix of size `n` = 2^k, doubled in place from its top left corner. */
  method Bayer(n: nat, ghost k: nat, m: array<Byte>)
    requires n == Pow2(k) <= MAX_CELL && n * n <= m.Length
    modifies m
    ensures Fits(n, n, m.Length) && HoldsBayer(m[..], n, k, n)
    ensures m[n * n..] == old(m[n * n..])
  {
    AtFits(n, m.Length);
    AtFits(n, n * n);
    MulMonotone(1, n, n);
    m[0] := 0;
    var s: nat := 1;
    ghost var j: nat := 0;
    while s < n
      invariant s == Pow2(j) <= n
      invariant HoldsBayer(m[..], n, j, s)
      invariant m[n * n..] == old(m[n * n..])
      decreases n - s
    {
      Pow2Grows(j, k);
      Double(n, s, j, m);
      s := s * 2;
      j := j + 1;
    }
    Pow2Injective(j, k);
  }

  lemma {:induction false} Pow2Injective(j: nat, k: nat)
    requires Pow2(j) == Pow2(k)
    ensures j == k
  {
    if j > 0 && k > 0 {
      Pow2Injective(j - 1, k - 1);
    }
  }

  predicate Before(x: nat, y: nat, x': nat, y': nat) {
    y < y' || (y == y' && x < x')
  }

  /** The four cells that hold copies of the rank `v` at (x, y). */
  ghost predicate Quadrants(m: seq<Byte>, n: nat, s: nat, x: nat, y: nat, v: nat)
    requires Fits(n, 2 * s, |m|) && x < s && y < s
  {
    && m[At(n, x, y)] == 4 * v + Corner(false, false) && m[At(n, x + s, y)] == 4 * v + Corner(true, false)
    && m[At(n, x, y + s)] == 4 * v + Corner(false, true) && m[At(n, x + s, y + s)] == 4 * v + Corner(true, true)
  }

  /** The cells before (x, y) in reading order have been copied to the quadrants; the others wait. */
  ghost predicate Doubled(m: seq<Byte>, n: nat, s: nat, k: nat, x: nat, y: nat)
    requires Fits(n, 2 * s, |m|)
  {
    forall a, b :: 0 <= a < s && 0 <= b < s ==>
      if Before(a, b, x, y) then Quadrants(m, n, s, a, b, BayerRank(k, a, b)) else m[At(n, a, b)] == BayerRank(k, a, b)
  }

  /** One doubling: (4M, 4M + 2; 4M + 3, 4M + 1). No 8-bit store loses a value. */
  method Double(n: nat, s: nat, ghost k: nat, m: array<Byte>)
    requires s == Pow2(k) && 2 * s <= n <= MAX_CELL && n * n <= m.Length && Fits(n, n, n * n)
    requires HoldsBayer(m[..], n, k, s)
    modifies m
    ensures HoldsBayer(m[..], n, k + 1, 2 * s)
    ensures m[n * n..] == old(m[n * n..])
  {
    hide At, Quadrants, BayerRank, Pow2;
    for y := 0 to s
      invariant Doubled(m[..], n, s, k, 0, y)
      invariant m[n * n..] == old(m[n * n..])
    {
      for x := 0 to s
        invariant Doubled(m[..], n, s, k, x, y)
        invariant m[n * n..] == old(m[n * n..])
      {
        DoubleOne(n, s, k, x, y, m);
      }
      assert Doubled(m[..], n, s, k, 0, y + 1);
    }
    DoubledIsBayer(m[..], n, s, k);
  }

  /** The body of the loops: one value becomes four. */
  method DoubleOne(n: nat, s: nat, ghost k: nat, x: nat, y: nat, m: array<Byte>)
    requires s == Pow2(k) && 2 * s <= n <= MAX_CELL && n * n <= m.Length && Fits(n, n, n * n) && x < s && y < s
    requires Doubled(m[..], n, s, k, x, y)
    modifies m
    ensures Doubled(m[..], n, s, k, x + 1, y)
    ensures m[n * n..] == old(m[n * n..])
  {
    CornersFit(n, s, x, y, m.Length);
    hide At, Fits, Quadrants, BayerRank, Pow2, Doubled;
    ghost var before := m[..];
    var a, b, c, d := At(n, x, y), At(n, x + s, y), At(n, x, y + s), At(n, x + s, y + s);
    var v: int := m[a];
    CellValueFits(before, n, s, k, x, y);
    StoreFour(m, a, b, c, d, v);
    DoubleCell(before, m[..], n, s, k, x, y, v);
    TailIsKept(before, n * n, a, b, c, d, v);
  }

  method StoreFour(m: array<Byte>, a: nat, b: nat, c: nat, d: nat, v: nat)
    requires a < m.Length && b < m.Length && c < m.Length && d < m.Length && 4 * v + 3 < 0x100
    modifies m
    ensures m[..] == old(m[..])[a := 4 * v][b := 4 * v + 2][c := 4 * v + 3][d := 4 * v + 1]
  {
    m[a] := 4 * v % 0x100;
    m[b] := (4 * v + 2) % 0x100;
    m[c] := (4 * v + 3) % 0x100;
    m[d] := (4 * v + 1) % 0x100;
  }

  lemma TailIsKept(m: seq<Byte>, n: nat, a: nat, b: nat, c: nat, d: nat, v: nat)
    requires a < n && b < n && c < n && d < n && n <= |m| && 4 * v + 3 < 0x100
    ensures m[a := 4 * v][b := 4 * v + 2][c := 4 * v + 3][d := 4 * v + 1][n..] == m[n..]
  {
  }

  lemma CornersFit(n: nat, s: nat, x: nat, y: nat, length: nat)
    requires 2 * s <= n && x < s && y < s && n * n <= length
    ensures At(n, x, y) < n * n && At(n, x + s, y) < n * n
    ensures At(n, x, y + s) < n * n && At(n, x + s, y + s) < n * n
    ensures Fits(n, 2 * s, length)
  {
    AtIsUnique(n, x, y);
    AtIsUnique(n, x + s, y);
    AtIsUnique(n, x, y + s);
    AtIsUnique(n, x + s, y + s);
    AtFits(n, length);
  }

  lemma CellValueFits(m: seq<Byte>, n: nat, s: nat, k: nat, x: nat, y: nat)
    requires s == Pow2(k) && 2 * s <= n <= MAX_CELL && Fits(n, 2 * s, |m|) && x < s && y < s
    requires Doubled(m, n, s, k, x, y)
    ensures m[At(n, x, y)] == BayerRank(k, x, y) && 4 * m[At(n, x, y)] as int + 3 < 0x100
  {
    assert !Before(x, y, x, y);
    BayerRange(k, x, y);
    MulMonotone(s, 8, s);
    MulMonotone(s, 8, 8);
  }

  lemma DoubleCell(before: seq<Byte>, after: seq<Byte>, n: nat, s: nat, k: nat, x: nat, y: nat, v: nat)
    requires 2 * s <= n && |after| == |before| && Fits(n, 2 * s, |before|) && x < s && y < s
    requires Doubled(before, n, s, k, x, y) && v == before[At(n, x, y)] && 4 * v + 3 < 0x100
    requires after == before[At(n, x, y) := 4 * v][At(n, x + s, y) := 4 * v + 2]
                            [At(n, x, y + s) := 4 * v + 3][At(n, x + s, y + s) := 4 * v + 1]
    ensures Doubled(after, n, s, k, x + 1, y)
  {
    QuadrantsApart(n, s, x, y, x, y);
    assert before[At(n, x, y)] == BayerRank(k, x, y);
    hide At, BayerRank;
    assert Quadrants(after, n, s, x, y, v);
    hide Quadrants;
    forall a, b | 0 <= a < s && 0 <= b < s
      ensures if Before(a, b, x + 1, y) then Quadrants(after, n, s, a, b, BayerRank(k, a, b))
              else after[At(n, a, b)] == BayerRank(k, a, b)
    {
      if a != x || b != y {
        OtherCell(before, after, n, s, x, y, a, b, BayerRank(k, a, b));
      }
    }
  }

  /** Writing the quadrant cells of one place leaves those of another as they are. */
  lemma OtherCell(before: seq<Byte>, after: seq<Byte>, n: nat, s: nat, x: nat, y: nat, a: nat, b: nat, v: nat)
    requires 2 * s <= n && |after| == |before| && Fits(n, 2 * s, |before|) && x < s && y < s && a < s && b < s
    requires (a != x || b != y) && forall i :: 0 <= i < |before| && i !in Corners(n, s, x, y) ==> after[i] == before[i]
    ensures after[At(n, a, b)] == before[At(n, a, b)]
    ensures Quadrants(before, n, s, a, b, v) ==> Quadrants(after, n, s, a, b, v)
  {
    hide At;
    QuadrantsApart(n, s, a, b, x, y);
    assert forall i <- Corners(n, s, a, b) :: i !in Corners(n, s, x, y);
  }

  lemma DoubledIsBayer(m: seq<Byte>, n: nat, s: nat, k: nat)
    requires s == Pow2(k) && 2 * s <= n && Fits(n, 2 * s, |m|) && Doubled(m, n, s, k, 0, s)
    ensures HoldsBayer(m, n, k + 1, 2 * s)
  {
    hide At, BayerRank;
    forall x, y | 0 <= x < 2 * s && 0 <= y < 2 * s
      ensures m[At(n, x, y)] == BayerRank(k + 1, x, y)
    {
      BayerDouble(k, s, x, y);
      var a, b := if x >= s then x - s else x, if y >= s then y - s else y;
      assert Before(a, b, 0, s) && Quadrants(m, n, s, a, b, BayerRank(k, a, b));
    }
  }

  lemma BayerDouble(k: nat, s: nat, x: nat, y: nat)
    requires s == Pow2(k) && x < 2 * s && y < 2 * s
    ensures BayerRank(k + 1, x, y)
            == 4 * BayerRank(k, if x >= s then x - s else x, if y >= s then y - s else y) + Corner(x >= s, y >= s)
  {
    HalfMod(x, s);
    HalfMod(y, s);
  }

  /** The first n * n cells, as numbers. */
  function Ranks(m: seq<Byte>, n: nat): (r: seq<int>)
    requires n * n <= |m|
    ensures |r| == n * n && forall i :: 0 <= i < n * n ==> r[i] == m[i]
  {
    m[..n * n]
  }

  /** The column and the line of cell `i`. */
  function ColumnOf(n: nat, i: nat): (x: nat)
    requires i < n * n
    ensures x < n
  {
    AtCovers(n, i);
    i % n
  }

  function LineOf(n: nat, i: nat): (y: nat)
    requires i < n * n
    ensures y < n
  {
    AtCovers(n, i);
    i / n
  }

  /** The recursively defined rank of cell `i`. */
  function RankOfCell(n: nat, k: nat, i: nat): nat
    requires i < n * n
  {
    BayerRank(k, ColumnOf(n, i), LineOf(n, i))
  }

  /** The Bayer ranks of size n = 2^k hold each of 0 .. n^2 - 1 once, for every k. */
  lemma BayerIsPermutation(s: seq<int>, n: nat, k: nat)
    requires n == Pow2(k) && |s| == n * n && forall i: nat :: i < |s| ==> s[i] == RankOfCell(n, k, i)
    ensures IsPermutation(s)
  {
    hide RankOfCell, Pow2;
    forall i: nat | i < |s|
      ensures 0 <= s[i] < |s|
    {
      RankInRange(n, k, i);
    }
    forall i: nat, j: nat | i < j < |s|
      ensures s[i] != s[j]
    {
      RanksDiffer(n, k, i, j);
    }
  }

  lemma RankInRange(n: nat, k: nat, i: nat)
    requires n == Pow2(k) && i < n * n
    ensures RankOfCell(n, k, i) < n * n
  {
    hide BayerRank, Pow2, ColumnOf, LineOf;
    BayerRange(k, ColumnOf(n, i), LineOf(n, i));
  }

  lemma RanksDiffer(n: nat, k: nat, i: nat, j: nat)
    requires n == Pow2(k) && i < j < n * n
    ensures RankOfCell(n, k, i) != RankOfCell(n, k, j)
  {
    hide BayerRank, Pow2, ColumnOf, LineOf, At;
    CellIsAt(n, i);
    CellIsAt(n, j);
    if RankOfCell(n, k, i) == RankOfCell(n, k, j) {
      BayerInjective(k, ColumnOf(n, i), LineOf(n, i), ColumnOf(n, j), LineOf(n, j));
    }
  }

  lemma CellIsAt(n: nat, i: nat)
    requires i < n * n
    ensures At(n, ColumnOf(n, i), LineOf(n, i)) == i
  {
    AtCovers(n, i);
  }

  /** The matrix in memory is the case that fits bytes. */
  lemma BayerMatrixIsPermutation(m: seq<Byte>, n: nat, k: nat)
    requires n == Pow2(k) && n * n <= |m| && Fits(n, n, |m|) && HoldsBayer(m, n, k, n)
    ensures IsPermutation(Ranks(m, n))
  {
    hide BayerRank, Pow2, HoldsBayer, Fits, RankOfCell;
    var ranks := Ranks(m, n);
    forall i: nat | i < |ranks|
      ensures ranks[i] == RankOfCell(n, k, i)
    {
      BayerCell(m, n, k, i);
    }
    BayerIsPermutation(ranks, n, k);
  }

  lemma BayerCell(m: seq<Byte>, n: nat, k: nat, i: nat)
    requires n == Pow2(k) && n * n <= |m| && Fits(n, n, |m|) && HoldsBayer(m, n, k, n) && i < n * n
    ensures m[i] == RankOfCell(n, k, i)
  {
    hide BayerRank, Pow2, At, Fits, ColumnOf, LineOf;
    CellIsAt(n, i);
    assert m[At(n, ColumnOf(n, i), LineOf(n, i))] == BayerRank(k, ColumnOf(n, i), LineOf(n, i));
  }

  /** The top rank must fit a byte: that is what keeps the matrix to 16 by 16. */
  lemma BytesHoldBayerUpTo16(m: seq<Byte>, n: nat, k: nat)
    requires n == Pow2(k) && n * n <= |m| && Fits(n, n, |m|) && HoldsBayer(m, n, k, n)
    ensures n <= MAX_CELL
  {
    hide At, BayerRank, Pow2, HoldsBayer, Fits, IsPermutation;
    BayerMatrixIsPermutation(m, n, k);
    if n > MAX_CELL {
      MulMonotone(MAX_CELL + 1, n, MAX_CELL + 1);
      MulMonotone(MAX_CELL + 1, n, n);
      PermutationIsOnto(Ranks(m, n), 0x100);
    }
  }

  // ---- clustered dots

  /** The coordinate of the centre of a dot: a quarter of the cell for the even dot, three for the odd. */
  function Centre(c: nat, dot: nat): real {
    if dot == 0 then c as real / 4.0 else 3.0 * c as real / 4.0
  }

  /** A coordinate difference on the torus. */
  function Wrapped(c: nat, d: real): real {
    var e := if d > c as real / 2.0 then d - c as real else d;
    if e < -(c as real) / 2.0 then e + c as real else e
  }

  /** What cells are ranked by: squared distance to the centre, ties broken by direction. */
  function Key(c: nat, dot: nat, i: nat): real
    requires c > 0
  {
    var dx := Wrapped(c, (i % c) as real + 0.5 - Centre(c, dot));
    var dy := Wrapped(c, (i / c) as real + 0.5 - Centre(c, dot));
    (dx * dx + dy * dy) * 1000.0 + (dx * 0.37 + dy * 0.11)
  }

  lemma WrappedIsSmall(c: nat, d: real)
    requires 0 < c <= MAX_CELL && -16.5 <= d <= 16.5
    ensures -17.0 <= Wrapped(c, d) <= 17.0
  {
  }

  lemma ProductIsPositive(a: real, b: real)
    requires a >= 0.0 && b >= 0.0
    ensures a * b >= 0.0
  {
  }

  lemma SquareIsSmall(a: real)
    requires -17.0 <= a <= 17.0
    ensures a * a <= 289.0
  {
    ProductIsPositive(17.0 - a, 17.0 + a);
    assert (17.0 - a) * (17.0 + a) == 289.0 - a * a;
  }

  lemma OffsetIsSmall(c: nat, dot: nat, p: nat)
    requires p < c <= MAX_CELL
    ensures -17.0 <= Wrapped(c, p as real + 0.5 - Centre(c, dot)) <= 17.0
  {
    WrappedIsSmall(c, p as real + 0.5 - Centre(c, dot));
  }

  lemma KeyIsSmall(c: nat, dot: nat, i: nat)
    requires 0 < c <= MAX_CELL && i < c * c
    ensures Key(c, dot, i) < 1_000_000.0
  {
    hide Wrapped, Centre;
    AtCovers(c, i);
    OffsetIsSmall(c, dot, i % c);
    OffsetIsSmall(c, dot, i / c);
    SquareIsSmall(Wrapped(c, (i % c) as real + 0.5 - Centre(c, dot)));
    SquareIsSmall(Wrapped(c, (i / c) as real + 0.5 - Centre(c, dot)));
  }

  /** Cell `i` goes before cell `j` when a cell is picked for this dot. */
  ghost predicate Precedes(c: nat, dot: nat, i: nat, j: nat)
    requires c > 0
  {
    Key(c, dot, i) < Key(c, dot, j) || (Key(c, dot, i) == Key(c, dot, j) && i <= j)
  }

  /** The cells of ranks 0, 1, ... are `order`: each is the first of those not yet ranked. */
  ghost predicate IsGreedyOrder(c: nat, order: seq<nat>)
    requires c > 0
  {
    && Distinct(order) && (forall i <- order :: i < c * c)
    && forall r, j: nat :: 0 <= r < |order| && j < c * c && j !in order[..r] ==> Precedes(c, r % 2, order[r], j)
  }

  ghost predicate IsRankedBy(m: seq<Byte>, order: seq<nat>) {
    forall r :: 0 <= r < |order| ==> order[r] < |m| && m[order[r]] == r
  }

  /**
   * The clustered-dot screen: ranks alternate between the two dots, each given to the nearest cell
   * that is still free. A free cell always remains, so the ranks are a permutation.
   */
  method Clustered(c: nat, m: array<Byte>) returns (ghost order: seq<nat>)
    requires 0 < c <= MAX_CELL && c * c <= m.Length
    modifies m
    ensures |order| == c * c && IsGreedyOrder(c, order)
    ensures IsRankedBy(m[..], order)
    ensures m[c * c..] == old(m[c * c..])
  {
    hide Key, Precedes;
    MulMonotone(c, MAX_CELL, c);
    MulMonotone(c, MAX_CELL, MAX_CELL);
    var n := c * c;
    var taken := new bool[n](i => false);
    order := [];
    for rank := 0 to n
      invariant |order| == rank && IsGreedyOrder(c, order)
      invariant forall i :: 0 <= i < n ==> (taken[i] <==> i in order)
      invariant IsRankedBy(m[..], order)
      invariant m[n..] == old(m[n..])
    {
      order := TakeCell(c, n, rank, taken, m, order);
    }
  }

  /** The body of the loop: the next rank goes to the free cell with the least key. */
  method TakeCell(c: nat, n: nat, rank: nat, taken: array<bool>, m: array<Byte>, ghost order: seq<nat>)
      returns (ghost next: seq<nat>)
    requires 0 < c <= MAX_CELL && n == c * c && rank < n <= m.Length && n <= 0x100 && taken.Length == n
    requires |order| == rank && IsGreedyOrder(c, order) && IsRankedBy(m[..], order)
    requires forall i :: 0 <= i < n ==> (taken[i] <==> i in order)
    modifies taken, m
    ensures |next| == rank + 1 && IsGreedyOrder(c, next) && IsRankedBy(m[..], next)
    ensures forall i :: 0 <= i < n ==> (taken[i] <==> i in next)
    ensures m[n..] == old(m[n..])
  {
    hide Key, Precedes, IsGreedyOrder;
    var bi := FirstFree(c, rank % 2, taken, order);
    taken[bi] := true;
    m[bi] := rank % 0x100;
    ExtendOrder(c, order, bi);
    next := order + [bi];
  }

  /** The free cell with the least key, the first one on ties. */
  method FirstFree(c: nat, dot: nat, taken: array<bool>, ghost order: seq<nat>) returns (bi: nat)
    requires 0 < c <= MAX_CELL && taken.Length == c * c && |order| < c * c
    requires forall i :: 0 <= i < c * c ==> (taken[i] <==> i in order)
    ensures bi < c * c && bi !in order && forall j: nat :: j < c * c && j !in order ==> Precedes(c, dot, bi, j)
  {
    hide Key;
    var best: real := 1000000000000000000000000000000.0;
    bi := 0;
    for i := 0 to c * c
      invariant (forall j: nat :: j < i ==> j in order) ==> best == 1000000000000000000000000000000.0
      invariant (exists j: nat :: j < i && j !in order)
                ==> bi < i && bi !in order && best == Key(c, dot, bi)
                    && forall j: nat :: j < i && j !in order ==> Precedes(c, dot, bi, j)
    {
      if taken[i] {
        continue;
      }
      KeyIsSmall(c, dot, i);
      var key := Key(c, dot, i);
      if key < best {
        best := key;
        bi := i;
      }
    }
    ghost var free := SomeIndexIsMissing(order, c * c);
  }

  lemma ExtendOrder(c: nat, order: seq<nat>, bi: nat)
    requires c > 0 && IsGreedyOrder(c, order) && bi < c * c && bi !in order
    requires forall j: nat :: j < c * c && j !in order ==> Precedes(c, |order| % 2, bi, j)
    ensures IsGreedyOrder(c, order + [bi])
  {
    hide Precedes;
    var next := order + [bi];
    forall r, j: nat | 0 <= r < |next| && j < c * c && j !in next[..r]
      ensures Precedes(c, r % 2, next[r], j)
    {
      assert next[..r] == order[..r];
      if r == |order| {
        assert order[..r] == order;
      }
    }
  }

  /** There is only one greedy order. */
  lemma {:induction false} GreedyOrderIsUnique(c: nat, a: seq<nat>, b: seq<nat>, k: nat)
    requires c > 0 && IsGreedyOrder(c, a) && IsGreedyOrder(c, b) && k <= |a| && k <= |b|
    ensures a[..k] == b[..k]
  {
    hide Key;
    if k > 0 {
      var r := k - 1;
      GreedyOrderIsUnique(c, a, b, r);
      NotYetOrdered(c, a, r);
      NotYetOrdered(c, b, r);
      assert Precedes(c, r % 2, a[r], b[r]) && Precedes(c, r % 2, b[r], a[r]);
      assert a[..k] == a[..r] + [a[r]] && b[..k] == b[..r] + [b[r]];
    }
  }

  lemma NotYetOrdered(c: nat, order: seq<nat>, r: nat)
    requires c > 0 && IsGreedyOrder(c, order) && r < |order|
    ensures order[r] < c * c && order[r] !in order[..r]
  {
    assert order[r] in order;
  }

  /** The ranks that an order of all the cells gives are a permutation. */
  lemma OrderedRanksArePermutation(m: seq<Byte>, c: nat, order: seq<nat>)
    requires c > 0 && c * c <= |m| && |order| == c * c && IsGreedyOrder(c, order)
    requires IsRankedBy(m, order)
    ensures IsPermutation(Ranks(m, c))
  {
    hide Precedes;
    assert forall r :: 0 <= r < |order| ==> order[r] in order;
    forall i | 0 <= i < c * c
      ensures Ranks(m, c)[i] < c * c && order[Ranks(m, c)[i]] == i
    {
      PermutationIsOnto(order, i);
      var r :| 0 <= r < |order| && order[r] == i;
    }
  }
}
