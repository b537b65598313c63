/**
 * The energy of a pattern on the torus: Gaussian-weighted neighbours, as exact reals. Any symmetric
 * kernel with weights in (0, 1] will do.
 */
module BlueNoiseEnergy {
  import opened Arith
  import opened Counting

  const N := 64
  const CELLS := 4096
  const R := 6
  const SIDE := 13   // 2 R + 1
  const TAPS := 169  // SIDE * SIDE

  type Kernel = (int, int) -> real

  ghost predicate IsKernel(w: Kernel) {
    forall dy: int, dx: int :: IsSymmetricWeight(w, dy, dx)
  }

  predicate IsSymmetricWeight(w: Kernel, dy: int, dx: int) {
    0.0 < w(dy, dx) <= 1.0 && w(dy, dx) == w(-dy, -dx)
  }

  /** The offset of tap `k`, row by row. */
  function OffsetY(k: nat): int { k / SIDE - R }
  function OffsetX(k: nat): int { k % SIDE - R }

  function Weight(w: Kernel, k: nat): real {
    w(OffsetY(k), OffsetX(k))
  }

  /** The cell that tap `k` of a bump at `i` falls on. */
  function Target(i: nat, k: nat): (j: nat)
    ensures j < CELLS
  {
    (i / N + OffsetY(k)) % N * N + (i % N + OffsetX(k)) % N
  }

  /** What the first `k` taps of a bump at `i` add to cell `j`. */
  function BumpTo(w: Kernel, i: nat, j: nat, k: nat): real {
    if k == 0 then 0.0 else BumpTo(w, i, j, k - 1) + if Target(i, k - 1) == j then Weight(w, k - 1) else 0.0
  }

  function Bumped(w: Kernel, i: nat, j: nat): real {
    BumpTo(w, i, j, TAPS)
  }

  // ---- the kernel on the torus

  /** The shortest way around the torus, in -32 .. 31. */
  function Wrap(d: int): int {
    (d + N / 2) % N - N / 2
  }

  function GapY(i: nat, j: nat): int { Wrap(j / N - i / N) }
  function GapX(i: nat, j: nat): int { Wrap(j % N - i % N) }

  predicate Near(i: nat, j: nat) {
    -R <= GapY(i, j) <= R && -R <= GapX(i, j) <= R
  }

  lemma TargetHits(i: nat, j: nat, k: nat)
    requires i < CELLS && j < CELLS && k < TAPS
    ensures Target(i, k) == j <==> OffsetY(k) == GapY(i, j) && OffsetX(k) == GapX(i, j)
  {
    WrapHits(i / N, j / N, OffsetY(k));
    WrapHits(i % N, j % N, OffsetX(k));
    var y, x := (i / N + OffsetY(k)) % N, (i % N + OffsetX(k)) % N;
    hide Wrap, OffsetX, OffsetY;
    assert Target(i, k) == j <==> y == j / N && x == j % N;
  }

  lemma WrapHits(a: nat, b: nat, d: int)
    requires a < N && b < N && -R <= d <= R
    ensures (a + d) % N == b <==> d == Wrap(b - a)
  {
    var s := if a + d < 0 then a + d + N else if a + d < N then a + d else a + d - N;
    assert (a + d) % N == s;
    var e := b - a;
    assert Wrap(e) == if e < -N / 2 then e + N else if e < N / 2 then e else e - N;
  }

  lemma NearIsSymmetric(i: nat, j: nat)
    requires i < CELLS && j < CELLS
    ensures Near(i, j) <==> Near(j, i)
    ensures Near(i, j) ==> GapY(j, i) == -GapY(i, j) && GapX(j, i) == -GapX(i, j)
    ensures Near(i, i) && GapY(i, i) == 0 && GapX(i, i) == 0
  {
    WrapIsOdd(j / N - i / N);
    WrapIsOdd(j % N - i % N);
    hide Wrap;
  }

  lemma WrapIsOdd(d: int)
    requires -N < d < N
    ensures -R <= Wrap(d) <= R <==> -R <= Wrap(-d) <= R
    ensures -R <= Wrap(d) <= R ==> Wrap(-d) == -Wrap(d)
    ensures Wrap(0) == 0
  {
  }

  lemma {:induction false} BumpToClosed(w: Kernel, i: nat, j: nat, k: nat)
    requires i < CELLS && j < CELLS && k <= TAPS
    ensures BumpTo(w, i, j, k)
            == if Near(i, j) && (GapY(i, j) + R) * SIDE + GapX(i, j) + R < k then w(GapY(i, j), GapX(i, j)) else 0.0
  {
    hide Target, GapX, GapY;
    if k > 0 {
      BumpToClosed(w, i, j, k - 1);
      TargetHits(i, j, k - 1);
    }
  }

  /** A bump adds to each cell the kernel at its distance around the torus; taps never pile up. */
  lemma BumpIsKernel(w: Kernel, i: nat, j: nat)
    requires i < CELLS && j < CELLS
    ensures Bumped(w, i, j) == if Near(i, j) then w(GapY(i, j), GapX(i, j)) else 0.0
  {
    hide GapX, GapY;
    BumpToClosed(w, i, j, TAPS);
  }

  lemma BumpIsSymmetric(w: Kernel, i: nat, j: nat)
    requires IsKernel(w) && i < CELLS && j < CELLS
    ensures Bumped(w, i, j) == Bumped(w, j, i)
    ensures 0.0 <= Bumped(w, i, j) <= 1.0
    ensures Bumped(w, i, i) == w(0, 0)
  {
    hide Bumped, GapY, GapX, Near;
    BumpIsKernel(w, i, j);
    BumpIsKernel(w, j, i);
    BumpIsKernel(w, i, i);
    NearIsSymmetric(i, j);
    NearIsSymmetric(i, i);
    assert IsSymmetricWeight(w, GapY(i, j), GapX(i, j));
  }

  // ---- sums over the set cells of a pattern

  function SumOver(p: seq<bool>, f: nat -> real, n: nat): real
    requires n <= |p|
  {
    if n == 0 then 0.0 else SumOver(p, f, n - 1) + if p[n - 1] then f(n - 1) else 0.0
  }

  lemma {:induction false} SumSame(p: seq<bool>, f: nat -> real, g: nat -> real, n: nat)
    requires n <= |p| && forall i: nat :: i < n && p[i] ==> f(i) == g(i)
    ensures SumOver(p, f, n) == SumOver(p, g, n)
  {
    if n > 0 {
      SumSame(p, f, g, n - 1);
    }
  }

  lemma {:induction false} SumPlus(p: seq<bool>, f: nat -> real, g: nat -> real, n: nat)
    requires n <= |p|
    ensures SumOver(p, (i: nat) => f(i) + g(i), n) == SumOver(p, f, n) + SumOver(p, g, n)
  {
    if n > 0 {
      SumPlus(p, f, g, n - 1);
    }
  }

  lemma {:induction false} SumFlip(p: seq<bool>, c: nat, f: nat -> real, n: nat)
    requires n <= |p| && c < |p| && !p[c]
    ensures SumOver(p[c := true], f, n) == SumOver(p, f, n) + if c < n then f(c) else 0.0
  {
    if n > 0 {
      SumFlip(p, c, f, n - 1);
    }
  }

  lemma {:induction false} SumBounds(p: seq<bool>, f: nat -> real, n: nat)
    requires n <= |p| && forall i: nat :: i < n ==> 0.0 <= f(i) <= 1.0
    ensures 0.0 <= SumOver(p, f, n) <= n as real
  {
    if n > 0 {
      SumBounds(p, f, n - 1);
    }
  }

  // ---- energy

  type Pattern = p: seq<bool> | |p| == CELLS witness AllClear()

  function AllClear(): seq<bool> {
    seq(CELLS, i => false)
  }

  /** The energy of cell `j`: the kernel summed over the set cells. */
  function Energy(w: Kernel, p: Pattern, j: nat): real {
    SumOver(p, (i: nat) => Bumped(w, i, j), CELLS)
  }

  lemma EnergyIsBounded(w: Kernel, p: Pattern, j: nat)
    requires IsKernel(w) && j < CELLS
    ensures 0.0 <= Energy(w, p, j) <= 4096.0
  {
    hide Bumped;
    forall i: nat | i < CELLS
      ensures 0.0 <= Bumped(w, i, j) <= 1.0
    {
      BumpIsSymmetric(w, i, j);
    }
    SumBounds(p, (i: nat) => Bumped(w, i, j), CELLS);
  }

  /** Setting a cell adds its bump to every energy. */
  lemma EnergyFlip(w: Kernel, p: Pattern, c: nat, j: nat)
    requires c < CELLS && !p[c]
    ensures Energy(w, p[c := true], j) == Energy(w, p, j) + Bumped(w, c, j)
  {
    hide Bumped;
    SumFlip(p, c, (i: nat) => Bumped(w, i, j), CELLS);
  }

  function OnesOf(p: Pattern): set<nat> {
    set i: nat | i < CELLS && p[i]
  }

  /** The energy map `e` is what recomputing it from the pattern would give. */
  ghost predicate Agrees(w: Kernel, p: Pattern, e: seq<real>) {
    |e| == CELLS && forall j: nat :: j < CELLS ==> e[j] == Energy(w, p, j)
  }

  /** The set cell with the most energy, the first one on ties. */
  ghost predicate IsTightest(w: Kernel, p: Pattern, c: nat) {
    && c < CELLS && p[c]
    && forall i: nat :: i < CELLS && p[i] ==>
         Energy(w, p, i) < Energy(w, p, c) || (Energy(w, p, i) == Energy(w, p, c) && c <= i)
  }

  /** The clear cell with the least energy, the first one on ties. */
  ghost predicate IsLargestVoid(w: Kernel, p: Pattern, v: nat) {
    && v < CELLS && !p[v]
    && forall i: nat :: i < CELLS && !p[i] ==>
         Energy(w, p, v) < Energy(w, p, i) || (Energy(w, p, v) == Energy(w, p, i) && v <= i)
  }

  // ---- the potential that relaxing lowers

  function TotalEnergy(w: Kernel, p: Pattern): real {
    SumOver(p, (j: nat) => Energy(w, p, j), CELLS)
  }

  function IndexSum(p: Pattern): real {
    SumOver(p, (i: nat) => i as real, CELLS)
  }

  /** One more cell raises the total by twice its energy and its own bump. */
  lemma TotalFlip(w: Kernel, p: Pattern, c: nat)
    requires IsKernel(w) && c < CELLS && !p[c]
    ensures TotalEnergy(w, p[c := true]) == TotalEnergy(w, p) + 2.0 * Energy(w, p, c) + w(0, 0)
  {
    hide Bumped, Energy;
    var q: Pattern := p[c := true];
    var eq, ep, b := (j: nat) => Energy(w, q, j), (j: nat) => Energy(w, p, j), (j: nat) => Bumped(w, c, j);
    forall j: nat | j < CELLS
      ensures Energy(w, q, j) == Energy(w, p, j) + Bumped(w, c, j)
    {
      EnergyFlip(w, p, c, j);
    }
    SumFlip(p, c, eq, CELLS);
    SumSame(p, eq, (j: nat) => ep(j) + b(j), CELLS);
    SumPlus(p, ep, b, CELLS);
    SumOfBumps(w, p, c);
    BumpIsSymmetric(w, c, c);
  }

  lemma SumOfBumps(w: Kernel, p: Pattern, c: nat)
    requires IsKernel(w) && c < CELLS
    ensures SumOver(p, (j: nat) => Bumped(w, c, j), CELLS) == Energy(w, p, c)
  {
    hide Bumped;
    forall j: nat | j < CELLS
      ensures Bumped(w, c, j) == Bumped(w, j, c)
    {
      BumpIsSymmetric(w, c, j);
    }
    SumSame(p, (j: nat) => Bumped(w, c, j), (j: nat) => Bumped(w, j, c), CELLS);
  }

  ghost predicate Lower(w: Kernel, q: Pattern, p: Pattern) {
    TotalEnergy(w, q) < TotalEnergy(w, p) || (TotalEnergy(w, q) == TotalEnergy(w, p) && IndexSum(q) < IndexSum(p))
  }

  /** Moving a cell to the largest void lowers the potential, or the cell was the void. */
  lemma RelaxingLowers(w: Kernel, p: Pattern, c: nat, v: nat)
    requires IsKernel(w) && c < CELLS && p[c] && IsLargestVoid(w, p[c := false], v) && v != c
    ensures Lower(w, p[c := false][v := true], p)
  {
    hide Energy, TotalEnergy, SumOver;
    var q: Pattern := p[c := false];
    assert p == q[c := true];
    TotalFlip(w, q, c);
    TotalFlip(w, q, v);
    IndexFlip(q, c);
    IndexFlip(q, v);
  }

  lemma IndexFlip(p: Pattern, c: nat)
    requires c < CELLS && !p[c]
    ensures IndexSum(p[c := true]) == IndexSum(p) + c as real
  {
    SumFlip(p, c, (i: nat) => i as real, CELLS);
  }

  ghost function AllPatterns(n: nat): set<seq<bool>> {
    if n == 0 then {[]}
    else (set q | q in AllPatterns(n - 1) :: q + [true]) + (set q | q in AllPatterns(n - 1) :: q + [false])
  }

  lemma {:induction false} EveryPattern(n: nat, p: seq<bool>)
    requires |p| == n
    ensures p in AllPatterns(n)
  {
    if n > 0 {
      EveryPattern(n - 1, p[..n - 1]);
      assert p == p[..n - 1] + [p[n - 1]];
      if p[n - 1] {
        assert p in set q | q in AllPatterns(n - 1) :: q + [true];
      } else {
        assert p in set q | q in AllPatterns(n - 1) :: q + [false];
      }
    }
  }

  /** The patterns of lower potential: finitely many, and fewer with every relaxing step. */
  ghost function LowerPatterns(w: Kernel, p: Pattern): set<seq<bool>> {
    set q | q in AllPatterns(CELLS) && |q| == CELLS && Lower(w, q, p)
  }

  lemma LowerPatternsShrink(w: Kernel, q: Pattern, p: Pattern)
    requires Lower(w, q, p)
    ensures LowerPatterns(w, q) < LowerPatterns(w, p)
  {
    hide TotalEnergy, IndexSum, AllPatterns;
    EveryPattern(CELLS, q);
    assert q in LowerPatterns(w, p) && q !in LowerPatterns(w, q);
  }
}
