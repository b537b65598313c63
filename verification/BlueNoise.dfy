/**
 * The void-and-cluster generator: an energy map that is updated with every flip instead of being
 * recomputed, the relaxing of the initial pattern, and the ranking of all cells.
 */
module BlueNoise {
  import opened Arith
  import opened Bytes
  import opened Counting
  import opened DotCounts
  import opened BlueNoiseEnergy

  const ONES := 409  // a tenth of the cells

  /** Adds the kernel around cell `i`, or takes it away. */
  method Bump(w: Kernel, e: array<real>, i: nat, sign: real)
    requires e.Length == CELLS && i < CELLS && sign in {1.0, -1.0}
    modifies e
    ensures forall j: nat :: j < CELLS ==> e[j] == old(e[j]) + sign * Bumped(w, i, j)
  {
    hide Target, Weight;
    for k := 0 to TAPS
      invariant forall j: nat :: j < CELLS ==> e[j] == old(e[j]) + sign * BumpTo(w, i, j, k)
    {
      var t := Target(i, k);
      e[t] := e[t] + sign * Weight(w, k);
    }
  }

  /** The energy of a whole pattern, one bump per set cell. */
  method MakeEnergy(w: Kernel, pattern: array<bool>) returns (e: array<real>)
    requires pattern.Length == CELLS
    ensures fresh(e) && Agrees(w, pattern[..], e[..])
  {
    hide Bumped;
    e := new real[CELLS](i => 0.0);
    for i := 0 to CELLS
      invariant forall j: nat :: j < CELLS ==> e[j] == SumOver(pattern[..], (k: nat) => Bumped(w, k, j), i)
    {
      if pattern[i] {
        Bump(w, e, i, 1.0);
      }
    }
  }

  /** A bump after a flip keeps the map in agreement with the pattern. */
  lemma FlipAgrees(w: Kernel, p: Pattern, e: seq<real>, c: nat, value: bool, e': seq<real>)
    requires Agrees(w, p, e) && c < CELLS && p[c] == !value && |e'| == CELLS
    requires forall j: nat :: j < CELLS ==> e'[j] == e[j] + (if value then 1.0 else -1.0) * Bumped(w, c, j)
    ensures Agrees(w, p[c := value], e')
  {
    hide Energy, Bumped;
    forall j: nat | j < CELLS
      ensures e'[j] == Energy(w, p[c := value], j)
    {
      if value {
        EnergyFlip(w, p, c, j);
      } else {
        EnergyFlip(w, p[c := false], c, j);
        assert p[c := false][c := true] == p;
      }
    }
  }

  /** Flips a cell and bumps the map, as every step of the program does. */
  method Flip(w: Kernel, p: array<bool>, e: array<real>, c: nat, value: bool)
    requires p.Length == e.Length == CELLS && c < CELLS && p[c] == !value && Agrees(w, p[..], e[..])
    modifies p, e
    ensures p[..] == old(p[..])[c := value] && Agrees(w, p[..], e[..])
  {
    hide Bumped, Energy;
    p[c] := value;
    Bump(w, e, c, if value then 1.0 else -1.0);
    FlipAgrees(w, old(p[..]), old(e[..]), c, value, e[..]);
  }

  /** The set cell with the most energy, the first one on ties; -1 if no cell is set. */
  method TightestCluster(w: Kernel, p: array<bool>, e: array<real>) returns (bi: int)
    requires IsKernel(w) && p.Length == e.Length == CELLS && Agrees(w, p[..], e[..])
    ensures if OnesOf(p[..]) == {} then bi == -1 else bi >= 0 && IsTightest(w, p[..], bi)
  {
    hide Energy;
    var best := -1.0;
    bi := -1;
    for i := 0 to CELLS
      invariant bi == -1 ==> best == -1.0 && forall j: nat :: j < i ==> !p[j]
      invariant bi != -1 ==> 0 <= bi < i && p[bi] && best == e[bi]
                             && forall j: nat :: j < i && p[j] ==> e[j] < e[bi] || (e[j] == e[bi] && bi <= j)
    {
      EnergyIsBounded(w, p[..], i);
      if p[i] && e[i] > best {
        best, bi := e[i], i;
      }
    }
    if bi != -1 {
      assert bi as nat in OnesOf(p[..]);
    }
  }

  /** The clear cell with the least energy, the first one on ties; -1 if every cell is set. */
  method LargestVoid(w: Kernel, p: array<bool>, e: array<real>) returns (bi: int)
    requires IsKernel(w) && p.Length == e.Length == CELLS && Agrees(w, p[..], e[..])
    ensures if exists j: nat :: j < CELLS && !p[j] then bi >= 0 && IsLargestVoid(w, p[..], bi) else bi == -1
  {
    hide Energy;
    var best := 1000000000000000000000000000000.0;
    bi := -1;
    for i := 0 to CELLS
      invariant bi == -1 ==> best == 1000000000000000000000000000000.0 && forall j: nat :: j < i ==> p[j]
      invariant bi != -1 ==> 0 <= bi < i && !p[bi] && best == e[bi]
                             && forall j: nat :: j < i && !p[j] ==> e[bi] < e[j] || (e[bi] == e[j] && bi <= j)
    {
      EnergyIsBounded(w, p[..], i);
      if !p[i] && e[i] < best {
        best, bi := e[i], i;
      }
    }
  }

  /** The tightest cell, taken out, leaves the largest void: nothing is left to relax. */
  ghost predicate IsRelaxed(w: Kernel, p: Pattern) {
    exists c: nat :: IsTightest(w, p, c) && IsLargestVoid(w, p[c := false], c)
  }

  /** One move: the tightest cell goes to the largest void that its removal leaves, which is another place. */
  ghost predicate IsMove(w: Kernel, p: Pattern, q: Pattern) {
    exists c: nat, v: nat :: IsMoveOf(w, p, c, v, q)
  }

  ghost predicate IsMoveOf(w: Kernel, p: Pattern, c: nat, v: nat, q: Pattern) {
    c != v && IsTightest(w, p, c) && IsLargestVoid(w, p[c := false], v) && q == p[c := false][v := true]
  }

  /** Patterns each of which is one move from the one before it, until nothing is left to relax. */
  ghost predicate IsRelaxing(w: Kernel, trace: seq<Pattern>) {
    trace != [] && AreMoves(w, trace) && IsRelaxed(w, trace[|trace| - 1])
  }

  ghost predicate AreMoves(w: Kernel, trace: seq<Pattern>) {
    forall k :: 0 <= k < |trace| - 1 ==> IsMove(w, trace[k], trace[k + 1])
  }

  lemma OneMoreMove(w: Kernel, trace: seq<Pattern>, q: Pattern)
    requires AreMoves(w, trace) && trace != [] && IsMove(w, trace[|trace| - 1], q)
    ensures AreMoves(w, trace + [q])
  {
    hide IsMove;
  }

  /** What is moved and where to is never in doubt, so a pattern relaxes to one pattern only. */
  lemma {:induction false} RelaxingIsUnique(w: Kernel, s: seq<Pattern>, t: seq<Pattern>)
    requires IsRelaxing(w, s) && IsRelaxing(w, t) && s[0] == t[0]
    ensures s == t
    decreases |s|
  {
    hide IsTightest, IsLargestVoid, IsMove, IsRelaxed;
    if |s| == 1 || |t| == 1 {
      if |t| > 1 {
        assert IsMove(w, t[0], t[1]);
        RelaxedDoesNotMove(w, t[0], t[1]);
      } else if |s| > 1 {
        assert IsMove(w, s[0], s[1]);
        RelaxedDoesNotMove(w, s[0], s[1]);
      }
    } else {
      assert IsMove(w, s[0], s[1]) && IsMove(w, t[0], t[1]);
      MoveIsUnique(w, s[0], s[1], t[1]);
      RelaxingIsUnique(w, s[1..], t[1..]);
      assert s == [s[0]] + s[1..] && t == [t[0]] + t[1..];
    }
  }

  lemma TightestIsUnique(w: Kernel, p: Pattern, c: nat, d: nat)
    requires IsTightest(w, p, c) && IsTightest(w, p, d)
    ensures c == d
  {
    hide Energy;
  }

  lemma LargestVoidIsUnique(w: Kernel, p: Pattern, c: nat, d: nat)
    requires IsLargestVoid(w, p, c) && IsLargestVoid(w, p, d)
    ensures c == d
  {
    hide Energy;
  }

  lemma MoveIsUnique(w: Kernel, p: Pattern, q: Pattern, r: Pattern)
    requires IsMove(w, p, q) && IsMove(w, p, r)
    ensures q == r
  {
    hide Energy;
    var c: nat, v: nat :| IsMoveOf(w, p, c, v, q);
    var d: nat, u: nat :| IsMoveOf(w, p, d, u, r);
    TightestIsUnique(w, p, c, d);
    LargestVoidIsUnique(w, p[c := false], v, u);
  }

  lemma RelaxedDoesNotMove(w: Kernel, p: Pattern, q: Pattern)
    requires IsRelaxed(w, p)
    ensures !IsMove(w, p, q)
  {
    hide Energy;
    var c: nat :| IsTightest(w, p, c) && IsLargestVoid(w, p[c := false], c);
    forall d: nat, v: nat
      ensures !IsMoveOf(w, p, d, v, q)
    {
      if IsTightest(w, p, d) && IsLargestVoid(w, p[d := false], v) {
        TightestIsUnique(w, p, c, d);
        LargestVoidIsUnique(w, p[d := false], d, v);
      }
    }
  }

  /**
   * Moves the tightest cell to the largest void until it falls back into its own place. In exact
   * arithmetic this ends: every move lowers the total energy, or keeps it and moves a cell to a
   * smaller index.
   */
  method Relax(w: Kernel, pattern: array<bool>, energy: array<real>) returns (ghost trace: seq<Pattern>)
    requires IsKernel(w) && pattern.Length == energy.Length == CELLS && Agrees(w, pattern[..], energy[..])
    requires OnesOf(pattern[..]) != {}
    modifies pattern, energy
    ensures Agrees(w, pattern[..], energy[..]) && IsRelaxing(w, trace)
    ensures trace[0] == old(pattern[..]) && trace[|trace| - 1] == pattern[..]
    ensures |OnesOf(pattern[..])| == |OnesOf(old(pattern[..]))|
  {
    hide Energy, IsTightest, IsLargestVoid, LowerPatterns, Lower, AreMoves;
    trace := [pattern[..]];
    FirstOfTrace(w, pattern[..]);
    while true
      invariant Agrees(w, pattern[..], energy[..])
      invariant OnesOf(pattern[..]) != {} && |OnesOf(pattern[..])| == |OnesOf(old(pattern[..]))|
      invariant trace != [] && AreMoves(w, trace) && trace[0] == old(pattern[..]) && trace[|trace| - 1] == pattern[..]
      decreases LowerPatterns(w, pattern[..])
    {
      ghost var before: Pattern := pattern[..];
      var c := TightestCluster(w, pattern, energy);
      TightestIsSet(w, before, c);
      Flip(w, pattern, energy, c, false);
      assert !pattern[c];
      var v := LargestVoid(w, pattern, energy);
      VoidIsClear(w, pattern[..], v);
      if v == c {
        Flip(w, pattern, energy, c, true);
        assert pattern[..] == before;
        break;
      }
      Flip(w, pattern, energy, v, true);
      MovedOnes(before, c, v);
      RelaxingLowers(w, before, c, v);
      LowerPatternsShrink(w, pattern[..], before);
      assert IsMoveOf(w, before, c, v, pattern[..]);
      OneMoreMove(w, trace, pattern[..]);
      trace := trace + [pattern[..]];
    }
  }

  lemma FirstOfTrace(w: Kernel, p: Pattern)
    ensures AreMoves(w, [p])
  {
  }

  lemma TightestIsSet(w: Kernel, p: Pattern, c: nat)
    requires IsTightest(w, p, c)
    ensures c < CELLS && p[c]
  {
  }

  lemma VoidIsClear(w: Kernel, p: Pattern, v: nat)
    requires IsLargestVoid(w, p, v)
    ensures v < CELLS && !p[v]
  {
  }

  lemma MovedOnes(p: Pattern, c: nat, v: nat)
    requires c < CELLS && v < CELLS && c != v && p[c] && !p[v]
    ensures |OnesOf(p[c := false][v := true])| == |OnesOf(p)|
  {
    assert OnesOf(p[c := false][v := true]) == OnesOf(p) - {c} + {v};
  }

  // ---- ranking

  /** The pattern with the cells of `s` set as well. */
  function Plus(p: Pattern, s: seq<nat>): Pattern {
    seq(CELLS, i requires 0 <= i < CELLS => p[i] || i in s)
  }

  /**
   * The void-and-cluster order. Below the initial density each cell is the tightest of the pattern
   * made of it and those ranked before; above, it is the largest void those ranked before leave.
   */
  ghost predicate IsVoidAndClusterOrder(w: Kernel, order: seq<nat>, ones: nat) {
    && (forall r :: 0 <= r < |order| && r < ones ==> IsTightest(w, Plus(AllClear(), order[..r + 1]), order[r]))
    && (forall r :: ones <= r < |order| ==> IsLargestVoid(w, Plus(AllClear(), order[..r]), order[r]))
  }

  /** Phase 1 so far: the cells of `tail` were taken out of the pattern, tightest first, from the back. */
  ghost predicate IsClusterTail(w: Kernel, p: Pattern, tail: seq<nat>) {
    && Distinct(tail) && (forall c <- tail :: c < CELLS && !p[c])
    && forall r :: 0 <= r < |tail| ==> IsTightest(w, Plus(p, tail[..r + 1]), tail[r])
  }

  lemma TakeTightest(w: Kernel, p: Pattern, tail: seq<nat>, c: nat)
    requires IsClusterTail(w, p, tail) && IsTightest(w, p, c)
    ensures IsClusterTail(w, p[c := false], [c] + tail)
    ensures Plus(p[c := false], [c] + tail) == Plus(p, tail)
  {
    hide IsTightest, Plus;
    TightestIsSet(w, p, c);
    var q: Pattern, next := p[c := false], [c] + tail;
    PlusCons(p, c, tail);
    forall r | 0 <= r < |next|
      ensures IsTightest(w, Plus(q, next[..r + 1]), next[r])
    {
      if r == 0 {
        PlusCons(p, c, []);
        PlusNothing(p);
        assert next[..1] == [c] + [];
      } else {
        PlusCons(p, c, tail[..r]);
        assert next[..r + 1] == [c] + tail[..r];
      }
    }
  }

  lemma PlusNothing(p: Pattern)
    ensures Plus(p, []) == p
  {
  }

  /** Clearing a cell and listing it comes to the same pattern. */
  lemma PlusCons(p: Pattern, c: nat, s: seq<nat>)
    requires c < CELLS && p[c]
    ensures Plus(p[c := false], [c] + s) == Plus(p, s)
  {
  }

  /** Every cell of rank r is cell r of the order. */
  ghost predicate IsRanking(rank: seq<int>, order: seq<nat>, first: nat) {
    forall k :: 0 <= k < |order| ==> order[k] < |rank| && rank[order[k]] == first + k
  }

  /**
   * Phase 1: ranks ones - 1 down to 0 go to the tightest clusters, each taken out in turn.
   */
  method RankClusters(w: Kernel, ones: nat, p: array<bool>, e: array<real>, rank: array<int>)
    returns (ghost order: seq<nat>)
    requires IsKernel(w) && p.Length == e.Length == rank.Length == CELLS && Agrees(w, p[..], e[..])
    requires |OnesOf(p[..])| == ones
    modifies p, e, rank
    ensures p[..] == AllClear() && Agrees(w, p[..], e[..])
    ensures |order| == ones && Plus(AllClear(), order) == old(p[..])
    ensures IsClusterTail(w, AllClear(), order) && IsRanking(rank[..], order, 0)
  {
    hide Energy, IsTightest;
    order := [];
    assert Plus(p[..], []) == p[..];
    var n := ones;
    while n > 0
      invariant Agrees(w, p[..], e[..])
      invariant n == |OnesOf(p[..])| == ones - |order| && Plus(p[..], order) == old(p[..])
      invariant IsClusterTail(w, p[..], order) && IsRanking(rank[..], order, n)
    {
      ghost var before: Pattern := p[..];
      var c := TightestCluster(w, p, e);
      TightestIsSet(w, before, c);
      TakeTightest(w, before, order, c);
      TakeOne(before, c);
      Flip(w, p, e, c, false);
      n := n - 1;
      rank[c] := n;
      order := [c] + order;
    }
    NothingSet(p[..]);
  }

  lemma TakeOne(p: Pattern, c: nat)
    requires c < CELLS && p[c]
    ensures |OnesOf(p[c := false])| == |OnesOf(p)| - 1
  {
    assert OnesOf(p[c := false]) == OnesOf(p) - {c};
  }

  lemma NothingSet(p: Pattern)
    requires |OnesOf(p)| == 0
    ensures p == AllClear()
  {
    forall i: nat | i < CELLS
      ensures !p[i]
    {
      assert i !in OnesOf(p);
    }
  }

  /** The cells ranked so far are in void-and-cluster order and are the pattern's set cells. */
  ghost predicate IsRankedSoFar(w: Kernel, p: Pattern, rank: seq<int>, order: seq<nat>, ones: nat) {
    && Distinct(order) && (forall c <- order :: c < CELLS) && p == Plus(AllClear(), order)
    && IsRanking(rank, order, 0) && IsVoidAndClusterOrder(w, order, ones)
  }

  lemma PlusMore(order: seq<nat>, v: nat)
    requires v < CELLS
    ensures Plus(AllClear(), order + [v]) == Plus(AllClear(), order)[v := true]
  {
    var a, b := Plus(AllClear(), order + [v]), Plus(AllClear(), order)[v := true];
    forall i | 0 <= i < CELLS
      ensures a[i] == b[i]
    {
      assert i in order + [v] <==> i in order || i == v;
    }
  }

  lemma VoidKeepsOrder(w: Kernel, order: seq<nat>, ones: nat, v: nat)
    requires ones <= |order| && IsVoidAndClusterOrder(w, order, ones) && IsLargestVoid(w, Plus(AllClear(), order), v)
    ensures IsVoidAndClusterOrder(w, order + [v], ones)
  {
    hide IsTightest, IsLargestVoid, Plus;
    var next := order + [v];
    assert next[..|order|] == order && forall r :: 0 <= r <= |order| ==> next[..r] == order[..r];
  }

  lemma VoidKeepsRanking(rank: seq<int>, order: seq<nat>, v: nat)
    requires |rank| == CELLS && IsRanking(rank, order, 0) && v < CELLS && v !in order
    ensures IsRanking(rank[v := |order|], order + [v], 0)
  {
    assert forall k :: 0 <= k < |order| ==> order[k] in order;
  }

  lemma NotYetSet(order: seq<nat>, v: nat)
    requires v < CELLS && !Plus(AllClear(), order)[v]
    ensures v !in order
  {
  }

  lemma AddVoid(w: Kernel, p: Pattern, rank: seq<int>, order: seq<nat>, ones: nat, v: nat)
    requires |rank| == CELLS && ones <= |order|
    requires IsRankedSoFar(w, p, rank, order, ones) && IsLargestVoid(w, p, v)
    ensures IsRankedSoFar(w, p[v := true], rank[v := |order|], order + [v], ones)
  {
    hide IsTightest, IsLargestVoid, Plus, IsVoidAndClusterOrder, IsRanking;
    VoidIsClear(w, p, v);
    PlusMore(order, v);
    NotYetSet(order, v);
    VoidKeepsOrder(w, order, ones, v);
    VoidKeepsRanking(rank, order, v);
    assert forall k :: 0 <= k < |order| ==> order[k] in order;
  }

  /** Phases 2 and 3: ranks from `ones` up go to the largest voids, each filled in turn. */
  method RankVoids(w: Kernel, ones: nat, p: array<bool>, e: array<real>, rank: array<int>, ghost head: seq<nat>)
    returns (ghost order: seq<nat>)
    requires IsKernel(w) && p.Length == e.Length == rank.Length == CELLS && Agrees(w, p[..], e[..])
    requires |head| == ones <= CELLS && IsRankedSoFar(w, p[..], rank[..], head, ones)
    modifies p, e, rank
    ensures |order| == CELLS && head <= order && IsRankedSoFar(w, p[..], rank[..], order, ones)
  {
    hide Energy, IsLargestVoid, IsTightest, IsVoidAndClusterOrder, IsRanking;
    order := head;
    var n := ones;
    while n < CELLS
      invariant Agrees(w, p[..], e[..]) && head <= order
      invariant ones <= n == |order| <= CELLS && IsRankedSoFar(w, p[..], rank[..], order, ones)
    {
      ghost var clear := SomeIndexIsMissing(order, CELLS);
      assert !p[clear];
      ghost var before: Pattern, rank0 := p[..], rank[..];
      var v := LargestVoid(w, p, e);
      VoidIsClear(w, before, v);
      AddVoid(w, before, rank0, order, ones, v);
      Flip(w, p, e, v, true);
      rank[v] := n;
      assert rank[..] == rank0[v := n];
      order := order + [v];
      n := n + 1;
    }
  }

  // ---- the mask

  method Copy<T>(a: array<T>) returns (b: array<T>)
    ensures fresh(b) && b[..] == a[..]
  {
    b := new T[a.Length](i requires 0 <= i < a.Length reads a => a[i]);
  }

  /**
   * The whole generator, from any initial pattern of 409 set cells: the mask orders the cells of
   * the torus by void and cluster, starting from a relaxed pattern.
   */
  method Generate(w: Kernel, pattern: array<bool>)
    returns (thresholds: array<int>, ghost order: seq<nat>, ghost trace: seq<Pattern>)
    requires IsKernel(w) && pattern.Length == CELLS && |OnesOf(pattern[..])| == ONES
    modifies pattern
    ensures |order| == CELLS && IsPermutation(order) && IsVoidAndClusterOrder(w, order, ONES)
    ensures IsRelaxing(w, trace) && trace[0] == old(pattern[..])
    ensures trace[|trace| - 1] == Plus(AllClear(), order[..ONES])
    ensures thresholds.Length == CELLS && IsMask(thresholds[..], order)
  {
    hide Energy, IsRelaxing, IsVoidAndClusterOrder, Plus, IsPermutation, IsMask, IsRanking, IsClusterTail;
    var energy := MakeEnergy(w, pattern);
    trace := Relax(w, pattern, energy);
    var rank := new int[CELLS](i => 0);
    var p := Copy(pattern);
    var e := Copy(energy);
    ghost var head := RankClusters(w, ONES, p, e, rank);
    p := Copy(pattern);
    e := Copy(energy);
    HeadIsRanked(w, pattern[..], rank[..], head);
    order := RankVoids(w, ONES, p, e, rank, head);
    assert order[..ONES] == head;
    thresholds := Thresholds(rank);
    OrderIsMask(rank[..], order, thresholds[..]);
  }

  // ---- the result is determined

  lemma PlusLess(order: seq<nat>, r: nat)
    requires Distinct(order) && r < |order| && forall c <- order :: c < CELLS
    ensures order[r] < CELLS && Plus(AllClear(), order[..r]) == Plus(AllClear(), order[..r + 1])[order[r] := false]
  {
    assert order[r] in order && order[..r + 1] == order[..r] + [order[r]];
    PlusMore(order[..r], order[r]);
    assert !Plus(AllClear(), order[..r])[order[r]] by {
      assert order[r] !in order[..r];
    }
  }

  ghost predicate IsOrder(w: Kernel, order: seq<nat>, ones: nat) {
    Distinct(order) && (forall c <- order :: c < CELLS) && ones <= |order| && IsVoidAndClusterOrder(w, order, ones)
  }

  /** Downwards from the initial pattern each cell is the one tightest cluster. */
  lemma {:induction false} SameBelow(w: Kernel, a: seq<nat>, b: seq<nat>, ones: nat, r: nat)
    requires IsOrder(w, a, ones) && IsOrder(w, b, ones) && r <= ones
    requires Plus(AllClear(), a[..ones]) == Plus(AllClear(), b[..ones])
    ensures Plus(AllClear(), a[..r]) == Plus(AllClear(), b[..r])
    ensures r < ones ==> a[r] == b[r]
    decreases ones - r as int
  {
    hide Plus, IsTightest, IsLargestVoid;
    if r < ones {
      SameBelow(w, a, b, ones, r + 1);
      TightestIsUnique(w, Plus(AllClear(), a[..r + 1]), a[r], b[r]);
      PlusLess(a, r);
      PlusLess(b, r);
    }
  }

  /** Upwards from it each cell is the one largest void. */
  lemma {:induction false} SameAbove(w: Kernel, a: seq<nat>, b: seq<nat>, ones: nat, r: nat)
    requires IsOrder(w, a, ones) && IsOrder(w, b, ones) && ones <= r <= |a| && r <= |b|
    requires Plus(AllClear(), a[..ones]) == Plus(AllClear(), b[..ones])
    ensures Plus(AllClear(), a[..r]) == Plus(AllClear(), b[..r])
    ensures r < |a| && r < |b| ==> a[r] == b[r]
  {
    hide Plus, IsTightest, IsLargestVoid;
    if r > ones {
      SameAbove(w, a, b, ones, r - 1);
      assert a[r - 1] in a;
      assert a[..r] == a[..r - 1] + [a[r - 1]] && b[..r] == b[..r - 1] + [b[r - 1]];
      PlusMore(a[..r - 1], a[r - 1]);
      PlusMore(b[..r - 1], b[r - 1]);
    }
    if r < |a| && r < |b| {
      LargestVoidIsUnique(w, Plus(AllClear(), a[..r]), a[r], b[r]);
    }
  }

  /** The initial pattern determines the mask: whatever meets what Generate promises is the same mask. */
  lemma MaskIsDetermined(w: Kernel, a: seq<nat>, s: seq<Pattern>, mask: seq<int>,
                         b: seq<nat>, t: seq<Pattern>, mask': seq<int>)
    requires |a| == |b| == CELLS && IsOrder(w, a, ONES) && IsOrder(w, b, ONES)
    requires IsRelaxing(w, s) && IsRelaxing(w, t) && s[0] == t[0]
    requires s[|s| - 1] == Plus(AllClear(), a[..ONES]) && t[|t| - 1] == Plus(AllClear(), b[..ONES])
    requires IsMask(mask, a) && IsMask(mask', b) && IsPermutation(a)
    ensures a == b && mask == mask'
  {
    hide Plus, IsRelaxing, IsVoidAndClusterOrder;
    RelaxingIsUnique(w, s, t);
    forall r | 0 <= r < CELLS
      ensures a[r] == b[r]
    {
      if r < ONES {
        SameBelow(w, a, b, ONES, r);
      } else {
        SameAbove(w, a, b, ONES, r);
      }
    }
    forall i | 0 <= i < CELLS
      ensures mask[i] == mask'[i]
    {
      var r := RankAt(a, i);
    }
  }

  lemma OrderIsMask(rank: seq<int>, order: seq<nat>, mask: seq<int>)
    requires |rank| == |mask| == |order| == CELLS && Distinct(order) && (forall c <- order :: c < CELLS)
    requires IsRanking(rank, order, 0) && forall i :: 0 <= i < CELLS ==> mask[i] == rank[i] * 255 / CELLS
    ensures IsPermutation(order) && IsMask(mask, order)
  {
    forall r | 0 <= r < CELLS
      ensures order[r] < CELLS && mask[order[r]] == r * 255 / CELLS
    {
      assert order[r] in order;
    }
  }

  method Thresholds(rank: array<int>) returns (t: array<int>)
    ensures fresh(t) && t.Length == rank.Length
    ensures forall i :: 0 <= i < rank.Length ==> t[i] == rank[i] * 255 / CELLS
  {
    t := new int[rank.Length](i requires 0 <= i < rank.Length reads rank => rank[i] * 255 / CELLS);
  }

  /** The mask in terms of the order: cell number r of it has threshold floor(255 r / 4096). */
  ghost predicate IsMask(mask: seq<int>, order: seq<nat>) {
    && |mask| == |order| == CELLS
    && forall r :: 0 <= r < CELLS ==> order[r] < CELLS && mask[order[r]] == r * 255 / CELLS
  }

  lemma HeadIsRanked(w: Kernel, p: Pattern, rank: seq<int>, head: seq<nat>)
    requires IsClusterTail(w, AllClear(), head) && IsRanking(rank, head, 0) && Plus(AllClear(), head) == p
    requires |head| == ONES
    ensures IsRankedSoFar(w, p, rank, head, ONES)
  {
  }

  lemma ThresholdRange(r: int, t: int)
    requires 0 <= t < 255
    ensures r * 255 / CELLS == t <==> (CELLS * t + 254) / 255 <= r < (CELLS * (t + 1) + 254) / 255
    ensures 16 <= (CELLS * (t + 1) + 254) / 255 - (CELLS * t + 254) / 255 <= 17
  {
  }

  /** The ranks that share a threshold are 16 or 17 neighbours. */
  lemma RanksOfThreshold(mask: seq<int>, order: seq<nat>, t: int) returns (lo: nat, hi: nat)
    requires IsMask(mask, order) && 0 <= t < 255
    ensures lo <= hi <= CELLS && 16 <= hi - lo <= 17
    ensures forall r: nat :: r < CELLS ==> (mask[order[r]] == t <==> lo <= r < hi)
  {
    lo, hi := (CELLS * t + 254) / 255, (CELLS * (t + 1) + 254) / 255;
    forall r: nat
      ensures r * 255 / CELLS == t <==> lo <= r < hi
    {
      ThresholdRange(r, t);
    }
    ThresholdRange(0, t);
  }

  lemma SizeBetween(lo: nat, hi: nat)
    requires lo <= hi
    ensures |UpTo(hi) - UpTo(lo)| == hi - lo
  {
    assert UpTo(lo) <= UpTo(hi);
  }

  /** Each threshold from 0 to 254 occurs 16 or 17 times in a mask, so every ink has its share of dots. */
  lemma ThresholdsAreEven(mask: seq<int>, order: seq<nat>, t: int)
    requires IsMask(mask, order) && IsPermutation(order) && 0 <= t < 255
    ensures 16 <= |set i: nat | i < CELLS && mask[i] == t| <= 17
  {
    assert |mask| == |order| == CELLS && forall r: nat :: r < CELLS ==> order[r] < CELLS;
    hide *;
    var lo, hi := RanksOfThreshold(mask, order, t);
    var a, b := UpTo(hi) - UpTo(lo), set i: nat | i < CELLS && mask[i] == t;
    SizeBetween(lo, hi);
    var f := map r | r in a :: order[r];
    forall r, s | r in a && s in a && f[r] == f[s]
      ensures r == s
    {
      EntriesDiffer(order, r, s);
    }
    forall i <- b
      ensures exists r :: r in a && f[r] == i
    {
      var r := RankAt(order, i);
      assert r in a && f[r] == i;
    }
    SameSize(a, b, f);
  }

  /** How many cells of the mask a constant ink of `v` turns black: its share of 255, rounded up. */
  function MaskCount(v: nat): nat {
    (CELLS * v + 254) / 255
  }

  lemma MaskCut(v: nat, r: nat)
    ensures v > r * 255 / CELLS <==> r < MaskCount(v)
    ensures v < 0x100 ==> MaskCount(v) <= CELLS
  {
  }

  /** The rank of a cell: its place in the order. */
  ghost function RankOf(order: seq<nat>, i: nat): (r: nat)
    requires IsPermutation(order) && i < |order|
    ensures r < |order| && order[r] == i
  {
    PermutationIsOnto(order, i);
    var r :| 0 <= r < |order| && order[r] == i;
    r
  }

  ghost function RanksOf(order: seq<nat>): (ranks: seq<int>)
    requires IsPermutation(order)
    ensures |ranks| == |order| && forall i: nat :: i < |order| ==> ranks[i] == RankOf(order, i)
  {
    seq(|order|, i requires 0 <= i < |order| => RankOf(order, i))
  }

  lemma RanksArePermutation(order: seq<nat>)
    requires IsPermutation(order)
    ensures IsPermutation(RanksOf(order))
  {
    var ranks := RanksOf(order);
    forall i: nat, j: nat | i < j < |ranks|
      ensures ranks[i] != ranks[j]
    {
      assert order[RankOf(order, i)] == i && order[RankOf(order, j)] == j;
    }
  }

  /** On constant ink every 64 by 64 window of the mask, wherever it lies, has exactly ceil(4096 v / 255) dots. */
  lemma MaskWindowHasExactCount(mask: seq<int>, order: seq<nat>, v: Byte, x0: nat, y0: nat)
    requires IsMask(mask, order) && IsPermutation(order)
    ensures |DotsIn(mask, N, v, x0, y0)| == MaskCount(v)
  {
    RanksArePermutation(order);
    var ranks := RanksOf(order);
    hide IsPermutation, DotsIn, MaskCount, RanksOf, RankOf;
    MaskCut(v, 0);
    forall i: nat | i < CELLS
      ensures v > mask[i] <==> ranks[i] < MaskCount(v)
    {
      var r := RankOf(order, i);
      assert mask[order[r]] == r * 255 / CELLS;
      MaskCut(v, r);
    }
    WindowCount(mask, N, ranks, v, MaskCount(v), x0, y0);
  }

  lemma EntriesDiffer(order: seq<nat>, r: nat, s: nat)
    requires IsPermutation(order) && r < |order| && s < |order| && order[r] == order[s]
    ensures r == s
  {
  }

  lemma RankAt(order: seq<nat>, i: nat) returns (r: nat)
    requires IsPermutation(order) && i < |order|
    ensures r < |order| && order[r] == i
  {
    PermutationIsOnto(order, i);
    r :| 0 <= r < |order| && order[r] == i;
  }
}
