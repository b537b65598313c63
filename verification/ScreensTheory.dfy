/** What the ranks of the two kinds of screen are: bits in reverse, and distances on the torus. */
module ScreensTheory {
  import opened Arith
  import opened Bits
  import opened Screens

  // ---- Bayer matrices, bit by bit

  lemma {:induction false} TopBit(x: nat, n: nat)
    requires x < 2 * Pow2(n)
    ensures Bit(x, n) <==> x >= Pow2(n)
  {
    if n > 0 {
      TopBit(x / 2, n - 1);
    }
  }

  lemma {:induction false} LowBits(x: nat, n: nat, m: nat)
    requires m < n && Pow2(n) <= x
    ensures Bit(x - Pow2(n), m) == Bit(x, m)
  {
    if m > 0 {
      assert (x - Pow2(n)) / 2 == x / 2 - Pow2(n - 1);
      LowBits(x / 2, n - 1, m - 1);
    }
  }

  lemma HalfBits(x: nat, n: nat, m: nat)
    requires m < n && x < 2 * Pow2(n)
    ensures Bit(x % Pow2(n), m) == Bit(x, m)
  {
    hide Bit;
    HalfMod(x, Pow2(n));
    if x >= Pow2(n) {
      LowBits(x, n, m);
    }
  }

  /** The rank of a Bayer cell has the bits of y and of x xor y in turn, in reverse order. */
  lemma {:induction false} BayerBits(k: nat, x: nat, y: nat, j: nat)
    requires j < k && x < Pow2(k) && y < Pow2(k)
    ensures Bit(BayerRank(k, x, y), 2 * j) <==> Bit(y, k - 1 - j)
    ensures Bit(BayerRank(k, x, y), 2 * j + 1) <==> Bit(x, k - 1 - j) != Bit(y, k - 1 - j)
  {
    var h := Pow2(k - 1);
    TopBit(x, k - 1);
    TopBit(y, k - 1);
    HalfMod(x, h);
    HalfMod(y, h);
    BayerDigits(k, x, y);
    if j == 0 {
      LowDigit(BayerRank(k, x, y));
    } else {
      hide Bit, BayerRank, Pow2;
      HalfBits(x, k - 1, k - 1 - j);
      HalfBits(y, k - 1, k - 1 - j);
      BayerBits(k - 1, x % h, y % h, j - 1);
      HighDigits(BayerRank(k, x, y), 2 * j);
      HighDigits(BayerRank(k, x, y), 2 * j + 1);
    }
  }

  lemma BayerDigits(k: nat, x: nat, y: nat)
    requires k > 0
    ensures var h := Pow2(k - 1);
            && 0 <= x % h && 0 <= y % h
            && BayerRank(k, x, y) / 4 == BayerRank(k - 1, x % h, y % h)
            && BayerRank(k, x, y) % 4 == Corner(x >= h, y >= h)
  {
  }

  lemma LowDigit(r: nat)
    ensures Bit(r, 0) <==> r % 4 == 1 || r % 4 == 3
    ensures Bit(r, 1) <==> r % 4 >= 2
  {
    assert Bit(r, 1) == Bit(r / 2, 0);
    LowBitsOf(r / 4, r % 4);
  }

  lemma LowBitsOf(q: nat, d: nat)
    requires d < 4
    ensures (4 * q + d) % 2 == (if d == 1 || d == 3 then 1 else 0)
    ensures (4 * q + d) / 2 % 2 == if d >= 2 then 1 else 0
  {
    var high := if d >= 2 then 1 else 0;
    DivModUnique(4 * q + d, 2, 2 * q + high, d - 2 * high);
    DivModUnique(2 * q + high, 2, q, high);
  }

  lemma HighDigits(r: nat, n: nat)
    requires n >= 2
    ensures Bit(r, n) == Bit(r / 4, n - 2)
  {
    assert Bit(r, n) == Bit(r / 2, n - 1) == Bit(r / 2 / 2, n - 2);
  }

  // ---- clustered dots, in quarters of a pixel

  /**
   * The offset of the middle of column or row `p` from the centre of a dot, in quarters of a pixel
   * on a ring of `c` pixels. The centres lie at a quarter and at three quarters of the ring.
   */
  function Offset(c: nat, dot: nat, p: nat): int {
    var d := 4 * p + 2 - if dot == 0 then c else 3 * c;
    if d > 2 * c then d - 4 * c else if d < -2 * c then d + 4 * c else d
  }

  function Abs(d: int): nat {
    if d < 0 then -d else d
  }

  function Turned(c: nat, dot: nat, p: nat, turns: int): int {
    4 * p + 2 - (if dot == 0 then c else 3 * c) + turns * (4 * c)
  }

  /** The offset is the shortest way round the ring: no number of whole turns gives a shorter one. */
  lemma OffsetIsShortest(c: nat, dot: nat, p: nat, turns: int)
    requires p < c
    ensures exists k: int :: Offset(c, dot, p) == Turned(c, dot, p, k)
    ensures Abs(Offset(c, dot, p)) <= Abs(Turned(c, dot, p, turns))
  {
    OffsetIsTurned(c, dot, p);
    Turns(turns, 4 * c);
    LongerWay(c, 4 * p + 2 - (if dot == 0 then c else 3 * c), turns * (4 * c));
  }

  lemma OffsetIsTurned(c: nat, dot: nat, p: nat)
    requires p < c
    ensures exists k: int :: Offset(c, dot, p) == Turned(c, dot, p, k)
  {
    assert Offset(c, dot, p) in {Turned(c, dot, p, -1), Turned(c, dot, p, 0), Turned(c, dot, p, 1)};
  }

  lemma Turns(turns: int, round: int)
    requires round >= 0
    ensures turns * round in {-round, 0, round} || turns * round >= 2 * round || turns * round <= -2 * round
  {
    if turns > 1 {
      MulMonotone(2, turns, round);
    } else if turns < -1 {
      MulMonotone(2, -turns, round);
    } else {
      assert turns in {-1, 0, 1};
    }
  }

  lemma LongerWay(c: nat, d: int, q: int)
    requires -3 * c <= d <= 3 * c && (q in {-4 * c, 0, 4 * c} || q >= 8 * c || q <= -8 * c)
    ensures Abs(if d > 2 * c then d - 4 * c else if d < -2 * c then d + 4 * c else d) <= Abs(d + q)
  {
  }

  /** The squared distance of a cell from a dot, in sixteenths. */
  function Distance(c: nat, dot: nat, i: nat): nat
    requires c > 0
  {
    var dx, dy := Offset(c, dot, i % c), Offset(c, dot, i / c);
    SquareIsNat(dx);
    SquareIsNat(dy);
    dx * dx + dy * dy
  }

  lemma SquareIsNat(d: int)
    ensures d * d >= 0
  {
  }

  /** What decides between cells at the same distance. */
  function Slant(c: nat, dot: nat, i: nat): int
    requires c > 0
  {
    37 * Offset(c, dot, i % c) + 11 * Offset(c, dot, i / c)
  }

  lemma WrappedIsOffset(c: nat, dot: nat, p: nat)
    ensures Wrapped(c, p as real + 0.5 - Centre(c, dot)) == Offset(c, dot, p) as real / 4.0
  {
    var d := 4 * p + 2 - if dot == 0 then c else 3 * c;
    assert p as real + 0.5 - Centre(c, dot) == d as real / 4.0;
  }

  lemma KeyIsInteger(c: nat, dot: nat, i: nat)
    requires c > 0
    ensures Key(c, dot, i) * 400.0 == (25000 * Distance(c, dot, i) + Slant(c, dot, i)) as real
  {
    hide Wrapped, Centre, Offset;
    WrappedIsOffset(c, dot, i % c);
    WrappedIsOffset(c, dot, i / c);
    KeyOfOffsets(Offset(c, dot, i % c), Offset(c, dot, i / c),
                 Wrapped(c, (i % c) as real + 0.5 - Centre(c, dot)),
                 Wrapped(c, (i / c) as real + 0.5 - Centre(c, dot)));
  }

  lemma KeyOfOffsets(a: int, b: int, dx: real, dy: real)
    requires dx == a as real / 4.0 && dy == b as real / 4.0
    ensures ((dx * dx + dy * dy) * 1000.0 + (dx * 0.37 + dy * 0.11)) * 400.0
            == (25000 * (a * a + b * b) + (37 * a + 11 * b)) as real
  {
    QuarterSquare(a);
    QuarterSquare(b);
  }

  lemma QuarterSquare(a: int)
    ensures (a as real / 4.0) * (a as real / 4.0) * 16.0 == (a * a) as real
  {
    var r := a as real / 4.0;
    assert r * 4.0 == a as real;
    assert (r * 4.0) * (r * 4.0) == (a * a) as real;
  }

  lemma OffsetIsSmallest(c: nat, dot: nat, p: nat)
    requires p < c
    ensures -2 * c <= Offset(c, dot, p) <= 2 * c
  {
  }

  /** Slants differ too little to weigh against a distance. */
  lemma SlantIsSmall(c: nat, dot: nat, i: nat)
    requires 0 < c <= MAX_CELL && i < c * c
    ensures -1536 <= Slant(c, dot, i) <= 1536
  {
    hide Offset;
    AtCovers(c, i);
    OffsetIsSmallest(c, dot, i % c);
    OffsetIsSmallest(c, dot, i / c);
  }

  /** For each dot the cells come in the order of their distance on the torus, then of slant, then of index. */
  lemma NearerComesFirst(c: nat, dot: nat, i: nat, j: nat)
    requires 0 < c <= MAX_CELL && i < c * c && j < c * c
    ensures Precedes(c, dot, i, j) <==>
              var a, b := Distance(c, dot, i), Distance(c, dot, j);
              var s, t := Slant(c, dot, i), Slant(c, dot, j);
              a < b || (a == b && (s < t || (s == t && i <= j)))
  {
    hide Key, Distance, Slant;
    KeyIsInteger(c, dot, i);
    KeyIsInteger(c, dot, j);
    SlantIsSmall(c, dot, i);
    SlantIsSmall(c, dot, j);
  }

  /**
   * In a cell of even size the two dots are half a cell apart both ways: the cells around one are as far
   * away as the cells around the other, and slanted alike if a quarter of the cell is a whole pixel.
   */
  lemma DotsAreHalfACellApart(c: nat, x: nat, y: nat)
    requires c % 2 == 0 && x < c && y < c
    ensures var i, j := At(c, x, y), At(c, (x + c / 2) % c, (y + c / 2) % c);
            Distance(c, 1, j) == Distance(c, 0, i) && (c % 4 == 0 ==> Slant(c, 1, j) == Slant(c, 0, i))
  {
    HalfTurn(c, x);
    HalfTurn(c, y);
    AtIsUnique(c, x, y);
    AtIsUnique(c, (x + c / 2) % c, (y + c / 2) % c);
    hide Offset;
    SameSquare(Offset(c, 1, (x + c / 2) % c), Offset(c, 0, x));
    SameSquare(Offset(c, 1, (y + c / 2) % c), Offset(c, 0, y));
  }

  lemma SameSquare(a: int, b: int)
    requires Abs(a) == Abs(b)
    ensures a * a == b * b
  {
  }

  lemma HalfTurn(c: nat, p: nat)
    requires c % 2 == 0 && p < c
    ensures var q := (p + c / 2) % c;
            q < c && Abs(Offset(c, 1, q)) == Abs(Offset(c, 0, p)) && (c % 4 == 0 ==> Offset(c, 1, q) == Offset(c, 0, p))
  {
    var h := c / 2;
    var q := if p + h < c then p + h else p + h - c;
    DivModUnique(p + h, c, if p + h < c then 0 else 1, q);
  }
}
