/** Facts about division that the solver does not find by itself when the divisor is a variable. */
module Arith {
  lemma MulMonotone(a: nat, b: nat, c: nat)
    requires a <= b
    ensures a * c <= b * c
  {
  }

  lemma DivMod(a: nat, b: nat)
    requires b > 0
    ensures 0 <= a / b && 0 <= a % b < b && a == a / b * b + a % b
  {
  }

  /** Quotient and remainder are unique. */
  lemma DivModUnique(x: nat, m: nat, q: nat, r: nat)
    requires r < m && x == q * m + r
    ensures x / m == q && x % m == r
  {
    var q', r' := x / m, x % m;
    assert x == m * q' + r';
    if q < q' {
      MulMonotone(q + 1, q', m);
    } else if q' < q {
      MulMonotone(q' + 1, q, m);
    }
  }

  lemma DivModStep(x: nat, m: nat)
    requires 0 < m <= x
    ensures x % m == (x - m) % m && x / m == (x - m) / m + 1
  {
    var q, r := (x - m) / m, (x - m) % m;
    assert x - m == m * q + r;
    DivModUnique(x, m, q + 1, r);
  }

  /** A slice of a slice is a slice. */
  lemma SliceSlice<T>(p: seq<T>, a: nat, b: nat, c: nat, d: nat)
    requires a <= b <= |p| && c <= d <= b - a
    ensures p[a..b][c..d] == p[a + c..a + d]
  {
    forall i | 0 <= i < d - c
      ensures p[a..b][c..d][i] == p[a + c..a + d][i]
    {
      assert p[a..b][c..d][i] == p[a..b][c + i] == p[a + (c + i)];
    }
  }

  lemma Assoc<T>(a: seq<T>, b: seq<T>, c: seq<T>)
    ensures (a + b) + c == a + (b + c)
  {
  }
}
