/** rational::operator<: two continued-fraction expansions compared component by component. */
module RationalOrder {
  import opened IntegerGcd

  /** One expansion step: n / d == q + r / d with 0 <= r < d. */
  datatype Expansion = Expansion(n: int, d: int, q: int, r: int)

  predicate Expanded(x: Expansion) {
    x.d > 0 && 0 <= x.r < x.d && x.n == x.q * x.d + x.r
  }

  /** x.n / x.d < y.n / y.d. */
  predicate Before(x: Expansion, y: Expansion) { x.n * y.d < y.n * x.d }

  /** Different quotients decide. */
  lemma QuotientsDecide(x: Expansion, y: Expansion)
    requires Expanded(x) && Expanded(y) && x.q < y.q
    ensures Before(x, y) && !Before(y, x)
  {
    // x.n < y.q * x.d and y.q * y.d <= y.n
    BelowQuotient(x, y.q);
    StrictScale(x.n, y.q * x.d, y.d);
    Scale(y.q * y.d, y.n, x.d);
    SwapFactors(y.q, x.d, y.d);
  }

  lemma BelowQuotient(x: Expansion, q: int)
    requires Expanded(x) && x.q < q
    ensures x.n < q * x.d
  {
    StepUp(x.q, q, x.d);
    assert (x.q + 1) * x.d == x.q * x.d + x.d;
  }

  lemma SwapFactors(q: int, a: int, b: int)
    ensures q * a * b == q * b * a
  {
  }

  lemma StepUp(a: int, b: int, d: int)
    requires a < b && d > 0
    ensures (a + 1) * d <= b * d
  {
    Scale(a + 1, b, d);
  }

  lemma Scale(a: int, b: int, d: int)
    requires a <= b && d >= 0
    ensures a * d <= b * d
  {
    assert (b - a) * d >= 0;
  }

  lemma StrictScale(a: int, b: int, d: int)
    requires a < b && d > 0
    ensures a * d < b * d
  {
    MulSign(b - a, d);
    assert (b - a) * d == b * d - a * d;
  }

  /** Equal quotients leave the comparison to the remainders. */
  lemma RemaindersDecide(x: Expansion, y: Expansion)
    requires Expanded(x) && Expanded(y) && x.q == y.q
    ensures Before(x, y) <==> x.r * y.d < y.r * x.d
    ensures Before(y, x) <==> y.r * x.d < x.r * y.d
  {
    Distribute(x.q * x.d, x.r, y.d);
    Distribute(y.q * y.d, y.r, x.d);
    SwapFactors(x.q, x.d, y.d);
  }

  lemma Distribute(a: int, b: int, c: int)
    ensures (a + b) * c == a * c + b * c
  {
  }

  /** C++ quotient and remainder of non-negative by positive. */
  function Expand(n: int, d: int): (x: Expansion)
    requires d > 0
  {
    Expansion(n, d, TruncDiv(n, d), TruncMod(n, d))
  }

  lemma NonNegativeExpansion(n: int, d: int)
    requires n >= 0 && d > 0
    ensures Expanded(Expand(n, d))
  {
    TruncDivMod(n, d);
  }

  /** `while (r < 0) { r += d; --q; }`. */
  method NormalizeModulus(x: Expansion) returns (y: Expansion)
    requires x.d > 0 && x.n == x.q * x.d + x.r && x.r < x.d
    ensures Expanded(y) && y.n == x.n && y.d == x.d
  {
    y := x;
    while y.r < 0
      invariant y.n == x.n && y.d == x.d && y.n == y.q * y.d + y.r && y.r < y.d
      decreases -y.r
    {
      assert (y.q - 1) * y.d == y.q * y.d - y.d;
      y := y.(r := y.r + y.d, q := y.q - 1);
    }
  }

  /** operator<(rational) on numerators a, c and positive denominators b, d. */
  method Less(a: int, b: int, c: int, d: int) returns (less: bool)
    requires b > 0 && d > 0
    ensures less <==> a * d < c * b
  {
    TruncDivMod(a, b);
    TruncDivMod(c, d);
    var ts := NormalizeModulus(Expand(a, b));
    var rs := NormalizeModulus(Expand(c, d));
    var reverse := false;
    while true
      invariant Expanded(ts) && Expanded(rs)
      invariant a * d < c * b <==> if reverse then Before(rs, ts) else Before(ts, rs)
      decreases ts.d
    {
      if ts.q != rs.q {
        if ts.q < rs.q { QuotientsDecide(ts, rs); } else { QuotientsDecide(rs, ts); }
        return if reverse then ts.q > rs.q else ts.q < rs.q;
      }
      RemaindersDecide(ts, rs);
      reverse := !reverse;
      if ts.r == 0 || rs.r == 0 { break; }
      // r / d < r' / d' exactly when d / r > d' / r'
      ghost var before := ts;
      assert ts.d * rs.r == rs.r * ts.d && rs.d * ts.r == ts.r * rs.d;
      NonNegativeExpansion(ts.d, ts.r);
      NonNegativeExpansion(rs.d, rs.r);
      ts := Expand(ts.d, ts.r);
      rs := Expand(rs.d, rs.r);
    }
    OneRemainderZero(ts, rs);
    if ts.r == rs.r {
      less := false;
    } else {
      less := (ts.r != 0) != reverse;
    }
  }

  lemma OneRemainderZero(x: Expansion, y: Expansion)
    requires Expanded(x) && Expanded(y) && (x.r == 0 || y.r == 0)
    ensures x.r * y.d < y.r * x.d <==> x.r == 0 && y.r != 0
    ensures y.r * x.d < x.r * y.d <==> y.r == 0 && x.r != 0
  {
    if y.r > 0 { MulSign(y.r, x.d); }
    if x.r > 0 { MulSign(x.r, y.d); }
  }

  /** operator<(integer): only the floor is compared. */
  method LessInteger(n: int, d: int, i: int) returns (less: bool)
    requires d > 0
    ensures less <==> n < i * d
  {
    TruncDivMod(n, d);
    var x := NormalizeModulus(Expand(n, d));
    less := x.q < i;
    if x.q < i {
      StepUp(x.q, i, d);
      assert (x.q + 1) * d == x.q * d + d;
    } else {
      Scale(i, x.q, d);
    }
  }
}
