/** boost::integer::gcd and lcm, and the number theory boost::rational rests on.

    `Gcd` is the specification: the non-negative common divisor that every common divisor
    divides.  The three algorithms of the source - the recursion `inner_gcd`, the two-phase
    Euclidean loop and the binary loop on unsigned values - are proved to compute it. */
module IntegerGcd {

  function Abs(x: int): nat { if x < 0 then -x else x }

  /** C++ division truncates toward zero; the remainder has the sign of the dividend. */
  function TruncDiv(a: int, b: int): int
    requires b != 0
  {
    if (a >= 0) == (b > 0) then Abs(a) / Abs(b) else -(Abs(a) / Abs(b) as int)
  }

  function TruncMod(a: int, b: int): int
    requires b != 0
  {
    if a >= 0 then Abs(a) % Abs(b) else -(Abs(a) % Abs(b) as int)
  }

  lemma TruncDivMod(a: int, b: int)
    requires b != 0
    ensures a == TruncDiv(a, b) * b + TruncMod(a, b)
    ensures Abs(TruncMod(a, b)) < Abs(b)
  {
    var q, r := Abs(a) / Abs(b), Abs(a) % Abs(b);
    assert Abs(a) == q * Abs(b) + r;
  }

  lemma TruncDivExact(b: int, k: int)
    requires b != 0
    ensures TruncDiv(b * k, b) == k
  {
    var a := b * k;
    TruncDivMod(a, b);
    var q, r := TruncDiv(a, b), TruncMod(a, b);
    assert b * (k - q) == r;
    SmallMultiple(b, k - q);
  }

  lemma MulSign(x: int, y: int)
    requires x > 0 && y > 0
    ensures x * y >= x && x * y >= y
  {
    assert x * y == x * (y - 1) + x == (x - 1) * y + y;
  }

  lemma AbsProduct(x: int, y: int)
    ensures Abs(x * y) == Abs(x) * Abs(y)
  {
    assert -x * y == -(x * y) == x * -y && -x * -y == x * y;
    if x != 0 && y != 0 { MulSign(Abs(x), Abs(y)); }
  }

  lemma SmallMultiple(b: int, k: int)
    requires Abs(b * k) < Abs(b)
    ensures k == 0
  {
    AbsProduct(b, k);
    if k != 0 && b != 0 { MulSign(Abs(b), Abs(k)); }
  }

  lemma Cancel(g: int, j: int, k: int)
    requires g != 0 && g * j == g * k
    ensures j == k
  {
    assert g * (j - k) == 0;
    SmallMultiple(g, j - k);
  }

  // ----- divisibility ----------------------------------------------------------------------

  predicate IsProduct(a: int, d: int, k: int) { a == d * k }

  ghost predicate Divides(d: int, a: int) { exists k :: IsProduct(a, d, k) }

  lemma QuotientOf(d: int, a: int) returns (k: int)
    requires Divides(d, a)
    ensures a == d * k
  {
    k :| IsProduct(a, d, k);
  }

  lemma DividesProduct(d: int, k: int)
    ensures Divides(d, d * k) && Divides(d, k * d)
  {
    assert IsProduct(d * k, d, k);
  }

  lemma DividesSum(d: int, a: int, x: int, b: int, y: int)
    requires Divides(d, a) && Divides(d, b)
    ensures Divides(d, a * x + b * y)
  {
    var j, k :| IsProduct(a, d, j) && IsProduct(b, d, k);
    assert a * x + b * y == d * (j * x + k * y) by {
      assert d * j * x == d * (j * x) && d * k * y == d * (k * y);
    }
    assert IsProduct(a * x + b * y, d, j * x + k * y);
  }

  lemma DividesScaled(c: int, d: int, a: int)
    requires Divides(d, a)
    ensures Divides(c * d, c * a)
  {
    var k :| IsProduct(a, d, k);
    assert c * (d * k) == c * d * k;
    assert IsProduct(c * a, c * d, k);
  }

  lemma DividesTransitive(a: int, b: int, c: int)
    requires Divides(a, b) && Divides(b, c)
    ensures Divides(a, c)
  {
    var j, k :| IsProduct(b, a, j) && IsProduct(c, b, k);
    assert c == a * (j * k);
    assert IsProduct(c, a, j * k);
  }

  lemma DividesNegated(d: int, a: int)
    ensures Divides(d, a) <==> Divides(d, -a)
    ensures Divides(d, a) <==> Divides(-d, a)
  {
    if Divides(d, a) {
      var k :| IsProduct(a, d, k);
      assert IsProduct(-a, d, -k) && IsProduct(a, -d, -k);
    }
    if Divides(d, -a) {
      var k :| IsProduct(-a, d, k);
      assert IsProduct(a, d, -k);
    }
    if Divides(-d, a) {
      var k :| IsProduct(a, -d, k);
      assert IsProduct(a, d, -k);
    }
  }

  lemma DividesBounds(d: int, a: int)
    requires Divides(d, a) && a != 0
    ensures d != 0 && Abs(d) <= Abs(a)
  {
    var k :| IsProduct(a, d, k);
    assert k != 0;
    if Abs(d) > Abs(a) { SmallMultiple(d, k); }
  }

  lemma DividesBoth(a: int, b: int)
    requires Divides(a, b) && Divides(b, a)
    ensures Abs(a) == Abs(b)
  {
    if a == 0 || b == 0 {
      var j, k :| IsProduct(b, a, j) && IsProduct(a, b, k);
    } else {
      DividesBounds(a, b);
      DividesBounds(b, a);
    }
  }

  // ----- the greatest common divisor -------------------------------------------------------

  function Euclid(a: nat, b: nat): nat
    decreases b
  {
    if b == 0 then a else Euclid(b, a % b)
  }

  function Gcd(a: int, b: int): nat { Euclid(Abs(a), Abs(b)) }

  /** Bezout's identity for the recursion. */
  lemma {:induction false} EuclidBezout(a: nat, b: nat) returns (x: int, y: int)
    ensures Euclid(a, b) == a * x + b * y
    ensures Divides(Euclid(a, b), a) && Divides(Euclid(a, b), b)
    decreases b
  {
    if b == 0 {
      x, y := 1, 0;
      assert IsProduct(a, a, 1) && IsProduct(0, a, 0);
    } else {
      var q, r := a / b, a % b;
      assert a == b * q + r;
      var u, v := EuclidBezout(b, r);
      x, y := v, u - q * v;
      var g := Euclid(b, r);
      assert g == b * u + (a - b * q) * v == a * v + b * (u - q * v) by {
        assert (a - b * q) * v == a * v - b * (q * v);
        assert b * (u - q * v) == b * u - b * (q * v);
      }
      DividesSum(g, b, q, r, 1);
    }
  }

  lemma Bezout(a: int, b: int) returns (x: int, y: int)
    ensures Gcd(a, b) == a * x + b * y
  {
    x, y := EuclidBezout(Abs(a), Abs(b));
    if a < 0 {
      assert -a * x == a * -x;
      x := -x;
    }
    if b < 0 {
      assert -b * y == b * -y;
      y := -y;
    }
  }

  /** Gcd divides both arguments, every common divisor divides it, and nothing else does. */
  lemma GcdIsGreatest(a: int, b: int)
    ensures Divides(Gcd(a, b), a) && Divides(Gcd(a, b), b)
    ensures forall d :: Divides(d, a) && Divides(d, b) ==> Divides(d, Gcd(a, b))
  {
    var u, v := EuclidBezout(Abs(a), Abs(b));
    DividesNegated(Gcd(a, b), a);
    DividesNegated(Gcd(a, b), b);
    var x, y := Bezout(a, b);
    forall d | Divides(d, a) && Divides(d, b) ensures Divides(d, Gcd(a, b)) {
      DividesSum(d, a, x, b, y);
    }
  }

  lemma GcdUnique(a: int, b: int, g: nat)
    requires Divides(g, a) && Divides(g, b)
    requires forall d :: Divides(d, a) && Divides(d, b) ==> Divides(d, g)
    ensures g == Gcd(a, b)
  {
    GcdIsGreatest(a, b);
    assert Divides(Gcd(a, b), g);
    assert Divides(g, Gcd(a, b));
    DividesBoth(g, Gcd(a, b));
  }

  /** Pairs with the same common divisors have the same gcd. */
  lemma GcdSame(a: int, b: int, c: int, d: int)
    requires forall m :: Divides(m, a) && Divides(m, b) <==> Divides(m, c) && Divides(m, d)
    ensures Gcd(a, b) == Gcd(c, d)
  {
    GcdIsGreatest(a, b);
    GcdUnique(c, d, Gcd(a, b));
  }

  lemma GcdSymmetric(a: int, b: int)
    ensures Gcd(a, b) == Gcd(b, a)
  {
    GcdSame(a, b, b, a);
  }

  /** Adding a multiple of one argument to the other keeps the gcd. */
  lemma GcdShift(a: int, b: int, k: int)
    ensures Gcd(a + b * k, b) == Gcd(a, b)
  {
    forall m ensures Divides(m, a + b * k) && Divides(m, b) <==> Divides(m, a) && Divides(m, b) {
      if Divides(m, a) && Divides(m, b) { DividesSum(m, a, 1, b, k); }
      if Divides(m, a + b * k) && Divides(m, b) {
        DividesSum(m, a + b * k, 1, b, -k);
        assert (a + b * k) * 1 + b * -k == a;
      }
    }
    GcdSame(a + b * k, b, a, b);
  }

  lemma GcdZero(a: int)
    ensures Gcd(a, 0) == Abs(a) && Gcd(0, a) == Abs(a)
  {
    GcdSymmetric(a, 0);
  }

  lemma GcdPositive(a: int, b: int)
    requires a != 0 || b != 0
    ensures Gcd(a, b) > 0
  {
    GcdIsGreatest(a, b);
    if Gcd(a, b) == 0 {
      var j, k :| IsProduct(a, 0, j) && IsProduct(b, 0, k);
    }
  }

  // ----- coprime numbers -------------------------------------------------------------------

  predicate Coprime(a: int, b: int) { Gcd(a, b) == 1 }

  lemma CoprimeFromCombination(a: int, b: int, x: int, y: int)
    requires a * x + b * y == 1
    ensures Coprime(a, b)
  {
    GcdIsGreatest(a, b);
    DividesSum(Gcd(a, b), a, x, b, y);
    DividesBounds(Gcd(a, b), 1);
  }

  lemma CoprimeSymmetric(a: int, b: int)
    requires Coprime(a, b)
    ensures Coprime(b, a)
  {
    GcdSymmetric(a, b);
  }

  /** Gauss: a factor coprime to the divisor can be cancelled. */
  lemma Gauss(a: int, b: int, c: int)
    requires Coprime(a, b) && Divides(a, b * c)
    ensures Divides(a, c)
  {
    var x, y := Bezout(a, b);
    var k :| IsProduct(b * c, a, k);
    GaussAlgebra(a, b, c, x, y, k);
    assert IsProduct(c, a, x * c + k * y);
  }

  lemma GaussAlgebra(a: int, b: int, c: int, x: int, y: int, k: int)
    requires a * x + b * y == 1 && b * c == a * k
    ensures c == a * (x * c + k * y)
  {
    assert c == (a * x) * c + (b * y) * c by { assert ((a * x) + (b * y)) * c == c; }
    assert (a * x) * c == a * (x * c);
    assert (b * y) * c == (b * c) * y == (a * k) * y == a * (k * y);
  }

  lemma CoprimeProduct(a: int, b: int, c: int)
    requires Coprime(a, c) && Coprime(b, c)
    ensures Coprime(a * b, c)
  {
    var x, y := Bezout(a, c);
    var u, v := Bezout(b, c);
    // a * x == 1 - c * y and b * u == 1 - c * v
    var w := v + y - c * y * v;
    ProductAlgebra(a, b, c, x, y, u, v);
    CoprimeFromCombination(a * b, c, x * u, w);
  }

  lemma ProductAlgebra(a: int, b: int, c: int, x: int, y: int, u: int, v: int)
    requires a * x + c * y == 1 && b * u + c * v == 1
    ensures a * b * (x * u) + c * (v + y - c * y * v) == 1
  {
    var p, q := c * y, c * v;
    assert a * b * (x * u) == (a * x) * (b * u) == (1 - p) * (1 - q) == 1 - p - q + p * q;
    assert c * (c * y * v) == p * q;
    assert c * (v + y - c * y * v) == c * v + c * y - c * (c * y * v);
  }

  lemma CoprimeFactor(a: int, d: int, c: int)
    requires Coprime(a, c) && Divides(d, a)
    ensures Coprime(d, c)
  {
    var k :| IsProduct(a, d, k);
    var x, y := Bezout(a, c);
    assert d * (k * x) + c * y == 1;
    CoprimeFromCombination(d, c, k * x, y);
  }

  /** Dividing both by their gcd leaves coprime numbers. */
  lemma CoprimeQuotients(a: int, b: int, p: int, q: int)
    requires Gcd(a, b) > 0 && a == Gcd(a, b) * p && b == Gcd(a, b) * q
    ensures Coprime(p, q)
  {
    var g := Gcd(a, b);
    var x, y := Bezout(a, b);
    assert g * (p * x + q * y) == g by {
      assert g * (p * x + q * y) == g * p * x + g * q * y;
    }
    Cancel(g, p * x + q * y, 1);
    CoprimeFromCombination(p, q, x, y);
  }

  // ----- the algorithms --------------------------------------------------------------------

  /** rational::inner_gcd. */
  function InnerGcd(a: int, b: int): int
    decreases Abs(b)
  {
    if b == 0 then a
    else
      TruncDivMod(a, b);
      InnerGcd(b, TruncMod(a, b))
  }

  lemma GcdRemainder(a: int, b: int)
    requires b != 0
    ensures Gcd(a, b) == Gcd(b, TruncMod(a, b)) == Gcd(TruncMod(a, b), b)
  {
    TruncDivMod(a, b);
    var q, r := TruncDiv(a, b), TruncMod(a, b);
    GcdShift(r, b, q);
    GcdSymmetric(r, b);
  }

  /** |inner_gcd(a, b)| is the greatest common divisor, whatever the signs. */
  lemma {:induction false} InnerGcdIsGcd(a: int, b: int)
    ensures Abs(InnerGcd(a, b)) == Gcd(a, b)
    decreases Abs(b)
  {
    if b != 0 {
      TruncDivMod(a, b);
      GcdRemainder(a, b);
      InnerGcdIsGcd(b, TruncMod(a, b));
    } else {
      GcdZero(a);
    }
  }

  /** gcd_euclidean: `b %= a` and `a %= b` in turn. */
  method GcdEuclidean(a0: int, b0: int) returns (g: int)
    ensures Abs(g) == Gcd(a0, b0)
  {
    var a, b := a0, b0;
    while true
      invariant Gcd(a, b) == Gcd(a0, b0)
      decreases Abs(a)
    {
      GcdZero(b);
      if a == 0 { return b; }
      GcdSymmetric(a, b);
      GcdRemainder(b, a);
      TruncDivMod(b, a);
      b := TruncMod(b, a);
      GcdZero(a);
      if b == 0 { GcdSymmetric(a, b); return a; }
      GcdSymmetric(a, b);
      GcdRemainder(a, b);
      TruncDivMod(a, b);
      a := TruncMod(a, b);
    }
  }

  /** gcd_integer. */
  method GcdInteger(a: int, b: int) returns (g: int)
    ensures g == Gcd(a, b)
  {
    g := GcdEuclidean(a, b);
    if g < 0 { g := -g; }
  }

  /** lcm_integer. */
  method LcmInteger(a: int, b: int) returns (m: int)
    ensures m == Lcm(a, b)
  {
    hide Gcd, TruncDiv;
    var temp := GcdEuclidean(a, b);
    if temp == 0 { return 0; }
    m := TruncDiv(a, temp) * b;
    if m < 0 { m := -m; }
    SignOfGcd(a, b, temp);
  }

  /** Dividing by the gcd with the wrong sign changes the sign of the quotient only. */
  lemma SignOfGcd(a: int, b: int, temp: int)
    requires temp != 0 && Abs(temp) == Gcd(a, b)
    ensures Abs(TruncDiv(a, temp) * b) == Abs(TruncDiv(a, Gcd(a, b)) * b)
  {
    hide Gcd, TruncDiv, Divides;
    var g := Gcd(a, b);
    GcdIsGreatest(a, b);
    var k := QuotientOf(g, a);
    TruncDivExact(g, k);
    if temp != g {
      NegatedProduct(g, k);
      TruncDivExact(temp, -k);
      NegatedProduct(k, b);
    }
  }

  lemma NegatedProduct(x: int, y: int)
    ensures -x * y == -(x * y) && -x * -y == x * y
  {
  }

  function Lcm(a: int, b: int): nat
  {
    if Gcd(a, b) == 0 then 0 else Abs(TruncDiv(a, Gcd(a, b)) * b)
  }

  /** The lcm is a common multiple and divides every other one; with the gcd it gives |a*b|. */
  lemma LcmIsLeast(a: int, b: int)
    ensures Divides(a, Lcm(a, b)) && Divides(b, Lcm(a, b))
    ensures forall m :: Divides(a, m) && Divides(b, m) ==> Divides(Lcm(a, b), m)
    ensures Gcd(a, b) * Lcm(a, b) == Abs(a * b)
  {
    var g := Gcd(a, b);
    if g == 0 {
      if a != 0 || b != 0 { GcdPositive(a, b); }
      assert IsProduct(0, 0, 0);
    } else {
      GcdIsGreatest(a, b);
      var p, q :| IsProduct(a, g, p) && IsProduct(b, g, q);
      TruncDivExact(g, p);
      LcmMultiple(a, b, g, p, q);
      forall m | Divides(a, m) && Divides(b, m) ensures Divides(Lcm(a, b), m) {
        LcmDividesMultiple(a, b, p, q, m);
      }
    }
  }

  lemma LcmMultiple(a: int, b: int, g: nat, p: int, q: int)
    requires g > 0 && a == g * p && b == g * q && Lcm(a, b) == Abs(p * b)
    ensures Divides(a, Lcm(a, b)) && Divides(b, Lcm(a, b)) && g * Lcm(a, b) == Abs(a * b)
  {
    hide Lcm;
    DividesProduct(b, p);
    assert p * b == a * q by { assert p * (g * q) == g * p * q; }
    DividesProduct(a, q);
    DividesNegated(a, p * b);
    DividesNegated(b, p * b);
    assert g * (p * b) == a * b;
    AbsProduct(g, p * b);
  }

  lemma LcmDividesMultiple(a: int, b: int, p: int, q: int, m: int)
    requires Gcd(a, b) > 0 && a == Gcd(a, b) * p && b == Gcd(a, b) * q && Lcm(a, b) == Abs(p * b)
    requires Divides(a, m) && Divides(b, m)
    ensures Divides(Lcm(a, b), m)
  {
    hide Lcm;
    CoprimeQuotients(a, b, p, q);
    var k := CommonQuotient(a, b, Gcd(a, b), p, q, m);
    Gauss(p, q, k);
    var t :| IsProduct(k, p, t);
    Reassociate(b, p, t);
    assert IsProduct(m, p * b, t);
    DividesNegated(p * b, m);
  }

  lemma Reassociate(b: int, p: int, t: int)
    ensures b * (p * t) == p * b * t
  {
  }

  lemma CommonQuotient(a: int, b: int, g: int, p: int, q: int, m: int) returns (k: int)
    requires g > 0 && a == g * p && b == g * q && Divides(a, m) && Divides(b, m)
    ensures m == b * k && Divides(p, q * k)
  {
    var j: int, i: int :| IsProduct(m, a, j) && IsProduct(m, b, i);
    k := i;
    assert g * (p * j) == g * (q * k) by {
      assert g * (p * j) == a * j && g * (q * k) == b * k;
    }
    Cancel(g, p * j, q * k);
    DividesProduct(p, j);
  }

  // ----- the binary algorithm for unsigned values ------------------------------------------

  function Pow2(k: nat): nat { if k == 0 then 1 else 2 * Pow2(k - 1) }

  lemma GcdDoubled(a: int, b: int)
    ensures Gcd(2 * a, 2 * b) == 2 * Gcd(a, b)
  {
    hide Divides, Gcd;
    var g := Gcd(a, b);
    GcdIsGreatest(a, b);
    DividesScaled(2, g, a);
    DividesScaled(2, g, b);
    var x, y := Bezout(a, b);
    DoubledCombination(a, b, x, y);
    forall d | Divides(d, 2 * a) && Divides(d, 2 * b) ensures Divides(d, 2 * g) {
      DividesSum(d, 2 * a, x, 2 * b, y);
    }
    GcdUnique(2 * a, 2 * b, 2 * g);
  }

  lemma DoubledCombination(a: int, b: int, x: int, y: int)
    ensures 2 * a * x + 2 * b * y == 2 * (a * x + b * y)
  {
  }

  /** A factor 2 of one argument does not count when the other is odd. */
  lemma GcdHalved(a: int, b: int)
    requires b % 2 == 1
    ensures Gcd(2 * a, b) == Gcd(a, b)
  {
    forall m ensures Divides(m, 2 * a) && Divides(m, b) <==> Divides(m, a) && Divides(m, b) {
      if Divides(m, a) {
        DividesProduct(a, 2);
        DividesTransitive(m, a, 2 * a);
      }
      if Divides(m, 2 * a) && Divides(m, b) {
        OddDivisor(m, b);
        Gauss(m, 2, a);
      }
    }
    GcdSame(2 * a, b, a, b);
  }

  lemma OddDivisor(m: int, b: int)
    requires b % 2 == 1 && Divides(m, b)
    ensures Coprime(m, 2)
  {
    var k :| IsProduct(b, m, k);
    EvenFactor(m, k);
    CoprimeFromCombination(m, 2, 1, -(m / 2));
  }

  lemma EvenFactor(m: int, k: int)
    ensures m % 2 == 0 ==> (m * k) % 2 == 0
  {
    if m % 2 == 0 { assert m * k == 2 * (m / 2 * k); }
  }

  lemma GcdDifference(a: int, b: int)
    ensures Gcd(a - b, b) == Gcd(a, b)
  {
    GcdShift(a, b, -1);
    assert a + b * -1 == a - b;
  }

  /** gcd_binary: common factors of two are shifted out, then the larger of two odd numbers is
      replaced by their difference until it vanishes. */
  method GcdBinary(u0: nat, v0: nat) returns (g: nat)
    ensures g == Gcd(u0, v0)
  {
    if u0 == 0 || v0 == 0 {
      GcdZero(u0);
      GcdZero(v0);
      return u0 + v0;
    }
    var u, v, shifts := ShiftOutTwos(u0, v0);
    var odd := GcdOfOdd(u, v);
    g := odd * Pow2(shifts);
  }

  /** The main loop, with r[which] the number to be made odd next. */
  method GcdOfOdd(u: nat, v: nat) returns (g: nat)
    requires u > 0 && v > 0 && (u % 2 == 1 || v % 2 == 1)
    ensures g == Gcd(u, v)
  {
    hide Gcd;
    var r := new nat[2];
    r[0], r[1] := u, v;
    var which := if u % 2 == 1 then 1 else 0;
    while true
      invariant which == 0 || which == 1
      invariant r[which] > 0 && r[1 - which] % 2 == 1
      invariant Gcd(r[0], r[1]) == Gcd(u, v)
      decreases r[which] + r[1 - which]
    {
      RemoveTwos(r, which);
      if r[1 - which] > r[which] { which := 1 - which; }
      SubtractSmaller(r, which);
      if r[which] == 0 { break; }
    }
    GcdZero(r[1 - which]);
    g := r[1 - which];
  }

  /** The larger of two odd numbers becomes their difference, which is even. */
  method SubtractSmaller(r: array<nat>, which: nat)
    requires r.Length == 2 && which < 2 && 0 < r[1 - which] <= r[which]
    modifies r
    ensures r[which] == old(r[which]) - old(r[1 - which]) && r[1 - which] == old(r[1 - which])
    ensures Gcd(r[0], r[1]) == old(Gcd(r[0], r[1]))
  {
    hide Gcd;
    GcdDifference(r[which], r[1 - which]);
    GcdSymmetric(r[0], r[1]);
    r[which] := r[which] - r[1 - which];
    GcdSymmetric(r[0], r[1]);
  }

  method ShiftOutTwos(u0: nat, v0: nat) returns (u: nat, v: nat, shifts: nat)
    requires u0 > 0 && v0 > 0
    ensures u > 0 && v > 0 && (u % 2 == 1 || v % 2 == 1)
    ensures Pow2(shifts) * Gcd(u, v) == Gcd(u0, v0)
  {
    u, v, shifts := u0, v0, 0;
    while u % 2 == 0 && v % 2 == 0
      invariant u > 0 && v > 0
      invariant Pow2(shifts) * Gcd(u, v) == Gcd(u0, v0)
      decreases u
    {
      GcdDoubled(u / 2, v / 2);
      assert 2 * (u / 2) == u && 2 * (v / 2) == v;
      DoublePow(shifts, Gcd(u / 2, v / 2));
      u, v, shifts := u / 2, v / 2, shifts + 1;
    }
  }

  lemma DoublePow(k: nat, g: nat)
    ensures Pow2(k + 1) * g == Pow2(k) * (2 * g)
  {
  }

  /** The inner loop: halve the chosen cell while it is even. */
  method RemoveTwos(r: array<nat>, which: nat)
    requires r.Length == 2 && which < 2 && r[which] > 0 && r[1 - which] % 2 == 1
    modifies r
    ensures r[which] % 2 == 1 && 0 < r[which] <= old(r[which]) && r[1 - which] == old(r[1 - which])
    ensures Gcd(r[0], r[1]) == old(Gcd(r[0], r[1]))
  {
    while r[which] % 2 == 0
      invariant 0 < r[which] <= old(r[which]) && r[1 - which] == old(r[1 - which])
      invariant Gcd(r[0], r[1]) == old(Gcd(r[0], r[1]))
      decreases r[which]
    {
      GcdHalved(r[which] / 2, r[1 - which]);
      assert 2 * (r[which] / 2) == r[which];
      GcdSymmetric(r[0], r[1]);
      r[which] := r[which] / 2;
      GcdSymmetric(r[0], r[1]);
    }
  }

  /** integer::gcd on a built-in signed type: the binary algorithm on the absolute values. */
  method GcdSigned(a: int, b: int) returns (g: int)
    ensures g == Gcd(a, b)
  {
    g := GcdBinary(Abs(a), Abs(b));
  }
}
