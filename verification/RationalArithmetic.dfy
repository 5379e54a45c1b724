/** boost::rational over unbounded integers: construction, in-place arithmetic and equality.

    A fraction is normal when its denominator is positive and coprime to its numerator.  Every
    operation leaves the normal form of the exact result, although none of them normalises it. */
module RationalArithmetic {
  import opened IntegerGcd

  datatype Fraction = Fraction(n: int, d: int)

  predicate Normal(f: Fraction) { f.d > 0 && Coprime(f.n, f.d) }

  /** `f` is the normal form of p / q. */
  predicate NormalFormOf(f: Fraction, p: int, q: int) {
    q != 0 && Normal(f) && f.n * q == p * f.d
  }

  /** Normal forms are unique, so comparing components compares values. */
  lemma NormalFormUnique(f: Fraction, g: Fraction)
    requires Normal(f) && Normal(g)
    ensures f == g <==> f.n * g.d == g.n * f.d
  {
    if f.n * g.d == g.n * f.d {
      CoprimeSymmetric(f.n, f.d);
      CoprimeSymmetric(g.n, g.d);
      DividesProduct(f.d, g.n);
      assert f.n * g.d == f.d * g.n;
      Gauss(f.d, f.n, g.d);
      DividesProduct(g.d, f.n);
      assert g.n * f.d == g.d * f.n;
      Gauss(g.d, g.n, f.d);
      DividesBoth(f.d, g.d);
      Cancel(f.d, f.n, g.n);
    }
  }

  /** The numbers divided by their gcd, by truncating division. */
  lemma Quotients(a: int, b: int)
    requires b != 0
    ensures var g := Gcd(a, b);
      g > 0 && a == g * TruncDiv(a, g) && b == g * TruncDiv(b, g) && Coprime(TruncDiv(a, g), TruncDiv(b, g))
  {
    var g := Gcd(a, b);
    GcdPositive(a, b);
    GcdIsGreatest(a, b);
    var j, k :| IsProduct(a, g, j) && IsProduct(b, g, k);
    TruncDivExact(g, j);
    TruncDivExact(g, k);
    CoprimeQuotients(a, b, j, k);
  }

  lemma PositiveQuotient(g: int, k: int)
    requires g > 0 && g * k > 0
    ensures k > 0
  {
  }

  lemma CoprimeSigns(a: int, b: int)
    requires Coprime(a, b)
    ensures Coprime(-a, b) && Coprime(a, -b) && Coprime(-a, -b)
  {
  }

  // ----- sums ------------------------------------------------------------------------------

  /** The algorithm of += and -= on plain numbers, for c replaced by -c in the second case:
      only gcd(num, g) is divided out, yet the result is in normal form. */
  lemma SumIsNormal(a: int, b: int, c: int, d: int, b1: int, d1: int, num: int, num2: int, d2: int)
    requires b > 0 && d > 0 && Coprime(a, b) && Coprime(c, d)
    requires b == Gcd(b, d) * b1 && d == Gcd(b, d) * d1 && num == a * d1 + c * b1
    requires num == Gcd(num, Gcd(b, d)) * num2 && d == Gcd(num, Gcd(b, d)) * d2
    ensures NormalFormOf(Fraction(num2, b1 * d2), a * d + c * b, b * d)
  {
    hide Gcd, Coprime, Divides;
    var g := Gcd(b, d);
    var h := Gcd(num, g);
    GcdPositive(b, d);
    GcdPositive(num, g);
    PositiveQuotient(g, b1);
    PositiveQuotient(h, d2);
    MulSign(b1, d2);
    MulSign(b, d);
    SumValue(a, b, c, d, g, b1, d1, h, num, num2, d2);
    SumCoprime(a, b, c, d, b1, d1, num, num2, d2);
  }

  lemma SumCoprime(a: int, b: int, c: int, d: int, b1: int, d1: int, num: int, num2: int, d2: int)
    requires b > 0 && d > 0 && Coprime(a, b) && Coprime(c, d)
    requires b == Gcd(b, d) * b1 && d == Gcd(b, d) * d1 && num == a * d1 + c * b1
    requires num == Gcd(num, Gcd(b, d)) * num2 && d == Gcd(num, Gcd(b, d)) * d2
    ensures Coprime(num2, b1 * d2)
  {
    hide Gcd, Coprime, Divides;
    var g := Gcd(b, d);
    var h := Gcd(num, g);
    GcdPositive(b, d);
    GcdPositive(num, g);
    NumeratorCoprime(a, b, c, d, b1, d1, num);
    GcdIsGreatest(num, g);
    var k := QuotientOf(h, g);
    CofactorOf(d, g, h, d1, d2, k);
    CoprimeQuotients(num, g, num2, k);
    DividesProduct(num2, h);
    CoprimeFactor(num, num2, b1);
    CoprimeFactor(num, num2, d1);
    CoprimeToProduct(num2, d1, k);
    CoprimeToProduct(num2, b1, d2);
  }

  lemma CofactorOf(d: int, g: int, h: int, d1: int, d2: int, k: int)
    requires h > 0 && g == h * k && d == g * d1 && d == h * d2
    ensures d2 == d1 * k
  {
    ThreeAssociate(h, k, d1);
    Cancel(h, d2, k * d1);
  }

  lemma DifferenceIsNormal(a: int, b: int, c: int, d: int, b1: int, d1: int, num: int, num2: int, d2: int)
    requires b > 0 && d > 0 && Coprime(a, b) && Coprime(c, d)
    requires b == Gcd(b, d) * b1 && d == Gcd(b, d) * d1 && num == a * d1 - c * b1
    requires num == Gcd(num, Gcd(b, d)) * num2 && d == Gcd(num, Gcd(b, d)) * d2
    ensures NormalFormOf(Fraction(num2, b1 * d2), a * d - c * b, b * d)
  {
    hide NormalFormOf;
    CoprimeSigns(c, d);
    NegatedFactor(c, b1);
    NegatedFactor(c, b);
    SumIsNormal(a, b, -c, d, b1, d1, num, num2, d2);
  }

  lemma NegatedFactor(x: int, y: int)
    ensures -x * y == -(x * y)
  {
  }

  lemma CoprimeToProduct(a: int, b: int, c: int)
    requires Coprime(a, b) && Coprime(a, c)
    ensures Coprime(a, b * c)
  {
    CoprimeSymmetric(a, b);
    CoprimeSymmetric(a, c);
    CoprimeProduct(b, c, a);
    CoprimeSymmetric(b * c, a);
  }

  /** The unreduced numerator shares no factor with either cofactor of the denominators. */
  lemma NumeratorCoprime(a: int, b: int, c: int, d: int, b1: int, d1: int, num: int)
    requires b > 0 && d > 0 && Coprime(a, b) && Coprime(c, d)
    requires b == Gcd(b, d) * b1 && d == Gcd(b, d) * d1 && num == a * d1 + c * b1
    ensures Coprime(num, b1) && Coprime(num, d1)
  {
    GcdPositive(b, d);
    CoprimeQuotients(b, d, b1, d1);
    OneSideCoprime(a, b, Gcd(b, d), b1, d1, c, num);
    CoprimeSymmetric(b1, d1);
    assert num == c * b1 + a * d1;
    OneSideCoprime(c, d, Gcd(b, d), d1, b1, a, num);
  }

  lemma OneSideCoprime(a: int, b: int, g: int, b1: int, d1: int, c: int, num: int)
    requires Coprime(a, b) && b == g * b1 && Coprime(b1, d1) && num == a * d1 + c * b1
    ensures Coprime(num, b1)
  {
    CoprimeSymmetric(a, b);
    DividesProduct(b1, g);
    CoprimeFactor(b, b1, a);
    CoprimeSymmetric(b1, a);
    CoprimeSymmetric(b1, d1);
    CoprimeProduct(a, d1, b1);
    GcdShift(a * d1, b1, c);
    assert num == a * d1 + b1 * c;
  }

  lemma SumValue(a: int, b: int, c: int, d: int, g: int, b1: int, d1: int, h: int, num: int, num2: int, d2: int)
    requires b == g * b1 && d == g * d1 && num == a * d1 + c * b1 && num == h * num2 && d == h * d2
    ensures num2 * (b * d) == (a * d + c * b) * (b1 * d2)
  {
    assert a * d + c * b == g * num by {
      assert a * (g * d1) == g * (a * d1) && c * (g * b1) == g * (c * b1);
      assert g * (a * d1 + c * b1) == g * (a * d1) + g * (c * b1);
    }
    assert num2 * (b * d) == g * (num2 * b1 * d) by { ThreeFactors(num2, g, b1, d); }
    assert (g * num) * (b1 * d2) == g * (num2 * b1 * d) by {
      assert (h * num2) * (b1 * d2) == num2 * b1 * (h * d2) by { FourFactors(h, num2, b1, d2); }
      ThreeAssociate(g, num, b1 * d2);
    }
  }

  lemma ThreeFactors(x: int, g: int, y: int, z: int)
    ensures x * (g * y * z) == g * (x * y * z)
  {
    assert x * (g * y * z) == x * g * (y * z) == g * x * (y * z);
    assert g * (x * y * z) == g * (x * (y * z)) == g * x * (y * z);
  }

  lemma FourFactors(h: int, x: int, y: int, z: int)
    ensures (h * x) * (y * z) == x * y * (h * z)
  {
    assert (h * x) * (y * z) == h * (x * (y * z)) == h * (x * y * z);
    assert x * y * (h * z) == h * (x * y * z);
  }

  lemma ThreeAssociate(x: int, y: int, z: int)
    ensures (x * y) * z == x * (y * z)
  {
  }

  // ----- products and quotients ------------------------------------------------------------

  /** The algorithm of *=: cross-cancelling leaves nothing to reduce. */
  lemma ProductIsNormal(a: int, b: int, c: int, d: int, g1: int, g2: int, a1: int, d1: int, c1: int, b1: int)
    requires Coprime(a, b) && Coprime(c, d) && b > 0 && d > 0 && g1 > 0 && g2 > 0
    requires a == g1 * a1 && d == g1 * d1 && c == g2 * c1 && b == g2 * b1
    requires Coprime(a1, d1) && Coprime(c1, b1)
    ensures NormalFormOf(Fraction(a1 * c1, b1 * d1), a * c, b * d)
  {
    PositiveQuotient(g1, d1);
    PositiveQuotient(g2, b1);
    MulSign(b1, d1);
    MulSign(b, d);
    CrossCoprime(a, b, g1, a1, g2, b1);
    CrossCoprime(c, d, g2, c1, g1, d1);
    CoprimeToProduct(a1, b1, d1);
    CoprimeToProduct(c1, b1, d1);
    CoprimeProduct(a1, c1, b1 * d1);
    ProductValue(a1, b1, c1, d1, g1, g2);
  }

  lemma CrossCoprime(a: int, b: int, g: int, a1: int, h: int, b1: int)
    requires Coprime(a, b) && a == g * a1 && b == h * b1
    ensures Coprime(a1, b1)
  {
    DividesProduct(a1, g);
    CoprimeFactor(a, a1, b);
    CoprimeSymmetric(a1, b);
    DividesProduct(b1, h);
    CoprimeFactor(b, b1, a1);
    CoprimeSymmetric(b1, a1);
  }

  lemma ProductValue(a1: int, b1: int, c1: int, d1: int, g1: int, g2: int)
    ensures a1 * c1 * (g2 * b1 * (g1 * d1)) == g1 * a1 * (g2 * c1) * (b1 * d1)
  {
    var x, y, z := a1 * c1, b1 * d1, g1 * g2;
    assert g2 * b1 * (g1 * d1) == z * y by { FourFactors(g2, b1, g1, d1); assert b1 * g1 * (g2 * d1) == z * y; }
    assert g1 * a1 * (g2 * c1) == z * x by { FourFactors(g1, a1, g2, c1); assert a1 * g2 * (g1 * c1) == z * x; }
    assert x * (z * y) == (z * x) * y;
  }

  class Rational {
    var num: int
    var den: int

    /** The value as given; `Normalize` follows in the source's two-argument constructor. */
    constructor (n: int, d: int)
      ensures num == n && den == d
    {
      num, den := n, d;
    }

    function Value(): Fraction
      reads this
    {
      Fraction(num, den)
    }

    /** normalize; false stands for the bad_rational exception. */
    method Normalize() returns (ok: bool)
      modifies this
      ensures ok <==> old(den) != 0
      ensures ok ==> NormalFormOf(Value(), old(num), old(den))
      ensures !ok ==> Value() == old(Value())
    {
      if den == 0 { return false; }
      if num == 0 {
        den := 1;
        GcdZero(1);
        return true;
      }
      ghost var n, d := num, den;
      Quotients(num, den);
      var g := GcdSigned(num, den);
      num := TruncDiv(num, g);
      den := TruncDiv(den, g);
      SignedNormalForm(n, d, g, num, den);
      if den < 0 {
        num := -num;
        den := -den;
      }
      ok := true;
    }

    /** operator+=(rational), also when r is this object. */
    method AddAssign(r: Rational)
      requires Normal(Value()) && Normal(r.Value())
      modifies this
      ensures NormalFormOf(Value(), old(num) * old(r.den) + old(r.num) * old(den), old(den) * old(r.den))
    {
      hide Coprime;
      var rNum, rDen := r.num, r.den;
      ghost var a, b := num, den;
      Quotients(den, rDen);
      var g := GcdSigned(den, rDen);
      den := TruncDiv(den, g);
      num := num * TruncDiv(rDen, g) + rNum * den;
      ghost var sum := num;
      ghost var d1 := TruncDiv(rDen, g);
      Quotients(num, g);
      g := GcdSigned(num, g);
      DividesDenominator(b, rDen, sum);
      num := TruncDiv(num, g);
      SumIsNormal(a, b, rNum, rDen, den, d1, sum, num, TruncDiv(rDen, g));
      den := den * TruncDiv(rDen, g);
    }

    /** operator-=(rational), also when r is this object. */
    method SubtractAssign(r: Rational)
      requires Normal(Value()) && Normal(r.Value())
      modifies this
      ensures NormalFormOf(Value(), old(num) * old(r.den) - old(r.num) * old(den), old(den) * old(r.den))
    {
      hide Coprime;
      var rNum, rDen := r.num, r.den;
      ghost var a, b := num, den;
      Quotients(den, rDen);
      var g := GcdSigned(den, rDen);
      den := TruncDiv(den, g);
      num := num * TruncDiv(rDen, g) - rNum * den;
      ghost var sum := num;
      ghost var d1 := TruncDiv(rDen, g);
      Quotients(num, g);
      g := GcdSigned(num, g);
      DividesDenominator(b, rDen, sum);
      num := TruncDiv(num, g);
      DifferenceIsNormal(a, b, rNum, rDen, den, d1, sum, num, TruncDiv(rDen, g));
      den := den * TruncDiv(rDen, g);
    }

    /** operator*=(rational). */
    method MultiplyAssign(r: Rational)
      requires Normal(Value()) && Normal(r.Value())
      modifies this
      ensures NormalFormOf(Value(), old(num) * old(r.num), old(den) * old(r.den))
    {
      hide Coprime;
      var rNum, rDen := r.num, r.den;
      Quotients(num, rDen);
      Quotients(rNum, den);
      var gcd1 := GcdSigned(num, rDen);
      var gcd2 := GcdSigned(rNum, den);
      ProductIsNormal(num, den, rNum, rDen, gcd1, gcd2, TruncDiv(num, gcd1), TruncDiv(rDen, gcd1), TruncDiv(rNum, gcd2), TruncDiv(den, gcd2));
      num := TruncDiv(num, gcd1) * TruncDiv(rNum, gcd2);
      den := TruncDiv(den, gcd2) * TruncDiv(rDen, gcd1);
    }

    /** operator/=(rational); false stands for the bad_rational exception. */
    method DivideAssign(r: Rational) returns (ok: bool)
      requires Normal(Value()) && Normal(r.Value())
      modifies this
      ensures ok <==> old(r.num) != 0
      ensures ok ==> NormalFormOf(Value(), old(num) * old(r.den), old(den) * old(r.num))
      ensures !ok ==> Value() == old(Value())
    {
      var rNum, rDen := r.num, r.den;
      if rNum == 0 { return false; }
      NonZeroProduct(den, rNum);
      if num == 0 { return true; }
      hide Coprime;
      Quotients(num, rNum);
      Quotients(rDen, den);
      var gcd1 := GcdSigned(num, rNum);
      var gcd2 := GcdSigned(rDen, den);
      QuotientIsNormal(num, den, rNum, rDen, gcd1, gcd2, TruncDiv(num, gcd1), TruncDiv(rNum, gcd1), TruncDiv(rDen, gcd2), TruncDiv(den, gcd2));
      num := TruncDiv(num, gcd1) * TruncDiv(rDen, gcd2);
      den := TruncDiv(den, gcd2) * TruncDiv(rNum, gcd1);
      if den < 0 {
        num := -num;
        den := -den;
      }
      ok := true;
    }

    // ----- operations with an integer ------------------------------------------------------

    method AddInteger(i: int)
      requires Normal(Value())
      modifies this
      ensures NormalFormOf(Value(), old(num) + i * old(den), old(den))
    {
      GcdShift(num, den, i);
      assert num + i * den == num + den * i;
      num := num + i * den;
    }

    method SubtractInteger(i: int)
      requires Normal(Value())
      modifies this
      ensures NormalFormOf(Value(), old(num) - i * old(den), old(den))
    {
      GcdShift(num, den, -i);
      assert num - i * den == num + den * -i;
      num := num - i * den;
    }

    method MultiplyInteger(i: int)
      requires Normal(Value())
      modifies this
      ensures NormalFormOf(Value(), old(num) * i, old(den))
    {
      hide Coprime;
      Quotients(i, den);
      var gcd := GcdSigned(i, den);
      IntegerProduct(num, den, i, gcd, TruncDiv(i, gcd), TruncDiv(den, gcd));
      num := num * TruncDiv(i, gcd);
      den := TruncDiv(den, gcd);
    }

    method DivideInteger(i: int) returns (ok: bool)
      requires Normal(Value())
      modifies this
      ensures ok <==> i != 0
      ensures ok ==> NormalFormOf(Value(), old(num), old(den) * i)
      ensures !ok ==> Value() == old(Value())
    {
      if i == 0 { return false; }
      NonZeroProduct(den, i);
      if num == 0 { return true; }
      hide Coprime;
      Quotients(num, i);
      var gcd := GcdSigned(num, i);
      IntegerQuotient(num, den, i, gcd, TruncDiv(num, gcd), TruncDiv(i, gcd));
      num := TruncDiv(num, gcd);
      den := den * TruncDiv(i, gcd);
      if den < 0 {
        num := -num;
        den := -den;
      }
      ok := true;
    }

    method Increment()
      requires Normal(Value())
      modifies this
      ensures NormalFormOf(Value(), old(num) + old(den), old(den))
    {
      GcdShift(num, den, 1);
      num := num + den;
    }

    method Decrement()
      requires Normal(Value())
      modifies this
      ensures NormalFormOf(Value(), old(num) - old(den), old(den))
    {
      GcdDifference(num, den);
      num := num - den;
    }

    /** Unary minus: a new rational, through the normalising constructor. */
    method Negated() returns (r: Rational)
      requires Normal(Value())
      ensures fresh(r) && NormalFormOf(r.Value(), -num, den)
    {
      r := new Rational(-num, den);
      var ok := r.Normalize();
    }
  }

  lemma NonZeroProduct(x: int, y: int)
    requires x != 0 && y != 0
    ensures x * y != 0
  {
    AbsProduct(x, y);
    MulSign(Abs(x), Abs(y));
  }

  lemma QuotientIsNormal(a: int, b: int, c: int, d: int, g1: int, g2: int, a1: int, c1: int, d1: int, b1: int)
    requires Coprime(a, b) && Coprime(c, d) && b > 0 && d > 0 && g1 > 0 && g2 > 0 && c != 0
    requires a == g1 * a1 && c == g1 * c1 && d == g2 * d1 && b == g2 * b1
    requires Coprime(a1, c1) && Coprime(d1, b1)
    ensures var p, q := a1 * d1, b1 * c1;
      NormalFormOf(if q < 0 then Fraction(-p, -q) else Fraction(p, q), a * d, b * c)
  {
    CrossCoprime(a, b, g1, a1, g2, b1);
    CrossCoprime(c, d, g1, c1, g2, d1);
    CoprimeSymmetric(c1, d1);
    CoprimeToProduct(a1, b1, c1);
    CoprimeToProduct(d1, b1, c1);
    CoprimeProduct(a1, d1, b1 * c1);
    NonZeroProduct(b, c);
    ScaledBoth(a1, d1, g1, g2);
    ScaledBoth(c1, b1, g1, g2);
    assert b * c == c * b && b1 * c1 == c1 * b1;
    SignedNormalForm(a * d, b * c, g1 * g2, a1 * d1, b1 * c1);
  }

  lemma ScaledBoth(x: int, y: int, g1: int, g2: int)
    ensures g1 * x * (g2 * y) == g1 * g2 * (x * y)
  {
    FourFactors(g1, x, g2, y);
    assert x * g2 * (g1 * y) == g1 * g2 * (x * y);
  }

  lemma IntegerProduct(a: int, b: int, i: int, g: int, i1: int, b1: int)
    requires Coprime(a, b) && b > 0 && g > 0 && i == g * i1 && b == g * b1 && Coprime(i1, b1)
    ensures NormalFormOf(Fraction(a * i1, b1), a * i, b)
  {
    hide Gcd, Coprime;
    PositiveQuotient(g, b1);
    CrossCoprime(a, b, 1, a, g, b1);
    CoprimeProduct(a, i1, b1);
    MiddleFactor(a, i1, g, b1);
  }

  lemma MiddleFactor(a: int, x: int, g: int, y: int)
    ensures a * x * (g * y) == a * (g * x) * y
  {
    ThreeAssociate(a, x, g * y);
    ThreeAssociate(a, g * x, y);
    assert x * (g * y) == g * x * y;
  }

  lemma IntegerQuotient(a: int, b: int, i: int, g: int, a1: int, i1: int)
    requires Coprime(a, b) && b > 0 && g > 0 && i != 0 && a == g * a1 && i == g * i1 && Coprime(a1, i1)
    ensures var p, q := a1, b * i1;
      NormalFormOf(if q < 0 then Fraction(-p, -q) else Fraction(p, q), a, b * i)
  {
    CrossCoprime(a, b, g, a1, 1, b);
    CoprimeToProduct(a1, b, i1);
    NonZeroProduct(b, i);
    assert b * i == g * (b * i1) by { assert b * (g * i1) == g * (b * i1); }
    SignedNormalForm(a, b * i, g, a1, b * i1);
  }

  lemma SignedNormalForm(n: int, d: int, g: int, p: int, q: int)
    requires d != 0 && n == g * p && d == g * q && Coprime(p, q)
    ensures q != 0
    ensures NormalFormOf(if q < 0 then Fraction(-p, -q) else Fraction(p, q), n, d)
  {
    assert p * d == n * q by { assert p * (g * q) == g * p * q; }
    NegatedFactor(p, d);
    NegatedFactor(q, n);
    CoprimeSigns(p, q);
  }

  /** gcd(num, g) divides the right denominator, so the last division of += is exact. */
  lemma DividesDenominator(b: int, d: int, num: int)
    requires b > 0 && d > 0
    ensures var h := Gcd(num, Gcd(b, d)); h > 0 && d == h * TruncDiv(d, h)
  {
    var g := Gcd(b, d);
    GcdPositive(b, d);
    var h := Gcd(num, g);
    GcdPositive(num, g);
    GcdIsGreatest(num, g);
    GcdIsGreatest(b, d);
    DividesTransitive(h, g, d);
    var k :| IsProduct(d, h, k);
    TruncDivExact(h, k);
  }
}
