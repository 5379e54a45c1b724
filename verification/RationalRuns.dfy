/** Sequences of rational operations, and the gcd and lcm of rationals. */
module RationalRuns {
  import opened IntegerGcd
  import opened RationalArithmetic

  // ----- is_normalized ---------------------------------------------------------------------

  /** rational::is_normalized. */
  predicate IsNormalized(n: int, d: int) {
    d > 0 && (n != 0 || d == 1) && Abs(InnerGcd(n, d)) == 1
  }

  lemma IsNormalizedIsNormal(n: int, d: int)
    ensures IsNormalized(n, d) <==> Normal(Fraction(n, d))
  {
    InnerGcdIsGcd(n, d);
    GcdZero(d);
  }

  // ----- runs ------------------------------------------------------------------------------

  datatype Operation =
    | Plus(r: Fraction) | Minus(r: Fraction) | Times(r: Fraction) | Over(r: Fraction)
    | PlusInteger(i: int) | MinusInteger(i: int) | TimesInteger(i: int) | OverInteger(i: int)
    | StepUp | StepDown | Negate

  /** No zero divisor; rational operands are normal. */
  predicate Defined(op: Operation) {
    match op
    case Plus(r) => Normal(r)
    case Minus(r) => Normal(r)
    case Times(r) => Normal(r)
    case Over(r) => Normal(r) && r.n != 0
    case OverInteger(i) => i != 0
    case _ => true
  }

  /** The exact result, not reduced. */
  function Exact(op: Operation, f: Fraction): Fraction {
    match op
    case Plus(r) => Fraction(f.n * r.d + r.n * f.d, f.d * r.d)
    case Minus(r) => Fraction(f.n * r.d - r.n * f.d, f.d * r.d)
    case Times(r) => Fraction(f.n * r.n, f.d * r.d)
    case Over(r) => Fraction(f.n * r.d, f.d * r.n)
    case PlusInteger(i) => Fraction(f.n + i * f.d, f.d)
    case MinusInteger(i) => Fraction(f.n - i * f.d, f.d)
    case TimesInteger(i) => Fraction(f.n * i, f.d)
    case OverInteger(i) => Fraction(f.n, f.d * i)
    case StepUp => Fraction(f.n + f.d, f.d)
    case StepDown => Fraction(f.n - f.d, f.d)
    case Negate => Fraction(-f.n, f.d)
  }

  /** What each method of Rational does. */
  predicate Performs(op: Operation, before: Fraction, after: Fraction) {
    NormalFormOf(after, Exact(op, before).n, Exact(op, before).d)
  }

  /** Exact arithmetic all the way, never reducing. */
  function ExactRun(f: Fraction, ops: seq<Operation>): Fraction {
    if ops == [] then f else Exact(ops[|ops| - 1], ExactRun(f, ops[..|ops| - 1]))
  }

  predicate Same(f: Fraction, g: Fraction) { f.n * g.d == g.n * f.d }

  lemma SameTransitive(f: Fraction, g: Fraction, h: Fraction)
    requires Same(f, g) && Same(g, h) && g.d != 0
    ensures Same(f, h)
  {
    assert g.d * (f.n * h.d) == g.d * (h.n * f.d) by {
      assert g.d * (f.n * h.d) == f.n * g.d * h.d == g.n * f.d * h.d;
      assert g.d * (h.n * f.d) == h.n * g.d * f.d == g.n * h.d * f.d;
      assert g.n * f.d * h.d == g.n * h.d * f.d;
    }
    Cancel(g.d, f.n * h.d, h.n * f.d);
  }

  /** The exact operations respect equality of fractions: they map p / q to
      (a * p + b * q) / (c * q) for some a, b, c. */
  lemma LinearRespects(f: Fraction, g: Fraction, a: int, b: int, c: int)
    requires Same(f, g)
    ensures Same(Fraction(a * f.n + b * f.d, c * f.d), Fraction(a * g.n + b * g.d, c * g.d))
  {
    hide Coprime;
    var x, y := f.n * g.d, f.d * g.d;
    assert (a * f.n + b * f.d) * (c * g.d) == c * (a * x + b * y) by {
      assert (a * f.n + b * f.d) * g.d == a * x + b * y;
      assert (a * f.n + b * f.d) * (c * g.d) == c * ((a * f.n + b * f.d) * g.d);
    }
    assert (a * g.n + b * g.d) * (c * f.d) == c * (a * x + b * y) by {
      assert (a * g.n + b * g.d) * f.d == a * (g.n * f.d) + b * (g.d * f.d);
      assert (a * g.n + b * g.d) * (c * f.d) == c * ((a * g.n + b * g.d) * f.d);
    }
  }

  /** An operation is the linear map of its coefficients. */
  lemma ExactIsLinear(op: Operation, f: Fraction)
    ensures var (a, b, c) := Coefficients(op); Exact(op, f) == Fraction(a * f.n + b * f.d, c * f.d)
  {
    match op
    case Plus(r) => Commute(f.n, r.d); Commute(f.d, r.d);
    case Minus(r) => Commute(f.n, r.d); Commute(f.d, r.d); NegatedFactor(r.n, f.d);
    case Times(r) => Commute(f.n, r.n); Commute(f.d, r.d);
    case Over(r) => Commute(f.n, r.d); Commute(f.d, r.n);
    case MinusInteger(i) => NegatedFactor(i, f.d);
    case TimesInteger(i) => Commute(f.n, i);
    case OverInteger(i) => Commute(f.d, i);
    case _ =>
  }

  lemma Commute(x: int, y: int)
    ensures x * y == y * x
  {
  }

  lemma NonZeroScale(op: Operation)
    requires Defined(op)
    ensures Coefficients(op).2 != 0
  {
    hide Coprime;
  }

  function Coefficients(op: Operation): (int, int, int) {
    match op
    case Plus(r) => (r.d, r.n, r.d)
    case Minus(r) => (r.d, -r.n, r.d)
    case Times(r) => (r.n, 0, r.d)
    case Over(r) => (r.d, 0, r.n)
    case PlusInteger(i) => (1, i, 1)
    case MinusInteger(i) => (1, -i, 1)
    case TimesInteger(i) => (i, 0, 1)
    case OverInteger(i) => (1, 0, i)
    case StepUp => (1, 1, 1)
    case StepDown => (1, -1, 1)
    case Negate => (-1, 0, 1)
  }

  lemma ExactRespects(op: Operation, f: Fraction, g: Fraction)
    requires Defined(op) && Same(f, g) && f.d != 0 && g.d != 0
    ensures Same(Exact(op, f), Exact(op, g)) && Exact(op, f).d != 0 && Exact(op, g).d != 0
  {
    hide Exact, Coefficients, Defined;
    var (a, b, c) := Coefficients(op);
    ExactIsLinear(op, f);
    ExactIsLinear(op, g);
    NonZeroScale(op);
    LinearRespects(f, g, a, b, c);
    NonZeroProduct(c, f.d);
    NonZeroProduct(c, g.d);
  }

  /** Every run keeps the normal form and the exact mathematical value. */
  lemma {:induction false} RunIsExact(states: seq<Fraction>, ops: seq<Operation>)
    requires |states| == |ops| + 1 && Normal(states[0])
    requires forall i :: 0 <= i < |ops| ==> Defined(ops[i]) && Performs(ops[i], states[i], states[i + 1])
    ensures NormalFormOf(states[|ops|], ExactRun(states[0], ops).n, ExactRun(states[0], ops).d)
    decreases |ops|
  {
    hide Exact;
    if ops != [] {
      var n := |ops| - 1;
      RunIsExact(states[..n + 1], ops[..n]);
      var f, e, op := states[n], ExactRun(states[0], ops[..n]), ops[n];
      assert Performs(op, f, states[n + 1]);
      ExactRespects(op, f, e);
      SameTransitive(states[n + 1], Exact(op, f), Exact(op, e));
    }
  }

  /** Two runs with the same exact value end in the same components. */
  lemma RunsAgree(s: seq<Fraction>, ops: seq<Operation>, t: seq<Fraction>, ops': seq<Operation>)
    requires |s| == |ops| + 1 && Normal(s[0]) && |t| == |ops'| + 1 && Normal(t[0])
    requires forall i :: 0 <= i < |ops| ==> Defined(ops[i]) && Performs(ops[i], s[i], s[i + 1])
    requires forall i :: 0 <= i < |ops'| ==> Defined(ops'[i]) && Performs(ops'[i], t[i], t[i + 1])
    ensures s[|ops|] == t[|ops'|] <==> Same(ExactRun(s[0], ops), ExactRun(t[0], ops'))
  {
    RunIsExact(s, ops);
    RunIsExact(t, ops');
    hide ExactRun, Performs, Defined;
    var f, g, e, h := s[|ops|], t[|ops'|], ExactRun(s[0], ops), ExactRun(t[0], ops');
    NormalFormUnique(f, g);
    if Same(e, h) {
      SameTransitive(f, e, h);
      SameTransitive(f, h, g);
    }
    if f == g {
      assert Same(e, f);
      SameTransitive(e, f, h);
    }
  }

  /** One operation on the object itself. */
  method Apply(x: Rational, op: Operation)
    requires Normal(x.Value()) && Defined(op)
    modifies x
    ensures Performs(op, old(x.Value()), x.Value())
  {
    match op
    case Plus(r) =>
      var y := new Rational(r.n, r.d);
      x.AddAssign(y);
    case Minus(r) =>
      var y := new Rational(r.n, r.d);
      x.SubtractAssign(y);
    case Times(r) =>
      var y := new Rational(r.n, r.d);
      x.MultiplyAssign(y);
    case Over(r) =>
      var y := new Rational(r.n, r.d);
      var ok := x.DivideAssign(y);
    case PlusInteger(i) => x.AddInteger(i);
    case MinusInteger(i) => x.SubtractInteger(i);
    case TimesInteger(i) => x.MultiplyInteger(i);
    case OverInteger(i) => var ok := x.DivideInteger(i);
    case StepUp => x.Increment();
    case StepDown => x.Decrement();
    case Negate =>
      var y := x.Negated();
      x.num, x.den := y.num, y.den;
  }

  /** A whole run on the object: normal and exact at the end. */
  method ApplyAll(x: Rational, ops: seq<Operation>)
    requires Normal(x.Value()) && forall op :: op in ops ==> Defined(op)
    modifies x
    ensures NormalFormOf(x.Value(), ExactRun(old(x.Value()), ops).n, ExactRun(old(x.Value()), ops).d)
  {
    hide Exact;
    ghost var states := [x.Value()];
    var i := 0;
    while i < |ops|
      invariant 0 <= i <= |ops| && |states| == i + 1 && states[0] == old(x.Value()) && states[i] == x.Value()
      invariant Normal(x.Value())
      invariant forall j :: 0 <= j < i ==> Defined(ops[j]) && Performs(ops[j], states[j], states[j + 1])
    {
      Apply(x, ops[i]);
      states := states + [x.Value()];
      i := i + 1;
    }
    RunIsExact(states, ops);
  }

  // ----- gcd and lcm of rationals ------------------------------------------------------------

  predicate IsMultiple(x: Fraction, h: Fraction, k: int) { x.n * h.d == h.n * k * x.d }

  /** x is an integer multiple of h. */
  ghost predicate DividesFraction(h: Fraction, x: Fraction) { exists k :: IsMultiple(x, h, k) }

  /** gcd_evaluator<rational>. */
  method GcdOf(x: Rational, y: Rational) returns (r: Rational)
    requires Normal(x.Value()) && Normal(y.Value())
    ensures fresh(r) && NormalFormOf(r.Value(), Gcd(x.num, y.num), Lcm(x.den, y.den))
  {
    var n := GcdSigned(x.num, y.num);
    var d := LcmInteger(x.den, y.den);
    LcmPositive(x.den, y.den);
    r := new Rational(n, d);
    var ok := r.Normalize();
  }

  /** lcm_evaluator<rational>. */
  method LcmOf(x: Rational, y: Rational) returns (r: Rational)
    requires Normal(x.Value()) && Normal(y.Value())
    ensures fresh(r) && NormalFormOf(r.Value(), Lcm(x.num, y.num), Gcd(x.den, y.den))
  {
    var n := LcmInteger(x.num, y.num);
    var d := GcdSigned(x.den, y.den);
    GcdPositive(x.den, y.den);
    r := new Rational(n, d);
    var ok := r.Normalize();
  }

  lemma LcmPositive(b: int, d: int)
    requires b > 0 && d > 0
    ensures Lcm(b, d) > 0
  {
    hide Lcm;
    LcmIsLeast(b, d);
    MulSign(b, d);
  }

  /** A multiple built from the two halves. */
  lemma MultipleOf(g: Fraction, p: int, q: int, x: Fraction, s: int, t: int)
    requires NormalFormOf(g, p, q) && x.n == p * s && q == x.d * t
    ensures DividesFraction(g, x)
  {
    assert x.n * g.d == g.n * (s * t) * x.d by {
      assert p * s * g.d == s * (p * g.d) == s * (g.n * q);
      assert s * (g.n * (x.d * t)) == g.n * (s * t) * x.d;
    }
    assert IsMultiple(x, g, s * t);
  }

  lemma CommonDivisorParts(h: Fraction, x: Fraction)
    requires Normal(h) && Normal(x) && DividesFraction(h, x)
    ensures Divides(x.d, h.d) && Divides(h.n, x.n)
  {
    hide Coprime;
    var k :| IsMultiple(x, h, k);
    CoprimeSymmetric(x.n, x.d);
    BothFactors(x.n, h.d, h.n, k, x.d);
    Gauss(x.d, x.n, h.d);
    Gauss(h.n, h.d, x.n);
  }

  lemma BothFactors(a: int, q: int, p: int, k: int, b: int)
    requires a * q == p * k * b
    ensures Divides(b, a * q) && Divides(p, q * a)
  {
    assert IsProduct(a * q, b, p * k);
    assert p * k * b == p * (k * b);
    assert IsProduct(q * a, p, k * b);
  }

  /** The gcd divides both rationals, and every common divisor divides it. */
  lemma GcdOfRationals(x: Fraction, y: Fraction, g: Fraction)
    requires Normal(x) && Normal(y) && NormalFormOf(g, Gcd(x.n, y.n), Lcm(x.d, y.d))
    ensures DividesFraction(g, x) && DividesFraction(g, y)
    ensures forall h :: Normal(h) && DividesFraction(h, x) && DividesFraction(h, y) ==> DividesFraction(h, g)
  {
    hide Gcd, Lcm, DividesFraction;
    GcdIsGreatest(x.n, y.n);
    LcmIsLeast(x.d, y.d);
    GcdDividesOne(g, x, Gcd(x.n, y.n), Lcm(x.d, y.d));
    GcdDividesOne(g, y, Gcd(x.n, y.n), Lcm(x.d, y.d));
    forall h | Normal(h) && DividesFraction(h, x) && DividesFraction(h, y) ensures DividesFraction(h, g) {
      CommonDivisorParts(h, x);
      CommonDivisorParts(h, y);
      DividesNormalForm(h, g, Gcd(x.n, y.n), Lcm(x.d, y.d));
    }
  }

  lemma GcdDividesOne(g: Fraction, x: Fraction, p: int, q: int)
    requires NormalFormOf(g, p, q) && Divides(p, x.n) && Divides(x.d, q)
    ensures DividesFraction(g, x)
  {
    var s, t :| IsProduct(x.n, p, s) && IsProduct(q, x.d, t);
    MultipleOf(g, p, q, x, s, t);
  }

  lemma DividesNormalForm(h: Fraction, g: Fraction, p: int, q: int)
    requires NormalFormOf(g, p, q) && Divides(h.n, p) && Divides(q, h.d)
    ensures DividesFraction(h, g)
  {
    var t, s :| IsProduct(p, h.n, t) && IsProduct(h.d, q, s);
    MultipleAlgebra(g.n, q, s, h.n, t, g.d);
    assert IsMultiple(g, h, t * s);
  }

  lemma MultipleAlgebra(n: int, q: int, s: int, m: int, t: int, d: int)
    requires n * q == m * t * d
    ensures n * (q * s) == m * (t * s) * d
  {
    assert n * (q * s) == n * q * s == m * t * d * s;
    assert m * t * d * s == m * t * (s * d) == m * (t * s) * d;
  }

  /** The lcm is a common multiple, and divides every other one. */
  lemma LcmOfRationals(x: Fraction, y: Fraction, m: Fraction)
    requires Normal(x) && Normal(y) && NormalFormOf(m, Lcm(x.n, y.n), Gcd(x.d, y.d))
    ensures DividesFraction(x, m) && DividesFraction(y, m)
    ensures forall h :: Normal(h) && DividesFraction(x, h) && DividesFraction(y, h) ==> DividesFraction(m, h)
  {
    hide Gcd, Lcm, DividesFraction;
    LcmIsLeast(x.n, y.n);
    GcdIsGreatest(x.d, y.d);
    DividesNormalForm(x, m, Lcm(x.n, y.n), Gcd(x.d, y.d));
    DividesNormalForm(y, m, Lcm(x.n, y.n), Gcd(x.d, y.d));
    forall h | Normal(h) && DividesFraction(x, h) && DividesFraction(y, h) ensures DividesFraction(m, h) {
      CommonDivisorParts(x, h);
      CommonDivisorParts(y, h);
      GcdDividesOne(m, h, Lcm(x.n, y.n), Gcd(x.d, y.d));
    }
  }

  /** gcd times lcm is |x * y|. */
  lemma GcdTimesLcm(x: Fraction, y: Fraction, g: Fraction, m: Fraction)
    requires Normal(x) && Normal(y)
    requires NormalFormOf(g, Gcd(x.n, y.n), Lcm(x.d, y.d)) && NormalFormOf(m, Lcm(x.n, y.n), Gcd(x.d, y.d))
    ensures g.n * m.n * (x.d * y.d) == Abs(x.n * y.n) * (g.d * m.d)
  {
    hide Gcd, Lcm;
    LcmIsLeast(x.n, y.n);
    LcmIsLeast(x.d, y.d);
    MulSign(x.d, y.d);
    MultiplyEquations(g.n, Lcm(x.d, y.d), Gcd(x.n, y.n), g.d, m.n, Gcd(x.d, y.d), Lcm(x.n, y.n), m.d);
    assert Lcm(x.d, y.d) * Gcd(x.d, y.d) == Gcd(x.d, y.d) * Lcm(x.d, y.d);
  }

  lemma MultiplyEquations(a: int, l: int, p: int, b: int, c: int, g: int, q: int, d: int)
    requires a * l == p * b && c * g == q * d
    ensures a * c * (l * g) == p * q * (b * d)
  {
    SwapMiddle(a, c, l, g);
    SwapMiddle(p, q, b, d);
  }

  lemma SwapMiddle(a: int, c: int, l: int, g: int)
    ensures a * c * (l * g) == (a * l) * (c * g)
  {
    assert a * c * (l * g) == a * (c * (l * g)) == a * (l * (c * g));
  }
}
