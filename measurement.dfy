/**
 * The `Measurement` value type: a value with its uncertainty and display precision,
 * first-order propagation of the uncertainty through arithmetic, comparison by
 * central value, and the significant-figure rendering "value ± uncertainty".
 *
 * mpmath's square root, `str()` of an mpf and the `nstr` formatter are library code;
 * they are the three fields of a `Context` that every operation that needs them receives.
 */
module Measurements {
  import opened Wrappers
  import opened Numerals

  datatype Measurement = Measurement(
    value: real,
    uncertainty: real,
    decimals: int,      // v_decimals
    sigDigits: int,     // v_significant_digits
    uncSigDigits: int   // u_significant_digits
  )

  datatype Error = PrecisionUnspecified | DivisionByZero

  /** What a Python call does: return an object, fall through and return None, or raise. */
  datatype Outcome<T> = Returns(result: T) | ReturnsNone | Raises(error: Error)

  /** The right operand of an operator: a Measurement, a plain number (int, float or mpf), or anything else. */
  datatype Operand = M(m: Measurement) | S(k: real) | Unsupported

  /** The central value of a supported operand: its `value`, or the number itself. */
  function Central(other: Operand): real
    requires !other.Unsupported?
  {
    if other.M? then other.m.value else other.k
  }

  /**
   * The library functions the type calls: `mp.sqrt`, `str()` of an mpf, and
   * `mp.nstr(x, n, strip_zeros=False)` in fixed notation, for a digit count n of at least 1.
   * With `strip_zeros=True` mpmath prints the same numeral passed through `StripZeros`.
   */
  datatype Context = Context(sqrt: real -> real, str: real -> string, nstr: (real, int) -> Numeral)

  /** `sqrt` returns the non-negative square root of every non-negative number. */
  ghost predicate ExactSqrt(sqrt: real -> real)
  {
    forall x: real :: 0.0 <= x ==> 0.0 <= sqrt(x) && sqrt(x) * sqrt(x) == x
  }

  function Sq(x: real): real
  {
    x * x
  }

  function Min(a: int, b: int): (r: int)
    ensures r <= a && r <= b && (r == a || r == b)
  {
    if a <= b then a else b
  }

  // ---------------------------------------------------------------------------
  // Construction and precision bookkeeping
  // ---------------------------------------------------------------------------

  /** `len(str(x).split('.')[0])`: the characters of `str(x)` before its first point, sign included. */
  function IntPartLen(ctx: Context, x: real): (r: nat)
    ensures r <= |ctx.str(x)| && '.' !in ctx.str(x)[..r]
    ensures r < |ctx.str(x)| <==> '.' in ctx.str(x)
    ensures r < |ctx.str(x)| ==> ctx.str(x)[r] == '.'
  {
    SplitFirst(ctx.str(x), '.');
    |Split(ctx.str(x), '.')[0]|
  }

  /** v_significant_digits as derived from v_decimals; for no decimals, `len(str(int(floor(value))))`. */
  function SigFromDecimals(ctx: Context, value: real, decimals: int): int
  {
    if decimals == 0 then IntLen(value.Floor) else IntPartLen(ctx, value) + decimals
  }

  /** v_decimals as derived from v_significant_digits: the digits asked for past the integer part, none without a point. */
  function DecimalsFromSig(ctx: Context, value: real, sigDigits: int): nat
  {
    if '.' in ctx.str(value) then
      if sigDigits > IntPartLen(ctx, value) then sigDigits - IntPartLen(ctx, value) else 0
    else
      0
  }

  /** Whenever decimals are shown, the significant digits are the integer-part characters plus the decimals. */
  predicate PrecisionConsistent(ctx: Context, m: Measurement)
  {
    m.decimals > 0 ==> m.sigDigits == IntPartLen(ctx, m.value) + m.decimals
  }

  /** `Measurement(value, uncertainty, v_decimals, v_significant_digits, u_significant_digits)`. */
  function New(ctx: Context, value: real, uncertainty: real, decimals: Option<int>, sigDigits: Option<int>, uncSigDigits: Option<int>)
    : (r: Outcome<Measurement>)
    ensures r.Raises? <==> decimals.None? && sigDigits.None?
    ensures r.Raises? ==> r.error == PrecisionUnspecified
    ensures !r.ReturnsNone?
    ensures r.Returns? ==> r.result.value == value && r.result.uncertainty == uncertainty
    ensures r.Returns? ==> r.result.uncSigDigits == (if uncSigDigits.Some? then uncSigDigits.value else 1)
    ensures r.Returns? ==> PrecisionConsistent(ctx, r.result)
    // a supplied significant-digit count wins over supplied decimals
    ensures sigDigits.Some? ==> r.Returns? && r.result.sigDigits == sigDigits.value && r.result.decimals >= 0
    ensures sigDigits.Some? ==>
      (r.result.decimals == 0 <==> '.' !in ctx.str(value) || sigDigits.value <= IntPartLen(ctx, value))
    ensures sigDigits.None? && decimals.Some? ==> r.Returns? && r.result.decimals == decimals.value
    ensures sigDigits.None? && decimals.Some? ==> r.result.sigDigits == SigFromDecimals(ctx, value, decimals.value)
    ensures sigDigits.None? && decimals == Some(0) ==> r.result.sigDigits == |IntToString(value.Floor)|
  {
    if decimals.None? && sigDigits.None? then
      Raises(PrecisionUnspecified)
    else
      var usig := if uncSigDigits.Some? then uncSigDigits.value else 1;
      if sigDigits.Some? then
        Returns(Measurement(value, uncertainty, DecimalsFromSig(ctx, value, sigDigits.value), sigDigits.value, usig))
      else
        Returns(Measurement(value, uncertainty, decimals.value, SigFromDecimals(ctx, value, decimals.value), usig))
  }

  /** `Measurement(value, uncertainty, v_decimals = d)`, as the additive operators build their results. */
  function WithDecimals(ctx: Context, value: real, uncertainty: real, d: int): Measurement
  {
    Measurement(value, uncertainty, d, SigFromDecimals(ctx, value, d), 1)
  }

  /** `Measurement(value, uncertainty, v_significant_digits = s)`, as the multiplicative operators build theirs. */
  function WithSigDigits(ctx: Context, value: real, uncertainty: real, s: int): Measurement
  {
    Measurement(value, uncertainty, DecimalsFromSig(ctx, value, s), s, 1)
  }

  /** The operators' shorthand constructors are the constructor called with one precision argument. */
  lemma ShorthandsAreNew(ctx: Context, value: real, uncertainty: real, n: int)
    ensures New(ctx, value, uncertainty, Some(n), None, None) == Returns(WithDecimals(ctx, value, uncertainty, n))
    ensures New(ctx, value, uncertainty, None, Some(n), None) == Returns(WithSigDigits(ctx, value, uncertainty, n))
  {
  }

  /** Decimals -> significant digits -> decimals gives back positive decimals when str() shows a point. */
  lemma DecimalsRoundTrip(ctx: Context, value: real, uncertainty: real, d: int)
    requires d > 0 && '.' in ctx.str(value)
    ensures WithSigDigits(ctx, value, uncertainty, WithDecimals(ctx, value, uncertainty, d).sigDigits).decimals == d
  {
  }

  /**
   * With no decimals the round trip holds when str() prints `str(int(floor(value)))` before
   * the point, as it does for a non-negative value in fixed notation.
   */
  lemma WholeRoundTrip(ctx: Context, value: real, uncertainty: real)
    requires '.' in ctx.str(value)
    requires Split(ctx.str(value), '.')[0] == IntToString(value.Floor)
    ensures WithSigDigits(ctx, value, uncertainty, WithDecimals(ctx, value, uncertainty, 0).sigDigits).decimals == 0
  {
  }

  /** Significant digits -> decimals -> significant digits gives back the digits when they reach past the point. */
  lemma SigDigitsRoundTrip(ctx: Context, value: real, uncertainty: real, s: int)
    requires '.' in ctx.str(value) && s > IntPartLen(ctx, value)
    ensures WithDecimals(ctx, value, uncertainty, WithSigDigits(ctx, value, uncertainty, s).decimals).sigDigits == s
  {
  }

  /**
   * For a negative non-integer `str(int(floor(value)))` is one longer than the integer part
   * str() prints: -9.5 with no decimals gets 3 significant digits, which give back 1 decimal.
   */
  lemma NegativeValueRoundTripFails(ctx: Context)
    requires ctx.str(-9.5) == "-9.5"
    ensures WithDecimals(ctx, -9.5, 1.0, 0).sigDigits == 3
    ensures WithSigDigits(ctx, -9.5, 1.0, 3).decimals == 1
  {
    assert (-9.5).Floor == -10;
    assert DigitCount(10) == 2;
    SplitAtSeparator("-9", "5", '.');
    assert "-9" + ['.'] + "5" == "-9.5";
  }

  // ---------------------------------------------------------------------------
  // Additive operators
  // ---------------------------------------------------------------------------

  /** `m + other`, and `other + m` through `__radd__`, whose body is the same. */
  function Add(ctx: Context, m: Measurement, other: Operand): (r: Outcome<Measurement>)
    ensures r.ReturnsNone? <==> other.Unsupported?
    ensures !r.Raises?
    ensures r.Returns? ==> r.result.value == m.value + Central(other)
    ensures r.Returns? ==> r.result.uncSigDigits == 1 && PrecisionConsistent(ctx, r.result)
    ensures other.M? ==> r.result.decimals == Min(m.decimals, other.m.decimals)
    ensures other.S? ==> r.result.uncertainty == m.uncertainty && r.result.decimals == m.decimals
    ensures r.Returns? ==> r.result.sigDigits == SigFromDecimals(ctx, r.result.value, r.result.decimals)
  {
    match other
    case M(o) =>
      Returns(WithDecimals(ctx, m.value + o.value, ctx.sqrt(Sq(m.uncertainty) + Sq(o.uncertainty)), Min(m.decimals, o.decimals)))
    case S(k) =>
      Returns(WithDecimals(ctx, m.value + k, m.uncertainty, m.decimals))
    case Unsupported =>
      ReturnsNone
  }

  /** `m - other`. */
  function Sub(ctx: Context, m: Measurement, other: Operand): (r: Outcome<Measurement>)
    ensures r.ReturnsNone? <==> other.Unsupported?
    ensures !r.Raises?
    ensures r.Returns? ==> r.result.value == m.value - Central(other)
    ensures r.Returns? ==> r.result.uncSigDigits == 1 && PrecisionConsistent(ctx, r.result)
    ensures other.M? ==> r.result.decimals == Min(m.decimals, other.m.decimals)
    ensures other.S? ==> r.result.uncertainty == m.uncertainty && r.result.decimals == m.decimals
    ensures r.Returns? ==> r.result.sigDigits == SigFromDecimals(ctx, r.result.value, r.result.decimals)
  {
    match other
    case M(o) =>
      Returns(WithDecimals(ctx, m.value - o.value, ctx.sqrt(Sq(m.uncertainty) + Sq(o.uncertainty)), Min(m.decimals, o.decimals)))
    case S(k) =>
      Returns(WithDecimals(ctx, m.value - k, m.uncertainty, m.decimals))
    case Unsupported =>
      ReturnsNone
  }

  /** The sum of two measurements carries the quadrature sum of their uncertainties. */
  lemma AddQuadrature(ctx: Context, a: Measurement, b: Measurement)
    requires ExactSqrt(ctx.sqrt)
    ensures Add(ctx, a, M(b)).result.uncertainty >= 0.0
    ensures Sq(Add(ctx, a, M(b)).result.uncertainty) == Sq(a.uncertainty) + Sq(b.uncertainty)
  {
    assert 0.0 <= Sq(a.uncertainty) + Sq(b.uncertainty);
  }

  /** A difference carries the same uncertainty as the sum: errors never cancel. */
  lemma SubUncertaintyIsAddUncertainty(ctx: Context, a: Measurement, b: Measurement)
    ensures Sub(ctx, a, M(b)).result.uncertainty == Add(ctx, a, M(b)).result.uncertainty
  {
  }

  /** Adding two measurements does not depend on their order. */
  lemma AddCommutes(ctx: Context, a: Measurement, b: Measurement)
    ensures Add(ctx, b, M(a)) == Add(ctx, a, M(b))
  {
    assert Sq(b.uncertainty) + Sq(a.uncertainty) == Sq(a.uncertainty) + Sq(b.uncertainty);
    assert b.value + a.value == a.value + b.value;
  }

  /** The non-negative square root of u*u is |u|. */
  lemma RootOfSquare(sqrt: real -> real, u: real)
    requires ExactSqrt(sqrt)
    ensures sqrt(Sq(u)) == Abs(u)
  {
    var r := sqrt(Sq(u));
    assert 0.0 <= Sq(u);
    assert r >= 0.0 && r * r == Abs(u) * Abs(u);
    if r < Abs(u) {
      SquareMonotone(r, Abs(u));
    } else if r > Abs(u) {
      SquareMonotone(Abs(u), r);
    }
  }

  lemma SquareMonotone(a: real, b: real)
    requires 0.0 <= a < b
    ensures a * a < b * b
  {
    assert a * (b - a) >= 0.0;
    assert (b - a) * b > 0.0;
  }

  /**
   * Adding a plain number is adding an exact measurement (no uncertainty) whose decimals
   * do not restrict m's: value, uncertainty and precision all agree.
   */
  lemma ScalarAddIsExactAdd(ctx: Context, m: Measurement, k: real, exact: Measurement)
    requires ExactSqrt(ctx.sqrt)
    requires m.uncertainty >= 0.0
    requires exact.value == k && exact.uncertainty == 0.0 && exact.decimals >= m.decimals
    ensures Add(ctx, m, S(k)) == Add(ctx, m, M(exact))
    ensures Sub(ctx, m, S(k)) == Sub(ctx, m, M(exact))
  {
    RootOfSquare(ctx.sqrt, m.uncertainty);
    assert Sq(m.uncertainty) + Sq(exact.uncertainty) == Sq(m.uncertainty);
  }

  // ---------------------------------------------------------------------------
  // Multiplicative operators
  // ---------------------------------------------------------------------------

  /** The relative-error quadrature of a product or quotient; mpmath raises on a zero value. */
  function RelativeQuadrature(ctx: Context, value: real, a: Measurement, b: Measurement): real
    requires a.value != 0.0 && b.value != 0.0
  {
    Abs(value) * ctx.sqrt(Sq(a.uncertainty / a.value) + Sq(b.uncertainty / b.value))
  }

  /** The squared relative uncertainty (u/v)^2 of a measurement with a non-zero value. */
  function RelativeSq(m: Measurement): real
    requires m.value != 0.0
  {
    Sq(m.uncertainty / m.value)
  }

  /** `m * other`, and `other * m` through `__rmul__`, whose body is the same. */
  function Mul(ctx: Context, m: Measurement, other: Operand): (r: Outcome<Measurement>)
    ensures r.ReturnsNone? <==> other.Unsupported?
    ensures r.Raises? <==> other.M? && (m.value == 0.0 || other.m.value == 0.0)
    ensures r.Raises? ==> r.error == DivisionByZero
    ensures r.Returns? ==> r.result.value == m.value * Central(other)
    ensures r.Returns? ==> r.result.uncSigDigits == 1 && PrecisionConsistent(ctx, r.result)
    ensures r.Returns? && other.M? ==> r.result.sigDigits == Min(m.sigDigits, other.m.sigDigits)
    ensures other.S? ==> r.Returns? && r.result.uncertainty == Abs(other.k) * m.uncertainty && r.result.sigDigits == m.sigDigits
    ensures r.Returns? ==> r.result.decimals == DecimalsFromSig(ctx, r.result.value, r.result.sigDigits)
  {
    match other
    case M(o) =>
      if m.value == 0.0 || o.value == 0.0 then
        Raises(DivisionByZero)
      else
        var value := m.value * o.value;
        Returns(WithSigDigits(ctx, value, RelativeQuadrature(ctx, value, m, o), Min(m.sigDigits, o.sigDigits)))
    case S(k) =>
      Returns(WithSigDigits(ctx, m.value * k, Abs(k) * m.uncertainty, m.sigDigits))
    case Unsupported =>
      ReturnsNone
  }

  /** `m / other`. */
  function Div(ctx: Context, m: Measurement, other: Operand): (r: Outcome<Measurement>)
    ensures r.ReturnsNone? <==> other.Unsupported?
    ensures r.Raises? <==> (other.M? && (m.value == 0.0 || other.m.value == 0.0)) || (other.S? && other.k == 0.0)
    ensures r.Raises? ==> r.error == DivisionByZero
    ensures r.Returns? ==> Central(other) != 0.0 && r.result.value == m.value / Central(other)
    ensures r.Returns? ==> r.result.uncSigDigits == 1 && PrecisionConsistent(ctx, r.result)
    ensures r.Returns? && other.M? ==> r.result.sigDigits == Min(m.sigDigits, other.m.sigDigits)
    ensures r.Returns? && other.S? ==> r.result.uncertainty == m.uncertainty / Abs(other.k) && r.result.sigDigits == m.sigDigits
    ensures r.Returns? ==> r.result.decimals == DecimalsFromSig(ctx, r.result.value, r.result.sigDigits)
  {
    match other
    case M(o) =>
      if m.value == 0.0 || o.value == 0.0 then
        Raises(DivisionByZero)
      else
        var value := m.value / o.value;
        Returns(WithSigDigits(ctx, value, RelativeQuadrature(ctx, value, m, o), Min(m.sigDigits, o.sigDigits)))
    case S(k) =>
      if k == 0.0 then Raises(DivisionByZero)
      else Returns(WithSigDigits(ctx, m.value / k, m.uncertainty / Abs(k), m.sigDigits))
    case Unsupported =>
      ReturnsNone
  }

  /** |v| * sqrt(q) is a non-negative uncertainty whose squared ratio to v is q. */
  lemma ScaledRoot(sqrt: real -> real, v: real, q: real)
    requires ExactSqrt(sqrt)
    requires v != 0.0 && q >= 0.0
    ensures Abs(v) * sqrt(q) >= 0.0
    ensures Sq(Abs(v) * sqrt(q) / v) == q
  {
    var s := sqrt(q);
    assert s >= 0.0 && s * s == q;
    assert Abs(v) * s / v == (if v < 0.0 then -s else s);
  }

  /** The relative quadrature of a and b: a non-negative uncertainty whose squared ratio to the value is the sum of theirs. */
  lemma RelativeQuadratureMeaning(ctx: Context, value: real, a: Measurement, b: Measurement)
    requires ExactSqrt(ctx.sqrt)
    requires a.value != 0.0 && b.value != 0.0 && value != 0.0
    ensures RelativeQuadrature(ctx, value, a, b) >= 0.0
    ensures Sq(RelativeQuadrature(ctx, value, a, b) / value) == Sq(a.uncertainty / a.value) + Sq(b.uncertainty / b.value)
  {
    ScaledRoot(ctx.sqrt, value, Sq(a.uncertainty / a.value) + Sq(b.uncertainty / b.value));
  }

  /** Products of two measurements combine relative uncertainties in quadrature. */
  lemma MulRelativeQuadrature(ctx: Context, a: Measurement, b: Measurement)
    requires ExactSqrt(ctx.sqrt)
    requires a.value != 0.0 && b.value != 0.0
    ensures Mul(ctx, a, M(b)).result.uncertainty >= 0.0
    ensures Sq(Mul(ctx, a, M(b)).result.uncertainty / Mul(ctx, a, M(b)).result.value)
         == Sq(a.uncertainty / a.value) + Sq(b.uncertainty / b.value)
  {
    RelativeQuadratureMeaning(ctx, a.value * b.value, a, b);
  }

  /** Multiplying two measurements does not depend on their order. */
  lemma MulCommutes(ctx: Context, a: Measurement, b: Measurement)
    ensures Mul(ctx, b, M(a)) == Mul(ctx, a, M(b))
  {
    if a.value != 0.0 && b.value != 0.0 {
      var q := Sq(a.uncertainty / a.value) + Sq(b.uncertainty / b.value);
      assert Sq(b.uncertainty / b.value) + Sq(a.uncertainty / a.value) == q;
      assert b.value * a.value == a.value * b.value;
      var u := RelativeQuadrature(ctx, a.value * b.value, a, b);
      assert RelativeQuadrature(ctx, b.value * a.value, b, a) == u;
      assert Min(b.sigDigits, a.sigDigits) == Min(a.sigDigits, b.sigDigits);
      var ab, ba := Mul(ctx, a, M(b)).result, Mul(ctx, b, M(a)).result;
      assert ab.value == ba.value && ab.uncertainty == ba.uncertainty;
      assert ab.sigDigits == ba.sigDigits && ab.decimals == ba.decimals;
    }
  }

  /** Quotients of two measurements combine relative uncertainties by the same rule as products. */
  lemma DivRelativeQuadrature(ctx: Context, a: Measurement, b: Measurement)
    requires ExactSqrt(ctx.sqrt)
    requires a.value != 0.0 && b.value != 0.0
    ensures Div(ctx, a, M(b)).result.uncertainty >= 0.0
    ensures Sq(Div(ctx, a, M(b)).result.uncertainty / Div(ctx, a, M(b)).result.value)
         == Sq(a.uncertainty / a.value) + Sq(b.uncertainty / b.value)
  {
    assert a.value / b.value != 0.0;
    RelativeQuadratureMeaning(ctx, a.value / b.value, a, b);
  }

  /** Multiplying or dividing by a non-zero plain number keeps the relative uncertainty. */
  lemma MulScalarKeepsRelative(ctx: Context, m: Measurement, k: real)
    requires m.value != 0.0 && k != 0.0
    ensures Mul(ctx, m, S(k)).result.value != 0.0
    ensures RelativeSq(Mul(ctx, m, S(k)).result) == RelativeSq(m)
  {
    var r := Mul(ctx, m, S(k)).result;
    ScaledRatio(m.uncertainty, m.value, k, Abs(k) * m.uncertainty, m.value * k);
  }

  lemma DivScalarKeepsRelative(ctx: Context, m: Measurement, k: real)
    requires m.value != 0.0 && k != 0.0
    ensures Div(ctx, m, S(k)).result.value != 0.0
    ensures RelativeSq(Div(ctx, m, S(k)).result) == RelativeSq(m)
  {
    var r := Div(ctx, m, S(k)).result;
    ScaledRatio(m.uncertainty, m.value, 1.0 / k, m.uncertainty / Abs(k), m.value / k);
  }

  /** (|c| * u) / (v * c) squares to (u / v)^2. */
  lemma ScaledRatio(u: real, v: real, c: real, unc: real, value: real)
    requires v != 0.0 && c != 0.0
    requires unc == Abs(c) * u && value == v * c
    ensures value != 0.0 && Sq(unc / value) == Sq(u / v)
  {
    assert unc / value == (if c < 0.0 then -(u / v) else u / v);
  }

  // ---------------------------------------------------------------------------
  // Reflected subtraction and division
  // ---------------------------------------------------------------------------

  /** `other - m` through `__rsub__` as written: its body is `__sub__`'s, so it computes `m - other`. */
  function RSubAsWritten(ctx: Context, m: Measurement, other: Operand): (r: Outcome<Measurement>)
    ensures r.ReturnsNone? <==> other.Unsupported?
    ensures !r.Raises?
    ensures r.Returns? ==> r.result.value == m.value - Central(other)
    ensures other.S? ==> r.result.uncertainty == m.uncertainty && r.result.decimals == m.decimals
  {
    Sub(ctx, m, other)
  }

  /** `10 - m` for m = 3 ± 1 yields -7 rather than 7. */
  lemma RSubAsWrittenSwapsOperands(ctx: Context, m: Measurement)
    requires m.value == 3.0
    ensures RSubAsWritten(ctx, m, S(10.0)).result.value == -7.0
    ensures 10.0 - m.value == 7.0
  {
  }

  /** `other - m`, operands in the order Python wrote them. */
  function RSub(ctx: Context, m: Measurement, other: Operand): (r: Outcome<Measurement>)
    ensures r.ReturnsNone? <==> other.Unsupported?
    ensures !r.Raises?
    ensures r.Returns? ==> r.result.value == Central(other) - m.value
    ensures other.S? ==> r.result.uncertainty == m.uncertainty && r.result.decimals == m.decimals
    ensures r.Returns? ==> r.result.sigDigits == SigFromDecimals(ctx, r.result.value, r.result.decimals)
  {
    match other
    case M(o) => Sub(ctx, o, M(m))
    case S(k) => Returns(WithDecimals(ctx, k - m.value, m.uncertainty, m.decimals))
    case Unsupported => ReturnsNone
  }

  /** `k - m` is `exact - m` for an exact measurement of k whose decimals do not restrict m's. */
  lemma RSubIsExactSub(ctx: Context, m: Measurement, k: real, exact: Measurement)
    requires ExactSqrt(ctx.sqrt)
    requires m.uncertainty >= 0.0
    requires exact.value == k && exact.uncertainty == 0.0 && exact.decimals >= m.decimals
    ensures RSub(ctx, m, S(k)) == Sub(ctx, exact, M(m))
  {
    RootOfSquare(ctx.sqrt, m.uncertainty);
    assert Sq(exact.uncertainty) + Sq(m.uncertainty) == Sq(m.uncertainty);
  }

  /** `other / m` through `__rtruediv__` as written: its body is `__truediv__`'s, so it computes `m / other`. */
  function RDivAsWritten(ctx: Context, m: Measurement, other: Operand): (r: Outcome<Measurement>)
    ensures r.ReturnsNone? <==> other.Unsupported?
    ensures r.Raises? <==> (other.M? && (m.value == 0.0 || other.m.value == 0.0)) || (other.S? && other.k == 0.0)
    ensures r.Returns? ==> r.result.value == m.value / Central(other)
    ensures r.Returns? && other.S? ==> r.result.uncertainty == m.uncertainty / Abs(other.k) && r.result.sigDigits == m.sigDigits
  {
    Div(ctx, m, other)
  }

  /** `10 / m` for m = 2 ± 1 yields 0.2 rather than 5. */
  lemma RDivAsWrittenSwapsOperands(ctx: Context, m: Measurement)
    requires m.value == 2.0
    ensures RDivAsWritten(ctx, m, S(10.0)).result.value == 0.2
    ensures 10.0 / m.value == 5.0
  {
  }

  /**
   * `other / m`, operands in the order Python wrote them: k / v with the relative
   * uncertainty of m, and a division by zero when m's value is zero.
   */
  function RDiv(ctx: Context, m: Measurement, other: Operand): (r: Outcome<Measurement>)
    ensures r.ReturnsNone? <==> other.Unsupported?
    ensures r.Raises? <==> !other.Unsupported? && (m.value == 0.0 || (other.M? && other.m.value == 0.0))
    ensures r.Returns? ==> m.value != 0.0 && r.result.value == Central(other) / m.value
    ensures r.Returns? && other.S? ==> r.result.sigDigits == m.sigDigits
    ensures r.Returns? ==> r.result.decimals == DecimalsFromSig(ctx, r.result.value, r.result.sigDigits)
  {
    match other
    case M(o) => Div(ctx, o, M(m))
    case S(k) =>
      if m.value == 0.0 then Raises(DivisionByZero)
      else Returns(WithSigDigits(ctx, k / m.value, Abs(k / m.value) * Abs(m.uncertainty / m.value), m.sigDigits))
    case Unsupported => ReturnsNone
  }

  /** `k / m` is `exact / m` for a non-zero exact measurement of k whose digits do not restrict m's. */
  lemma RDivIsExactDiv(ctx: Context, m: Measurement, k: real, exact: Measurement)
    requires ExactSqrt(ctx.sqrt)
    requires m.value != 0.0 && k != 0.0
    requires exact.value == k && exact.uncertainty == 0.0 && exact.sigDigits >= m.sigDigits
    ensures RDiv(ctx, m, S(k)) == Div(ctx, exact, M(m))
  {
    RootOfSquare(ctx.sqrt, m.uncertainty / m.value);
    assert exact.uncertainty / exact.value == 0.0;
    assert Sq(exact.uncertainty / exact.value) + Sq(m.uncertainty / m.value) == Sq(m.uncertainty / m.value);
    var u := Abs(k / m.value) * Abs(m.uncertainty / m.value);
    assert RelativeQuadrature(ctx, k / m.value, exact, m) == u;
    assert Min(exact.sigDigits, m.sigDigits) == m.sigDigits;
    assert Div(ctx, exact, M(m)) == Returns(WithSigDigits(ctx, k / m.value, u, m.sigDigits));
    assert RDiv(ctx, m, S(k)).Returns?;
    assert RDiv(ctx, m, S(k)).result.value == k / m.value;
    assert RDiv(ctx, m, S(k)).result.uncertainty == u;
    assert RDiv(ctx, m, S(k)).result.sigDigits == m.sigDigits;
  }

  // ---------------------------------------------------------------------------
  // Power
  // ---------------------------------------------------------------------------

  function NatPower(x: real, n: nat): real
  {
    if n == 0 then 1.0 else x * NatPower(x, n - 1)
  }

  /** `x ** n` for an integer exponent; a negative power of zero divides by zero. */
  function Power(x: real, n: int): (r: real)
    requires x != 0.0 || n >= 0
    ensures n >= 0 ==> r == NatPower(x, n)
    ensures n < 0 ==> r * NatPower(x, -n) == 1.0
  {
    if n >= 0 then
      NatPower(x, n)
    else
      NatPowerNonzero(x, -n);
      1.0 / NatPower(x, -n)
  }

  lemma {:induction false} NatPowerNonzero(x: real, n: nat)
    requires x != 0.0
    ensures NatPower(x, n) != 0.0
  {
    if n > 0 {
      NatPowerNonzero(x, n - 1);
    }
  }

  /** x^n = x * x^(n-1), for every integer n when x is not zero. */
  lemma PowerStep(x: real, n: int)
    requires x != 0.0
    ensures Power(x, n) == x * Power(x, n - 1)
  {
    if n <= 0 {
      NatPowerNonzero(x, -n);
      var p := NatPower(x, -n);
      assert NatPower(x, -(n - 1)) == x * p;
      assert 1.0 / p == x * (1.0 / (x * p));
    }
  }

  /** `m ** other`: a plain integer exponent k gives v^k with uncertainty |k * v^(k-1)| * u. */
  function Pow(ctx: Context, m: Measurement, other: Operand): (r: Outcome<Measurement>)
    requires other.S? ==> IsInteger(other.k)
    ensures r.ReturnsNone? <==> !other.S?
    ensures r.Raises? <==> other.S? && m.value == 0.0 && other.k <= 0.0
    ensures r.Raises? ==> r.error == DivisionByZero
    ensures r.Returns? ==> r.result.sigDigits == m.sigDigits && r.result.uncSigDigits == 1 && PrecisionConsistent(ctx, r.result)
    ensures r.Returns? ==> r.result.decimals == DecimalsFromSig(ctx, r.result.value, r.result.sigDigits)
  {
    match other
    case S(k) =>
      var n := k.Floor;
      if m.value == 0.0 && n <= 0 then
        Raises(DivisionByZero)
      else
        Returns(WithSigDigits(ctx, Power(m.value, n), Abs(k * Power(m.value, n - 1)) * m.uncertainty, m.sigDigits))
    case _ =>
      ReturnsNone
  }

  /** The value and uncertainty `m ** k` computes, for an integer k. */
  lemma PowFields(ctx: Context, m: Measurement, k: int)
    requires m.value != 0.0 || k > 0
    ensures Pow(ctx, m, S(k as real)).result.value == Power(m.value, k)
    ensures Pow(ctx, m, S(k as real)).result.uncertainty == Abs(k as real * Power(m.value, k - 1)) * m.uncertainty
  {
    assert (k as real).Floor == k;
  }

  /** The derivative rule for v^k: the relative uncertainty scales by |k|, u' * |v| == |k| * |v^k| * u. */
  predicate DerivativeRule(v: real, k: real, u: real, value: real, uncertainty: real)
  {
    uncertainty * Abs(v) == Abs(k) * Abs(value) * u
  }

  /** `m ** k` obeys the derivative rule for every integer k when m's value is not zero. */
  lemma PowRelativeUncertainty(ctx: Context, m: Measurement, k: int)
    requires m.value != 0.0
    ensures var r := Pow(ctx, m, S(k as real)).result;
      DerivativeRule(m.value, k as real, m.uncertainty, r.value, r.uncertainty)
  {
    PowFields(ctx, m, k);
    var r := Pow(ctx, m, S(k as real)).result;
    PowerRule(m.value, k, m.uncertainty, r.uncertainty, r.value);
  }

  lemma PowerRule(v: real, k: int, u: real, unc: real, value: real)
    requires v != 0.0
    requires value == Power(v, k) && unc == Abs(k as real * Power(v, k - 1)) * u
    ensures DerivativeRule(v, k as real, u, value, unc)
  {
    PowerStep(v, k);
    DerivativeScaling(k as real, Power(v, k - 1), v, u, unc, value);
  }

  /** The relative uncertainty of `m ** k` is |k| times m's. */
  lemma PowRelative(ctx: Context, m: Measurement, k: int)
    requires m.value != 0.0
    ensures Pow(ctx, m, S(k as real)).result.value != 0.0
    ensures RelativeSq(Pow(ctx, m, S(k as real)).result) == Sq(k as real) * RelativeSq(m)
  {
    PowFields(ctx, m, k);
    PowRelativeUncertainty(ctx, m, k);
    PowerNonzero(m.value, k);
    var r := Pow(ctx, m, S(k as real)).result;
    RuleRatio(m.value, k as real, m.uncertainty, r.value, r.uncertainty);
  }

  lemma PowerNonzero(x: real, n: int)
    requires x != 0.0
    ensures Power(x, n) != 0.0
  {
    if n >= 0 {
      NatPowerNonzero(x, n);
    } else {
      NatPowerNonzero(x, -n);
    }
  }

  /** Under the derivative rule the squared relative uncertainty scales by k^2. */
  lemma RuleRatio(v: real, k: real, u: real, value: real, uncertainty: real)
    requires v != 0.0 && value != 0.0
    requires DerivativeRule(v, k, u, value, uncertainty)
    ensures Sq(uncertainty / value) == Sq(k) * Sq(u / v)
  {
    assert uncertainty == Abs(k) * Abs(value) * u / Abs(v);
    var sign := if (value < 0.0) == (v < 0.0) then 1.0 else -1.0;
    assert uncertainty / value == sign * Abs(k) * (u / v);
  }

  lemma DerivativeScaling(k: real, p: real, v: real, u: real, unc: real, value: real)
    requires unc == Abs(k * p) * u && value == v * p
    ensures unc * Abs(v) == Abs(k) * Abs(value) * u
  {
    assert Abs(k * p) == Abs(k) * Abs(p);
    assert Abs(v * p) == Abs(v) * Abs(p);
  }

  /** `m ** 1` keeps value and uncertainty. */
  lemma PowOneIsIdentity(ctx: Context, m: Measurement)
    ensures Pow(ctx, m, S(1.0)).result.value == m.value && Pow(ctx, m, S(1.0)).result.uncertainty == m.uncertainty
  {
    assert (1.0).Floor == 1;
  }

  /**
   * `m ** 2` treats both factors as the same quantity, `m * m` as independent ones:
   * the squared uncertainty of the power is twice that of the product.
   */
  lemma SquareVersusSelfProduct(ctx: Context, m: Measurement)
    requires ExactSqrt(ctx.sqrt)
    requires m.value != 0.0
    ensures Sq(Pow(ctx, m, S(2.0)).result.uncertainty) == 2.0 * Sq(Mul(ctx, m, M(m)).result.uncertainty)
  {
    var v, u := m.value, m.uncertainty;
    PowFields(ctx, m, 2);
    assert Power(v, 1) == v * NatPower(v, 0);
    var q := Sq(u / v) + Sq(u / v);
    var s := ctx.sqrt(q);
    assert 0.0 <= q;
    TwiceSquare(v, u, q, s, Pow(ctx, m, S(2.0)).result.uncertainty, Mul(ctx, m, M(m)).result.uncertainty);
  }

  lemma TwiceSquare(v: real, u: real, q: real, s: real, power: real, product: real)
    requires v != 0.0 && s >= 0.0 && s * s == q && q == Sq(u / v) + Sq(u / v)
    requires power == Abs(2.0 * v) * u
    requires product == Abs(v * v) * s
    ensures Sq(power) == 2.0 * Sq(product)
  {
    assert Sq(u / v) * (v * v) == u * u;
    assert Sq(product) == (v * v) * (v * v) * q;
    assert Sq(power) == 4.0 * (v * v) * (u * u);
  }

  // ---------------------------------------------------------------------------
  // Comparisons: central values only
  // ---------------------------------------------------------------------------

  function Lt(m: Measurement, other: Operand): (r: Option<bool>)
    ensures r.None? <==> other.Unsupported?
    ensures r.Some? ==> (r.value <==> m.value < Central(other))
  {
    match other
    case M(o) => Some(m.value < o.value)
    case S(k) => Some(m.value < k)
    case Unsupported => None
  }

  function Le(m: Measurement, other: Operand): (r: Option<bool>)
    ensures r.None? <==> other.Unsupported?
    ensures r.Some? ==> (r.value <==> m.value <= Central(other))
  {
    match other
    case M(o) => Some(m.value <= o.value)
    case S(k) => Some(m.value <= k)
    case Unsupported => None
  }

  function Eq(m: Measurement, other: Operand): (r: Option<bool>)
    ensures r.None? <==> other.Unsupported?
    ensures r.Some? ==> (r.value <==> m.value == Central(other))
  {
    match other
    case M(o) => Some(m.value == o.value)
    case S(k) => Some(m.value == k)
    case Unsupported => None
  }

  function Ne(m: Measurement, other: Operand): (r: Option<bool>)
    ensures r.None? <==> other.Unsupported?
    ensures r.Some? ==> (r.value <==> m.value != Central(other))
  {
    match other
    case M(o) => Some(m.value != o.value)
    case S(k) => Some(m.value != k)
    case Unsupported => None
  }

  function Gt(m: Measurement, other: Operand): (r: Option<bool>)
    ensures r.None? <==> other.Unsupported?
    ensures r.Some? ==> (r.value <==> m.value > Central(other))
  {
    match other
    case M(o) => Some(m.value > o.value)
    case S(k) => Some(m.value > k)
    case Unsupported => None
  }

  function Ge(m: Measurement, other: Operand): (r: Option<bool>)
    ensures r.None? <==> other.Unsupported?
    ensures r.Some? ==> (r.value <==> m.value >= Central(other))
  {
    match other
    case M(o) => Some(m.value >= o.value)
    case S(k) => Some(m.value >= k)
    case Unsupported => None
  }

  /** Two measurements with the same value compare alike against anything, whatever their uncertainties. */
  lemma ComparisonsIgnoreUncertainty(a: Measurement, b: Measurement, other: Operand)
    requires a.value == b.value
    ensures Lt(a, other) == Lt(b, other) && Le(a, other) == Le(b, other) && Eq(a, other) == Eq(b, other)
    ensures Ne(a, other) == Ne(b, other) && Gt(a, other) == Gt(b, other) && Ge(a, other) == Ge(b, other)
  {
  }

  /** The six comparisons form the total order of the central values. */
  lemma ComparisonLaws(a: Measurement, b: Measurement)
    ensures Lt(a, M(b)) == Gt(b, M(a)) && Le(a, M(b)) == Ge(b, M(a))
    ensures Ne(a, M(b)).value == !Eq(a, M(b)).value && Eq(a, M(b)) == Eq(b, M(a))
    ensures Le(a, M(b)).value == (Lt(a, M(b)).value || Eq(a, M(b)).value)
    ensures Lt(a, M(b)).value || Eq(a, M(b)).value || Gt(a, M(b)).value
    ensures Lt(a, M(b)) == Lt(a, S(b.value))
  {
  }

  // ---------------------------------------------------------------------------
  // Rendering
  // ---------------------------------------------------------------------------

  /** One side of the rendered text: an mpmath numeral, or a Python int. */
  datatype Shown = Text(numeral: Numeral) | Whole(i: int)

  function ShownText(s: Shown): (t: string)
    ensures '±' !in t
  {
    match s
    case Text(n) => Show(n)
    case Whole(i) =>
      assert forall c :: c in IntToString(i) ==> c == '-' || IsDigitChar(c);
      IntToString(i)
  }

  /** The uncertainty reads as `(1, 0)` or `(0, 1)` when split at the point and each side passed to int(). */
  predicate ReadsAsOne(n: Numeral)
    requires |n.fraction| > 0
  {
    (WholeInt(n) == 1 && FractionInt(n) == 0) || (WholeInt(n) == 0 && FractionInt(n) == 1)
  }

  /** The leading-one test holds exactly for the numeral 1 and for one unit in its last fraction place (0.1, -0.01, ...). */
  lemma ReadsAsOneMeaning(n: Numeral)
    requires |n.fraction| > 0
    ensures ReadsAsOne(n) <==> NumeralValue(n) == 1.0 || Abs(NumeralValue(n)) == 1.0 / Pow10(|n.fraction|) as real
  {
    var p := Pow10(|n.fraction|);
    var d := DigitsValue(n.fraction);
    assert FractionInt(n) == d && d < p;
    var f := FractionPart(d, p);
    var magnitude := n.whole as real + f;
    assert Abs(NumeralValue(n)) == magnitude;
    assert p >= 10 by {
      assert |n.fraction| >= 1;
      assert Pow10(|n.fraction|) == 10 * Pow10(|n.fraction| - 1);
    }
    UnitFraction(d, p);
    assert n.whole as real <= magnitude < n.whole as real + 1.0;
    if magnitude == 1.0 / p as real {
      assert n.whole == 0;
    }
    if magnitude == 1.0 {
      assert n.whole == 1;
      assert d == 0;
    }
  }

  lemma UnitFraction(d: nat, p: nat)
    requires d < p && p >= 10
    ensures d as real / p as real == 1.0 / p as real <==> d == 1
    ensures 1.0 / p as real < 1.0
  {
    if d as real / p as real == 1.0 / p as real {
      assert d as real == (d as real / p as real) * p as real;
    }
  }

  /**
   * The decision of `__str__`: the value at v_significant_digits without stripping zeros,
   * the uncertainty at u_significant_digits with zeros stripped; a reading of 1 asks for
   * one more uncertainty digit, a whole uncertainty prints both sides as integers.
   * Both digit counts are at least 1, where `nstr` prints a digit before the point.
   */
  function RenderParts(ctx: Context, m: Measurement): (parts: (Shown, Shown))
    requires m.sigDigits >= 1 && m.uncSigDigits >= 1
    ensures var value := ctx.nstr(m.value, m.sigDigits);
      var unc := StripZeros(ctx.nstr(m.uncertainty, m.uncSigDigits));
      && (ReadsAsOne(unc) ==> parts == (Text(value), Text(ctx.nstr(m.uncertainty, m.uncSigDigits + 1))))
      && (parts.1.Whole? <==> !ReadsAsOne(unc) && FractionInt(unc) == 0)
      && (parts.0.Whole? <==> parts.1.Whole?)
      && (parts.1.Whole? ==> parts.1.i == WholeInt(unc) && parts.1.i as real == NumeralValue(unc))
      && (parts.0.Whole? ==> Abs(parts.0.i as real - NumeralValue(value)) <= 0.5)
      && (parts.0.Whole? && Abs(parts.0.i as real - NumeralValue(value)) == 0.5 ==> parts.0.i % 2 == 0)
      && (!parts.1.Whole? && !ReadsAsOne(unc) ==> parts == (Text(value), Text(unc)))
  {
    var value := ctx.nstr(m.value, m.sigDigits);
    var unc := StripZeros(ctx.nstr(m.uncertainty, m.uncSigDigits));
    NumeralIntegerIff(unc);
    if ReadsAsOne(unc) then
      (Text(value), Text(ctx.nstr(m.uncertainty, m.uncSigDigits + 1)))
    else if IsInteger(NumeralValue(unc)) then
      (Whole(NearestInt(NumeralValue(value))), Whole(Trunc(NumeralValue(unc))))
    else
      (Text(value), Text(unc))
  }

  /** `str(m)`: the two sides joined by " ± ", which splits back into exactly those two sides. */
  function Render(ctx: Context, m: Measurement): (s: string)
    requires m.sigDigits >= 1 && m.uncSigDigits >= 1
    ensures Split(s, '±') == [ShownText(RenderParts(ctx, m).0) + " ", " " + ShownText(RenderParts(ctx, m).1)]
  {
    var parts := RenderParts(ctx, m);
    JoinSides(ShownText(parts.0), ShownText(parts.1))
  }

  /** `f'{a} ± {b}'` for two sides without the sign splits back into them. */
  function JoinSides(a: string, b: string): (s: string)
    requires '±' !in a && '±' !in b
    ensures Split(s, '±') == [a + " ", " " + b]
  {
    var left, right := a + " ", " " + b;
    SplitAtSeparator(left, right, '±');
    assert left + ['±'] + right == a + " ± " + b;
    a + " ± " + b
  }
}
