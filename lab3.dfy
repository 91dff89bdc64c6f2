/**
 * The two calculations of the speed-of-sound lab built on `Measurement`: the mean
 * sound velocity c = 2 f L / (n + 1) over the resonance frequencies of a tube, and
 * the adiabatic index gamma = M c^2 / (R T).
 */
module Lab3 {
  import opened Numerals
  import opened Measurements

  // ---------------------------------------------------------------------------
  // Specification: which frequencies count, and what their terms are
  // ---------------------------------------------------------------------------

  /** The positions of the frequencies with a positive value, in list order. */
  function PositiveIndices(freqs: seq<Measurement>): (ns: seq<nat>)
    ensures |ns| <= |freqs|
  {
    if freqs == [] then []
    else
      var n := |freqs| - 1;
      PositiveIndices(freqs[..n]) + (if freqs[n].value > 0.0 then [n] else [])
  }

  /** Only frequencies with a positive value are listed. */
  lemma {:induction false} PositiveIndicesSound(freqs: seq<Measurement>)
    ensures forall j :: 0 <= j < |PositiveIndices(freqs)| ==>
      PositiveIndices(freqs)[j] < |freqs| && freqs[PositiveIndices(freqs)[j]].value > 0.0
  {
    if freqs != [] {
      var n := |freqs| - 1;
      PositiveIndicesSound(freqs[..n]);
      var ns, prefix := PositiveIndices(freqs), PositiveIndices(freqs[..n]);
      assert ns == prefix + (if freqs[n].value > 0.0 then [n] else []);
      forall j | 0 <= j < |ns|
        ensures ns[j] < |freqs| && freqs[ns[j]].value > 0.0
      {
        if j < |prefix| {
          assert ns[j] == prefix[j];
          assert prefix[j] < n && freqs[..n][prefix[j]].value > 0.0;
          assert freqs[..n][prefix[j]] == freqs[ns[j]];
        }
      }
    }
  }

  /** Every frequency with a positive value is listed. */
  lemma {:induction false} PositiveIndicesComplete(freqs: seq<Measurement>)
    ensures forall i :: 0 <= i < |freqs| && freqs[i].value > 0.0 ==> i in PositiveIndices(freqs)
  {
    if freqs != [] {
      var n := |freqs| - 1;
      PositiveIndicesComplete(freqs[..n]);
      forall i | 0 <= i < n && freqs[i].value > 0.0
        ensures i in PositiveIndices(freqs)
      {
        assert freqs[..n][i] == freqs[i];
        assert i in PositiveIndices(freqs[..n]);
      }
    }
  }

  /** The positions are listed in increasing order, so each frequency gives at most one term. */
  lemma {:induction false} PositiveIndicesIncreasing(freqs: seq<Measurement>)
    ensures forall j, l :: 0 <= j < l < |PositiveIndices(freqs)| ==> PositiveIndices(freqs)[j] < PositiveIndices(freqs)[l]
  {
    if freqs != [] {
      var n := |freqs| - 1;
      PositiveIndicesIncreasing(freqs[..n]);
      PositiveIndicesSound(freqs[..n]);
      var ns, prefix := PositiveIndices(freqs), PositiveIndices(freqs[..n]);
      assert ns == prefix + (if freqs[n].value > 0.0 then [n] else []);
      forall j, l | 0 <= j < l < |ns|
        ensures ns[j] < ns[l]
      {
        assert ns[j] == prefix[j] && prefix[j] < n;
        if l < |prefix| {
          assert ns[l] == prefix[l];
        } else {
          assert ns[l] == n;
        }
      }
    }
  }

  /** The velocity term 2 f L / (n + 1) of the frequency f at position n. */
  function TermValue(f: real, length: real, n: nat): real
  {
    2.0 * f * length / (n + 1) as real
  }

  /** The values of the terms the comprehension yields, in order. */
  function TermValues(freqs: seq<Measurement>, length: real): seq<real>
  {
    if freqs == [] then []
    else
      var n := |freqs| - 1;
      TermValues(freqs[..n], length) + (if freqs[n].value > 0.0 then [TermValue(freqs[n].value, length, n)] else [])
  }

  /** Term j is 2 f L / (n + 1) for the j-th positive frequency, at its position n in the full list. */
  lemma {:induction false} TermValuesAtPositions(freqs: seq<Measurement>, length: real)
    ensures var vs, ns := TermValues(freqs, length), PositiveIndices(freqs);
      && |vs| == |ns|
      && forall j :: 0 <= j < |vs| ==> ns[j] < |freqs| && vs[j] == TermValue(freqs[ns[j]].value, length, ns[j])
  {
    PositiveIndicesSound(freqs);
    if freqs != [] {
      var n := |freqs| - 1;
      TermValuesAtPositions(freqs[..n], length);
      var vs, ns := TermValues(freqs, length), PositiveIndices(freqs);
      var prefix, prefixNs := TermValues(freqs[..n], length), PositiveIndices(freqs[..n]);
      forall j | 0 <= j < |vs|
        ensures ns[j] < |freqs| && vs[j] == TermValue(freqs[ns[j]].value, length, ns[j])
      {
        if j < |prefix| {
          assert vs[j] == prefix[j] && ns[j] == prefixNs[j];
          assert freqs[..n][prefixNs[j]] == freqs[ns[j]];
        }
      }
    }
  }

  function RealSum(xs: seq<real>): real
  {
    if xs == [] then 0.0 else RealSum(xs[..|xs| - 1]) + xs[|xs| - 1]
  }

  function Values(vs: seq<Measurement>): (xs: seq<real>)
    ensures |xs| == |vs|
  {
    seq(|vs|, i requires 0 <= i < |vs| => vs[i].value)
  }

  function SumSquares(vs: seq<Measurement>): real
  {
    if vs == [] then 0.0 else SumSquares(vs[..|vs| - 1]) + Sq(vs[|vs| - 1].uncertainty)
  }

  function MinDecimals(vs: seq<Measurement>): int
    requires |vs| > 0
  {
    if |vs| == 1 then vs[0].decimals else Min(MinDecimals(vs[..|vs| - 1]), vs[|vs| - 1].decimals)
  }

  // ---------------------------------------------------------------------------
  // sound_velocity
  // ---------------------------------------------------------------------------

  /** `2*f*tube_length/(n + 1)`: `2*f` through `__rmul__`, then a product of measurements, then a scalar quotient. */
  function Term(ctx: Context, f: Measurement, tube: Measurement, n: nat): (r: Outcome<Measurement>)
    requires f.value > 0.0
    ensures r.Raises? <==> tube.value == 0.0
    ensures !r.ReturnsNone?
    ensures r.Returns? ==> r.result.value == TermValue(f.value, tube.value, n)
  {
    var twice := Mul(ctx, f, S(2.0)).result;
    var product := Mul(ctx, twice, M(tube));
    if product.Raises? then
      product
    else
      assert product.result.value == 2.0 * f.value * tube.value;
      Div(ctx, product.result, S((n + 1) as real))
  }

  /** A term's relative uncertainty is the quadrature of the frequency's and the tube length's. */
  lemma TermRelativeUncertainty(ctx: Context, f: Measurement, tube: Measurement, n: nat)
    requires ExactSqrt(ctx.sqrt)
    requires f.value > 0.0 && tube.value != 0.0
    ensures Term(ctx, f, tube, n).result.value != 0.0
    ensures RelativeSq(Term(ctx, f, tube, n).result) == RelativeSq(f) + RelativeSq(tube)
  {
    var twice := Mul(ctx, f, S(2.0)).result;
    MulScalarKeepsRelative(ctx, f, 2.0);
    var product := Mul(ctx, twice, M(tube)).result;
    MulRelativeQuadrature(ctx, twice, tube);
    assert product.value == twice.value * tube.value;
    DivScalarKeepsRelative(ctx, product, (n + 1) as real);
  }

  /**
   * The list comprehension of `sound_velocity`: one term per frequency with a positive
   * value, where n is the position in the full list (skipped entries still count).
   */
  function Velocities(ctx: Context, freqs: seq<Measurement>, tube: Measurement): (r: Outcome<seq<Measurement>>)
    ensures !r.ReturnsNone?
    ensures r.Raises? ==> r.error == DivisionByZero
    ensures r.Raises? <==> tube.value == 0.0 && |PositiveIndices(freqs)| > 0
    ensures r.Returns? ==> |r.result| == |PositiveIndices(freqs)|
  {
    if freqs == [] then
      Returns([])
    else
      var n := |freqs| - 1;
      var prefix := Velocities(ctx, freqs[..n], tube);
      if freqs[n].value > 0.0 then
        var term := Term(ctx, freqs[n], tube, n);
        if prefix.Raises? then prefix
        else if term.Raises? then Raises(term.error)
        else Returns(prefix.result + [term.result])
      else
        prefix
  }

  /** The comprehension yields one term per positive frequency, with the values the formula gives. */
  lemma {:induction false} VelocitiesValues(ctx: Context, freqs: seq<Measurement>, tube: Measurement)
    requires Velocities(ctx, freqs, tube).Returns?
    ensures Values(Velocities(ctx, freqs, tube).result) == TermValues(freqs, tube.value)
  {
    if freqs != [] {
      var n := |freqs| - 1;
      VelocitiesValues(ctx, freqs[..n], tube);
      if freqs[n].value > 0.0 {
        var term := Term(ctx, freqs[n], tube, n).result;
        var prefix := Velocities(ctx, freqs[..n], tube).result;
        assert Velocities(ctx, freqs, tube).result == prefix + [term];
        assert Values(prefix + [term]) == Values(prefix) + [term.value];
      }
    }
  }

  /**
   * Python's `sum(velocities)` for a non-empty list: `0 + v0` goes through `__radd__` with
   * an int, then each further term is added as a measurement. (The empty list sums to the
   * int 0, which `SoundVelocity` handles.)
   */
  function Sum(ctx: Context, vs: seq<Measurement>): (r: Measurement)
    requires |vs| > 0
    ensures r.value == RealSum(Values(vs))
    ensures r.decimals == MinDecimals(vs)
  {
    if |vs| == 1 then
      assert Values(vs)[..0] == [];
      Add(ctx, vs[0], S(0.0)).result
    else
      assert Values(vs)[..|vs| - 1] == Values(vs[..|vs| - 1]);
      Add(ctx, Sum(ctx, vs[..|vs| - 1]), M(vs[|vs| - 1])).result
  }

  /** The sum's squared uncertainty is the sum of the terms' squared uncertainties; the first term passes unchanged. */
  lemma {:induction false} SumQuadrature(ctx: Context, vs: seq<Measurement>)
    requires ExactSqrt(ctx.sqrt)
    requires |vs| > 0
    ensures Sq(Sum(ctx, vs).uncertainty) == SumSquares(vs)
    ensures |vs| == 1 ==> Sum(ctx, vs).uncertainty == vs[0].uncertainty
  {
    if |vs| == 1 {
      assert vs[..0] == [];
    } else {
      SumQuadrature(ctx, vs[..|vs| - 1]);
      AddQuadrature(ctx, Sum(ctx, vs[..|vs| - 1]), vs[|vs| - 1]);
    }
  }

  /**
   * `sound_velocity(frequencies, tube_length)`: the mean of the terms; with no positive
   * frequency `sum([])/len([])` is `0/0`, a division by zero.
   */
  function SoundVelocity(ctx: Context, freqs: seq<Measurement>, tube: Measurement): (r: Outcome<Measurement>)
    ensures !r.ReturnsNone?
    ensures r.Raises? ==> r.error == DivisionByZero
    ensures r.Raises? <==> |PositiveIndices(freqs)| == 0 || tube.value == 0.0
  {
    var vs := Velocities(ctx, freqs, tube);
    if vs.Raises? then Raises(vs.error) else Mean(ctx, vs.result)
  }

  /** `sum(vs)/len(vs)`: the empty list divides the int 0 by 0. */
  function Mean(ctx: Context, vs: seq<Measurement>): (r: Outcome<Measurement>)
    ensures r.Raises? <==> |vs| == 0
    ensures r.Raises? ==> r.error == DivisionByZero
    ensures !r.ReturnsNone?
    ensures r.Returns? ==> r.result.value == RealSum(Values(vs)) / |vs| as real
  {
    if |vs| == 0 then Raises(DivisionByZero) else Div(ctx, Sum(ctx, vs), S(|vs| as real))
  }

  /** m's squared uncertainty is the terms' squared uncertainties summed, over the count squared. */
  predicate QuadratureMean(m: Measurement, vs: seq<Measurement>)
  {
    Sq(m.uncertainty) * Sq(|vs| as real) == SumSquares(vs)
  }

  /** The mean carries the quadrature sum of the terms' uncertainties divided by their count. */
  lemma {:induction false} MeanUncertainty(ctx: Context, vs: seq<Measurement>)
    requires ExactSqrt(ctx.sqrt)
    requires |vs| > 0
    ensures QuadratureMean(Mean(ctx, vs).result, vs)
  {
    SumQuadrature(ctx, vs);
    MeanIsQuotient(ctx, vs);
    QuotientSquare(Sum(ctx, vs).uncertainty, |vs| as real, Mean(ctx, vs).result.uncertainty);
  }

  /** The mean's uncertainty is the sum's divided by the count. */
  lemma {:induction false} MeanIsQuotient(ctx: Context, vs: seq<Measurement>)
    requires |vs| > 0
    ensures Mean(ctx, vs).result.uncertainty == Sum(ctx, vs).uncertainty / Abs(|vs| as real)
  {
  }

  /** The result is the mean of 2 f L / (n + 1) over the positive frequencies. */
  lemma SoundVelocityIsMean(ctx: Context, freqs: seq<Measurement>, tube: Measurement)
    requires SoundVelocity(ctx, freqs, tube).Returns?
    ensures |PositiveIndices(freqs)| > 0
    ensures SoundVelocity(ctx, freqs, tube).result.value
         == RealSum(TermValues(freqs, tube.value)) / |PositiveIndices(freqs)| as real
  {
    VelocitiesValues(ctx, freqs, tube);
  }

  /** The velocity's squared uncertainty is the terms' squared uncertainties summed, over the count squared. */
  lemma SoundVelocityUncertainty(ctx: Context, freqs: seq<Measurement>, tube: Measurement)
    requires ExactSqrt(ctx.sqrt)
    requires SoundVelocity(ctx, freqs, tube).Returns?
    ensures QuadratureMean(SoundVelocity(ctx, freqs, tube).result, Velocities(ctx, freqs, tube).result)
  {
    MeanUncertainty(ctx, Velocities(ctx, freqs, tube).result);
  }

  lemma QuotientSquare(u: real, n: real, q: real)
    requires n > 0.0 && q == u / Abs(n)
    ensures Sq(q) * Sq(n) == Sq(u)
  {
    assert q * n == u;
  }

  // ---------------------------------------------------------------------------
  // gamma
  // ---------------------------------------------------------------------------

  /**
   * `molar_mass*(sound_velocity**2)/(R_CONSTANT*TEMPERATURE)`: both products with a plain
   * number go through `__rmul__`; the gas constant and the temperature are parameters.
   */
  function Gamma(ctx: Context, velocity: Measurement, molarMass: real, gasConstant: real, temperature: Measurement)
    : (r: Outcome<Measurement>)
    ensures !r.ReturnsNone?
    ensures r.Raises? <==> velocity.value == 0.0 || molarMass == 0.0 || gasConstant == 0.0 || temperature.value == 0.0
    ensures r.Returns? ==>
      r.result.value == molarMass * (velocity.value * velocity.value) / (gasConstant * temperature.value)
  {
    SquareValue(ctx, velocity);
    GammaSteps(ctx, velocity, molarMass, gasConstant, temperature);
    Div(ctx, GammaNumerator(ctx, velocity, molarMass), M(GammaDenominator(ctx, gasConstant, temperature)))
  }

  /** `v ** 2 * M`, the numerator of gamma. */
  function GammaNumerator(ctx: Context, velocity: Measurement, molarMass: real): (n: Measurement)
    ensures n.value == velocity.value * velocity.value * molarMass
  {
    SquareValue(ctx, velocity);
    Mul(ctx, Pow(ctx, velocity, S(2.0)).result, S(molarMass)).result
  }

  /** `T * R`, the denominator of gamma. */
  function GammaDenominator(ctx: Context, gasConstant: real, temperature: Measurement): (d: Measurement)
    ensures d.value == temperature.value * gasConstant
  {
    Mul(ctx, temperature, S(gasConstant)).result
  }

  lemma GammaSteps(ctx: Context, velocity: Measurement, molarMass: real, gasConstant: real, temperature: Measurement)
    ensures var r := Div(ctx, GammaNumerator(ctx, velocity, molarMass), M(GammaDenominator(ctx, gasConstant, temperature)));
      && !r.ReturnsNone?
      && (r.Raises? <==> velocity.value == 0.0 || molarMass == 0.0 || gasConstant == 0.0 || temperature.value == 0.0)
      && (r.Returns? ==> r.result.value == molarMass * (velocity.value * velocity.value) / (gasConstant * temperature.value))
  {
    var numerator := GammaNumerator(ctx, velocity, molarMass);
    var denominator := GammaDenominator(ctx, gasConstant, temperature);
    GammaArithmetic(velocity.value, molarMass, gasConstant, temperature.value, numerator.value, denominator.value);
  }

  /** `v ** 2` never raises and its value is v * v. */
  lemma SquareValue(ctx: Context, v: Measurement)
    ensures Pow(ctx, v, S(2.0)).Returns? && Pow(ctx, v, S(2.0)).result.value == v.value * v.value
  {
    PowFields(ctx, v, 2);
    assert NatPower(v.value, 1) == v.value * NatPower(v.value, 0);
  }

  lemma GammaArithmetic(v: real, molarMass: real, gasConstant: real, temperature: real, numerator: real, denominator: real)
    requires numerator == (v * v) * molarMass && denominator == temperature * gasConstant
    ensures numerator == 0.0 || denominator == 0.0 <==> v == 0.0 || molarMass == 0.0 || gasConstant == 0.0 || temperature == 0.0
    ensures denominator != 0.0 ==> numerator / denominator == molarMass * (v * v) / (gasConstant * temperature)
  {
    ProductZero(v, v);
    ProductZero(v * v, molarMass);
    ProductZero(temperature, gasConstant);
  }

  lemma ProductZero(a: real, b: real)
    ensures a * b == 0.0 <==> a == 0.0 || b == 0.0
  {
  }

  /** gamma's relative uncertainty: twice the velocity's (the power rule) in quadrature with the temperature's. */
  lemma GammaRelativeUncertainty(ctx: Context, velocity: Measurement, molarMass: real, gasConstant: real, temperature: Measurement)
    requires ExactSqrt(ctx.sqrt)
    requires velocity.value != 0.0 && molarMass != 0.0 && gasConstant != 0.0 && temperature.value != 0.0
    ensures Gamma(ctx, velocity, molarMass, gasConstant, temperature).result.value != 0.0
    ensures RelativeSq(Gamma(ctx, velocity, molarMass, gasConstant, temperature).result)
         == 4.0 * RelativeSq(velocity) + RelativeSq(temperature)
  {
    var square := Pow(ctx, velocity, S(2.0)).result;
    PowRelative(ctx, velocity, 2);
    var numerator := Mul(ctx, square, S(molarMass)).result;
    MulScalarKeepsRelative(ctx, square, molarMass);
    var denominator := Mul(ctx, temperature, S(gasConstant)).result;
    MulScalarKeepsRelative(ctx, temperature, gasConstant);
    DivRelativeQuadrature(ctx, numerator, denominator);
    assert numerator.value / denominator.value != 0.0;
  }
}
