/** The binned flare spectrum of `adetsim/sim_src/FlareSpectrum.py`: GOES class
    strings, the Battaglia scaling parameters, the analytically integrated broken power
    law on energy bins, the zero padding of the thermal part and the combined flare. */
module FlareSpectrum {
  import opened Outcomes
  import opened Linear
  import opened RealMath
  import Text

  // ---------------------------------------------------------------- GOES classes

  /** Flux in W/m² of class letter 1. */
  function GoesPrefix(): map<char, real> {
    map['A' := 1e-8, 'B' := 1e-7, 'C' := 1e-6, 'M' := 1e-5, 'X' := 1e-4]
  }

  /** `goes_class_lookup`: the first character, upper-cased, picks the prefix and the
      rest is parsed as the multiplier.  An empty string raises IndexError, an
      unparsable multiplier ValueError, and an unknown letter KeyError, in that order. */
  function GoesClassLookup(s: string): (r: Result<real>) {
    if |s| == 0 then Err(IndexError) else PrefixTimes(Text.UpperChar(s[0]), Text.ParseFloat(s[1..]))
  }

  /** The lookup succeeds exactly on a known letter with a parsable multiplier, and
      otherwise fails with the first applicable of IndexError, ValueError, KeyError. */
  lemma GoesClassLookupOutcomes(s: string)
    ensures var r := GoesClassLookup(s);
      && (r == Err(IndexError) <==> |s| == 0)
      && (r.Ok? <==> |s| > 0 && Text.UpperChar(s[0]) in GoesPrefix() && Text.ParseFloat(s[1..]).Ok?)
      && (|s| > 0 && Text.ParseFloat(s[1..]).Err? ==> r.Err? && r.error.ValueError?)
      && (|s| > 0 && Text.ParseFloat(s[1..]).Ok? && Text.UpperChar(s[0]) !in GoesPrefix() ==>
            r == Err(KeyError([Text.UpperChar(s[0])])))
  {
    if |s| > 0 {
      var x := Text.ParseFloat(s[1..]);
      assert x.Err? ==> x.error.ValueError?;
    }
  }

  /** The lookup once the letter is upper-cased and the multiplier parsed. */
  function PrefixTimes(ch: char, mul: Result<real>): (r: Result<real>) {
    match mul
    case Err(e) => Err(e)
    case Ok(v) => if ch in GoesPrefix() then Ok(Flux(ch, v)) else Err(KeyError([ch]))
  }

  /** The flux of class letter `ch` with multiplier `mul`. */
  function Flux(ch: char, mul: real): real
    requires ch in GoesPrefix()
  {
    GoesPrefix()[ch] * mul
  }

  /** A class letter in either case followed by a run of digits denotes the letter's
      flux times the number. */
  lemma GoesClassOfDigits(c: char, digits: string, n: nat)
    requires Text.UpperChar(c) in GoesPrefix()
    requires |digits| > 0 && Text.AllDigits(digits) && Text.DigitsValue(digits) == n
    ensures GoesClassLookup([c] + digits) == Ok(Flux(Text.UpperChar(c), n as real))
  {
    Text.ParseFloatOfDigits(digits, n as real);
    GoesClassOfParsed(c, digits, n as real);
  }

  lemma GoesClassOfParsed(c: char, rest: string, x: real)
    requires Text.UpperChar(c) in GoesPrefix() && Text.ParseFloat(rest) == Ok(x)
    ensures GoesClassLookup([c] + rest) == PrefixTimes(Text.UpperChar(c), Ok(x))
  {
    var s := [c] + rest;
    assert s[0] == c && s[1..] == rest;
    ParseOfRest(s, rest, Ok(x));
    PrefixTimesOfValue(Text.UpperChar(c), x);
    assert GoesClassLookup(s) == PrefixTimes(Text.UpperChar(s[0]), Text.ParseFloat(s[1..]));
  }

  lemma ParseOfRest(s: string, rest: string, x: Result<real>)
    requires |s| > 0 && s[1..] == rest && Text.ParseFloat(rest) == x
    ensures Text.ParseFloat(s[1..]) == x
  {
  }

  lemma PrefixTimesOfValue(ch: char, v: real)
    requires ch in GoesPrefix()
    ensures PrefixTimes(ch, Ok(v)) == Ok(Flux(ch, v))
  {
  }

  /** The class letter is case-insensitive. */
  lemma GoesClassCaseInsensitive(c: char, rest: string)
    ensures GoesClassLookup([c] + rest) == GoesClassLookup([Text.UpperChar(c)] + rest)
  {
    var s, t := [c] + rest, [Text.UpperChar(c)] + rest;
    assert s[0] == c && s[1..] == rest;
    assert t[0] == Text.UpperChar(c) && t[1..] == rest;
    assert Text.UpperChar(Text.UpperChar(c)) == Text.UpperChar(c);
    assert GoesClassLookup(s) == PrefixTimes(Text.UpperChar(c), Text.ParseFloat(rest));
    assert GoesClassLookup(t) == PrefixTimes(Text.UpperChar(c), Text.ParseFloat(rest));
  }

  // ---------------------------------------------------------------- Battaglia scaling

  /** The flux of class C2 (`goes_class_lookup('C2')`, see `GoesClassOfDigits`), where
      the spectral-index coefficient switches. */
  const C2Flux: real := GoesPrefix()['C'] * 2.0

  /** The photon-flux break energy (keV) and the index below it. */
  const BattagliaBreakEnergy: real := 5.0
  const BelowIndex: real := 1.5
  const ReferenceEnergy: real := 35.0

  datatype Battaglia = Battaglia(
    plasmaTemp: real,        // MK
    emissionMeasure: real,   // particle² / cm³
    referenceEnergy: real,   // keV
    referenceFlux: real,     // photon / (s cm² keV)
    spectralIndex: real)

  /** `BattagliaParameters(goes_flux)`. */
  function BattagliaParameters(m: Transcendentals, goesFlux: real): (b: Battaglia)
    requires ExpLaws(m) && LogLaws(m)
    ensures b.referenceEnergy == ReferenceEnergy
  {
    LnStrictlyIncreasing(m, 1.0, 10.0);
    LnOfOne(m);
    var p1 := m.ln(goesFlux) / m.ln(10.0);
    var p2 := 12.0 - m.ln(3.5) / m.ln(10.0);
    var referenceFlux := Pow(m, goesFlux / 1.8e-5, 1.0 / 0.83);
    var coefficient := if goesFlux < C2Flux then 2.04 else 3.60;
    Battaglia(
      (1.0 / 0.33) * (p1 + p2),
      Pow(m, goesFlux / 3.6 * 1e50, 1.0 / 0.92),
      ReferenceEnergy,
      referenceFlux,
      coefficient * Pow(m, referenceFlux, -0.16))
  }

  /** The spectral index carries coefficient 2.04 exactly for flares fainter than C2,
      and 3.60 otherwise. */
  lemma SpectralIndexSwitch(m: Transcendentals, goesFlux: real)
    requires ExpLaws(m) && LogLaws(m)
    ensures var b := BattagliaParameters(m, goesFlux);
      && (b.spectralIndex == 2.04 * Pow(m, b.referenceFlux, -0.16) <==> goesFlux < C2Flux)
      && (b.spectralIndex == 3.60 * Pow(m, b.referenceFlux, -0.16) <==> C2Flux <= goesFlux)
  {
    var b := BattagliaParameters(m, goesFlux);
    assert 0.0 < Pow(m, b.referenceFlux, -0.16);
  }

  /** Boltzmann's constant in keV/K. */
  const BoltzmannKeV: real := 8.627e-8

  /** `gen_vth_params`: the temperature in keV and the emission measure in units of
      1e49 particle²/cm³. */
  function VthParams(b: Battaglia): (r: (real, real)) {
    (b.plasmaTemp * BoltzmannKeV * 1e6, b.emissionMeasure / 1e49)
  }

  /** The converted parameters determine the originals. */
  lemma VthParamsRecover(b: Battaglia)
    ensures VthParams(b).0 / (BoltzmannKeV * 1e6) == b.plasmaTemp
    ensures VthParams(b).1 * 1e49 == b.emissionMeasure
  {
  }

  // ---------------------------------------------------------------- power laws

  /** `power_law_integral`: an antiderivative of `norm · (E / norm_energy)^(-index)`;
      the logarithmic branch is taken exactly when the index is 1. */
  function PowerLawIntegral(m: Transcendentals, energy: real, normEnergy: real, norm: real, index: real): real
    requires normEnergy != 0.0
  {
    var prefactor := norm * normEnergy;
    var arg := energy / normEnergy;
    if index == 1.0 then prefactor * m.ln(arg)
    else prefactor * Pow(m, arg, 1.0 - index) / (1.0 - index)
  }

  /** For index 1 the integral is the logarithm of the scaled energy. */
  lemma PowerLawIntegralLogBranch(m: Transcendentals, energy: real, normEnergy: real, norm: real)
    requires LogLaws(m)
    requires normEnergy != 0.0 && norm != 0.0 && 0.0 < energy / normEnergy
    ensures m.exp(PowerLawIntegral(m, energy, normEnergy, norm, 1.0) / (norm * normEnergy)) == energy / normEnergy
  {
    var prefactor := norm * normEnergy;
    assert prefactor != 0.0;
    var l := m.ln(energy / normEnergy);
    assert PowerLawIntegral(m, energy, normEnergy, norm, 1.0) == prefactor * l;
    assert prefactor * l / prefactor == l;
  }

  /** For any other index it is the power `1 - index` of the scaled energy. */
  lemma PowerLawIntegralPowerBranch(m: Transcendentals, energy: real, normEnergy: real, norm: real, index: real)
    requires normEnergy != 0.0 && norm != 0.0 && index != 1.0
    ensures PowerLawIntegral(m, energy, normEnergy, norm, index) * (1.0 - index) / (norm * normEnergy)
      == Pow(m, energy / normEnergy, 1.0 - index)
  {
    var prefactor := norm * normEnergy;
    var p := Pow(m, energy / normEnergy, 1.0 - index);
    assert prefactor * p / (1.0 - index) * (1.0 - index) / prefactor == p;
  }

  /** A flat law (index 0) integrates to `norm · E`. */
  lemma PowerLawIntegralFlat(m: Transcendentals, energy: real, normEnergy: real, norm: real)
    requires LogLaws(m)
    requires normEnergy != 0.0 && 0.0 < energy / normEnergy
    ensures PowerLawIntegral(m, energy, normEnergy, norm, 0.0) == norm * energy
  {
    PowUnitExponent(m, energy / normEnergy);
    assert norm * normEnergy * (energy / normEnergy) == norm * energy;
  }

  /** The integral evaluated at every energy. */
  function Integrals(m: Transcendentals, xs: Vector, normEnergy: real, norm: real, index: real): (v: Vector)
    requires normEnergy != 0.0
    ensures |v| == |xs| && forall i :: 0 <= i < |xs| ==> v[i] == PowerLawIntegral(m, xs[i], normEnergy, norm, index)
  {
    seq(|xs|, i requires 0 <= i < |xs| => PowerLawIntegral(m, xs[i], normEnergy, norm, index))
  }

  /** `xs[xs <= b]`. */
  function AtMost(xs: Vector, b: real): (ys: Vector)
    ensures |ys| <= |xs| && forall i :: 0 <= i < |ys| ==> ys[i] <= b
  {
    if |xs| == 0 then []
    else if xs[0] <= b then [xs[0]] + AtMost(xs[1..], b)
    else AtMost(xs[1..], b)
  }

  /** `xs[~(xs <= b)]`. */
  function Above(xs: Vector, b: real): (ys: Vector)
    ensures |ys| <= |xs| && forall i :: 0 <= i < |ys| ==> b < ys[i]
  {
    if |xs| == 0 then []
    else if xs[0] <= b then Above(xs[1..], b)
    else [xs[0]] + Above(xs[1..], b)
  }

  /** Every edge lands in exactly one of the two parts. */
  lemma {:induction false} SplitSizes(xs: Vector, b: real)
    ensures |AtMost(xs, b)| + |Above(xs, b)| == |xs|
  {
    if |xs| > 0 {
      SplitSizes(xs[1..], b);
    }
  }

  predicate Increasing(xs: Vector) {
    forall i, j :: 0 <= i < j < |xs| ==> xs[i] < xs[j]
  }

  /** The number of leading entries at most `b`. */
  function CountAtMost(xs: Vector, b: real): (k: nat)
    ensures k <= |xs|
  {
    if |xs| == 0 || b < xs[0] then 0 else 1 + CountAtMost(xs[1..], b)
  }

  /** For increasing edges the two parts are a prefix and the complementary suffix. */
  lemma {:induction false} SplitOfIncreasing(xs: Vector, b: real)
    requires Increasing(xs)
    ensures AtMost(xs, b) == xs[..CountAtMost(xs, b)]
    ensures Above(xs, b) == xs[CountAtMost(xs, b)..]
  {
    if |xs| > 0 {
      assert Increasing(xs[1..]);
      SplitOfIncreasing(xs[1..], b);
      if b < xs[0] {
        AllAbove(xs, b);
      }
    }
  }

  lemma {:induction false} AllAbove(xs: Vector, b: real)
    requires |xs| > 0 && Increasing(xs) && b < xs[0]
    ensures AtMost(xs, b) == [] && Above(xs, b) == xs
  {
    if |xs| > 1 {
      assert Increasing(xs[1..]);
      AllAbove(xs[1..], b);
    }
  }

  /** No two neighbouring edges coincide, so that every bin width can divide. */
  predicate DistinctNeighbours(xs: Vector) {
    forall i :: 0 <= i < |xs| - 1 ==> xs[i] != xs[i + 1]
  }

  /** `u / v` for arrays of one shape. */
  function Divide(u: Vector, v: Vector): (w: Vector)
    requires |u| == |v| && forall i :: 0 <= i < |v| ==> v[i] != 0.0
    ensures |w| == |u| && forall i :: 0 <= i < |u| ==> w[i] == u[i] / v[i]
  {
    seq(|u|, i requires 0 <= i < |u| => u[i] / v[i])
  }

  lemma DivideThenMultiply(x: real, y: real)
    requires y != 0.0
    ensures x / y * y == x
  {
  }

  lemma HadamardOfDivide(u: Vector, w: Vector)
    requires |u| == |w| && forall i :: 0 <= i < |w| ==> w[i] != 0.0
    ensures Hadamard(Divide(u, w), w) == u
  {
    forall i | 0 <= i < |u| ensures Hadamard(Divide(u, w), w)[i] == u[i] {
      DivideThenMultiply(u[i], w[i]);
    }
  }

  /** The parameters of a broken power law. */
  datatype BrokenLaw = BrokenLaw(
    referenceEnergy: real, referenceFlux: real,
    breakEnergy: real, lowerIndex: real, upperIndex: real)

  /** The normalisation at the break, from the index on the reference energy's side. */
  function Norm(m: Transcendentals, law: BrokenLaw): real
    requires law.breakEnergy != 0.0
  {
    var normIndex := if law.referenceEnergy <= law.breakEnergy then law.lowerIndex else law.upperIndex;
    law.referenceFlux * Pow(m, law.referenceEnergy / law.breakEnergy, normIndex)
  }

  function Lower(m: Transcendentals, law: BrokenLaw, e: real): real
    requires law.breakEnergy != 0.0
  {
    PowerLawIntegral(m, e, law.breakEnergy, Norm(m, law), law.lowerIndex)
  }

  function Upper(m: Transcendentals, law: BrokenLaw, e: real): real
    requires law.breakEnergy != 0.0
  {
    PowerLawIntegral(m, e, law.breakEnergy, Norm(m, law), law.upperIndex)
  }

  /** The straddling bin as the source computes it: the lower law from the break up to
      the first upper edge plus the upper law from the last lower edge up to the break. */
  function StraddleAsWritten(m: Transcendentals, law: BrokenLaw, lastLower: real, firstUpper: real): real
    requires law.breakEnergy != 0.0
  {
    (Lower(m, law, firstUpper) - Lower(m, law, law.breakEnergy))
      + (Upper(m, law, law.breakEnergy) - Upper(m, law, lastLower))
  }

  /** The straddling bin as intended: the lower law below the break and the upper law
      above it. */
  function Straddle(m: Transcendentals, law: BrokenLaw, lastLower: real, firstUpper: real): real
    requires law.breakEnergy != 0.0
  {
    (Lower(m, law, law.breakEnergy) - Lower(m, law, lastLower))
      + (Upper(m, law, firstUpper) - Upper(m, law, law.breakEnergy))
  }

  /** The per-bin integrated flux before the division by the widths, with the
      straddling bin chosen by `asWritten`. */
  function BinIntegrals(m: Transcendentals, edges: Vector, law: BrokenLaw, asWritten: bool): (v: Vector)
    requires law.breakEnergy != 0.0
  {
    Portions(m, law, AtMost(edges, law.breakEnergy), Above(edges, law.breakEnergy), asWritten)
  }

  /** The lower portion, the straddling bin when both parts are non-empty, and the
      upper portion. */
  function Portions(m: Transcendentals, law: BrokenLaw, lower: Vector, upper: Vector, asWritten: bool): (v: Vector)
    requires law.breakEnergy != 0.0
  {
    var normE, norm := law.breakEnergy, Norm(m, law);
    Diff(Integrals(m, lower, normE, norm, law.lowerIndex))
      + Twixt(m, law, lower, upper, asWritten)
      + Diff(Integrals(m, upper, normE, norm, law.upperIndex))
  }

  function Twixt(m: Transcendentals, law: BrokenLaw, lower: Vector, upper: Vector, asWritten: bool): (v: Vector)
    requires law.breakEnergy != 0.0
    ensures |v| == if |lower| > 0 && |upper| > 0 then 1 else 0
  {
    if |lower| > 0 && |upper| > 0 then
      [if asWritten then StraddleAsWritten(m, law, lower[|lower| - 1], upper[0])
       else Straddle(m, law, lower[|lower| - 1], upper[0])]
    else []
  }

  /** `broken_power_law_binned_flux`: a break energy of zero (the integer `0` that
      callers pass as `break_energy`) divides the float reference energy by zero
      before anything else (ZeroDivisionError); otherwise the size check fails
      (AssertionError) only for an empty edge array, and the bin integrals are
      divided by the widths. */
  function BinnedFluxWith(m: Transcendentals, edges: Vector, law: BrokenLaw, asWritten: bool): (r: Result<Vector>)
    requires law.breakEnergy != 0.0 ==> DistinctNeighbours(edges)
    ensures r.Ok? <==> law.breakEnergy != 0.0 && |edges| > 0
    ensures law.breakEnergy == 0.0 ==> r == Err(ZeroDivisionError)
    ensures r.Err? && law.breakEnergy != 0.0 ==> r.error == AssertionError
    ensures r.Ok? ==> |r.value| == |edges| - 1
  {
    if law.breakEnergy == 0.0 then Err(ZeroDivisionError)
    else
      var ret := BinIntegrals(m, edges, law, asWritten);
      SplitSizes(edges, law.breakEnergy);
      if |ret| != |edges| - 1 then Err(AssertionError)
      else Ok(Divide(ret, Diff(edges)))
  }

  function BinnedFluxAsWritten(m: Transcendentals, edges: Vector, law: BrokenLaw): (r: Result<Vector>)
    requires law.breakEnergy != 0.0 ==> DistinctNeighbours(edges)
    ensures r.Ok? <==> law.breakEnergy != 0.0 && |edges| > 0
    ensures law.breakEnergy == 0.0 ==> r == Err(ZeroDivisionError)
    ensures r.Ok? ==> |r.value| == |edges| - 1
  {
    BinnedFluxWith(m, edges, law, true)
  }

  function BinnedFlux(m: Transcendentals, edges: Vector, law: BrokenLaw): (r: Result<Vector>)
    requires law.breakEnergy != 0.0 ==> DistinctNeighbours(edges)
    ensures r.Ok? <==> law.breakEnergy != 0.0 && |edges| > 0
    ensures law.breakEnergy == 0.0 ==> r == Err(ZeroDivisionError)
    ensures r.Ok? ==> |r.value| == |edges| - 1
  {
    BinnedFluxWith(m, edges, law, false)
  }

  /** The continuous antiderivative of the broken law: the lower law's integral up to
      the break, continued by the upper law's above it. */
  function Antiderivative(m: Transcendentals, law: BrokenLaw, e: real): real
    requires law.breakEnergy != 0.0
  {
    if e <= law.breakEnergy then Lower(m, law, e)
    else Lower(m, law, law.breakEnergy) + Upper(m, law, e) - Upper(m, law, law.breakEnergy)
  }

  lemma DiffLowerSum(m: Transcendentals, law: BrokenLaw, xs: Vector)
    requires law.breakEnergy != 0.0 && |xs| > 0
    ensures Sum(Diff(Integrals(m, xs, law.breakEnergy, Norm(m, law), law.lowerIndex)))
      == Lower(m, law, xs[|xs| - 1]) - Lower(m, law, xs[0])
  {
    SumOfDiff(Integrals(m, xs, law.breakEnergy, Norm(m, law), law.lowerIndex));
  }

  lemma DiffUpperSum(m: Transcendentals, law: BrokenLaw, xs: Vector)
    requires law.breakEnergy != 0.0 && |xs| > 0
    ensures Sum(Diff(Integrals(m, xs, law.breakEnergy, Norm(m, law), law.upperIndex)))
      == Upper(m, law, xs[|xs| - 1]) - Upper(m, law, xs[0])
  {
    SumOfDiff(Integrals(m, xs, law.breakEnergy, Norm(m, law), law.upperIndex));
  }

  /** The intended portions of a lower and an upper part add up to the
      antiderivative's increase from the first to the last edge. */
  lemma PortionsTotal(m: Transcendentals, law: BrokenLaw, lower: Vector, upper: Vector)
    requires law.breakEnergy != 0.0 && |lower + upper| > 0
    requires forall i :: 0 <= i < |lower| ==> lower[i] <= law.breakEnergy
    requires forall i :: 0 <= i < |upper| ==> law.breakEnergy < upper[i]
    ensures var all := lower + upper;
      Sum(Portions(m, law, lower, upper, false)) == Antiderivative(m, law, all[|all| - 1]) - Antiderivative(m, law, all[0])
  {
    var normE, norm := law.breakEnergy, Norm(m, law);
    var lp := Diff(Integrals(m, lower, normE, norm, law.lowerIndex));
    var tw := Twixt(m, law, lower, upper, false);
    var up := Diff(Integrals(m, upper, normE, norm, law.upperIndex));
    SumOfConcat(lp + tw, up);
    SumOfConcat(lp, tw);
    var all := lower + upper;
    if |lower| > 0 {
      DiffLowerSum(m, law, lower);
      assert all[0] == lower[0];
    } else {
      assert lp == [];
    }
    if |upper| > 0 {
      DiffUpperSum(m, law, upper);
      assert all[|all| - 1] == upper[|upper| - 1];
    } else {
      assert up == [];
      assert all[|all| - 1] == lower[|lower| - 1];
    }
    if |lower| > 0 && |upper| > 0 {
      assert Sum(tw) == Straddle(m, law, lower[|lower| - 1], upper[0]);
    } else if |lower| > 0 {
      assert Sum(tw) == 0.0;
    } else {
      assert Sum(tw) == 0.0;
      assert all[0] == upper[0];
    }
  }

  /** Summed over all bins, the intended bin integrals add up to the antiderivative's
      increase across the edges, the break included. */
  lemma BinIntegralsTotal(m: Transcendentals, edges: Vector, law: BrokenLaw)
    requires law.breakEnergy != 0.0 && Increasing(edges) && |edges| > 0
    ensures Sum(BinIntegrals(m, edges, law, false))
      == Antiderivative(m, law, edges[|edges| - 1]) - Antiderivative(m, law, edges[0])
  {
    SplitOfIncreasing(edges, law.breakEnergy);
    assert AtMost(edges, law.breakEnergy) + Above(edges, law.breakEnergy) == edges;
    PortionsTotal(m, law, AtMost(edges, law.breakEnergy), Above(edges, law.breakEnergy));
  }

  /** Dividing by the widths and weighting by them again gives the bin integrals back. */
  lemma BinnedFluxTimesWidths(m: Transcendentals, edges: Vector, law: BrokenLaw)
    requires law.breakEnergy != 0.0 && Increasing(edges) && |edges| > 0
    ensures BinnedFlux(m, edges, law).Ok?
    ensures Sum(Hadamard(BinnedFlux(m, edges, law).value, Diff(edges)))
      == Antiderivative(m, law, edges[|edges| - 1]) - Antiderivative(m, law, edges[0])
  {
    var ret := BinIntegrals(m, edges, law, false);
    var w := Diff(edges);
    var r := BinnedFlux(m, edges, law).value;
    SplitSizes(edges, law.breakEnergy);
    assert |ret| == |w|;
    assert r == Divide(ret, w);
    forall i | 0 <= i < |w| ensures w[i] != 0.0 {
      assert w[i] == edges[i + 1] - edges[i];
    }
    HadamardOfDivide(ret, w);
    BinIntegralsTotal(m, edges, law);
  }

  /** With a flat law below a break at 1 keV and a 1/E law above it, a single bin
      from e⁻¹ to e keV straddles the break.  The source's bin integral is e, while
      the broken law's integral over the bin is 2 − e⁻¹. */
  lemma StraddleCounterexample(m: Transcendentals)
    requires ExpLaws(m) && LogLaws(m)
    ensures var law := BrokenLaw(1.0, 1.0, 1.0, 0.0, 1.0);
      var edges := [m.exp(-1.0), m.exp(1.0)];
      && BinIntegrals(m, edges, law, true) == [m.exp(1.0)]
      && BinIntegrals(m, edges, law, false) == [2.0 - m.exp(-1.0)]
      && Antiderivative(m, law, edges[1]) - Antiderivative(m, law, edges[0]) == 2.0 - m.exp(-1.0)
      && m.exp(1.0) != 2.0 - m.exp(-1.0)
  {
    var law := BrokenLaw(1.0, 1.0, 1.0, 0.0, 1.0);
    var lo, hi := m.exp(-1.0), m.exp(1.0);
    var edges := [lo, hi];
    assert lo < 1.0 < hi by {
      assert m.exp(-1.0) < m.exp(0.0) < m.exp(1.0);
    }
    PowOfOne(m, 0.0);
    assert Norm(m, law) == 1.0;
    LnOfOne(m);
    assert AtMost(edges, 1.0) == [lo] by {
      assert edges[1..] == [hi];
      assert AtMost([hi], 1.0) == [];
    }
    assert Above(edges, 1.0) == [hi] by {
      assert edges[1..] == [hi];
    }
    PowerLawIntegralFlat(m, hi, 1.0, 1.0);
    PowerLawIntegralFlat(m, lo, 1.0, 1.0);
    PowerLawIntegralFlat(m, 1.0, 1.0, 1.0);
    assert Upper(m, law, lo) == -1.0 by {
      assert lo / 1.0 == lo;
    }
    assert Upper(m, law, hi) == 1.0 by {
      assert hi / 1.0 == hi;
    }
    assert Upper(m, law, 1.0) == 0.0;
    assert Integrals(m, [lo], 1.0, 1.0, 0.0) == [Lower(m, law, lo)];
    assert Integrals(m, [hi], 1.0, 1.0, 1.0) == [Upper(m, law, hi)];
  }

  // ---------------------------------------------------------------- the spectrum

  /** The thermal model is trusted only on (1.001, 200.15) keV. */
  const ThermalLowerLimit: real := 1.001
  const ThermalUpperLimit: real := 200.15

  function CountWhere(xs: Vector, lo: real, hi: real): (n: nat)
    ensures n <= |xs|
  {
    if |xs| == 0 then 0 else (if lo < xs[0] < hi then 1 else 0) + CountWhere(xs[1..], lo, hi)
  }

  /** `edges[(edges > 1.001) & (edges < 200.15)]`. */
  function ThermalEdges(edges: Vector): (t: Vector)
    ensures forall i :: 0 <= i < |t| ==> ThermalLowerLimit < t[i] < ThermalUpperLimit
  {
    if |edges| == 0 then []
    else if ThermalLowerLimit < edges[0] < ThermalUpperLimit then [edges[0]] + ThermalEdges(edges[1..])
    else ThermalEdges(edges[1..])
  }

  /** `np.sum(~over_cnd)` and `np.sum(~under_cnd)`. */
  function CountBelow(edges: Vector): nat {
    if |edges| == 0 then 0 else (if edges[0] <= ThermalLowerLimit then 1 else 0) + CountBelow(edges[1..])
  }

  function CountAbove(edges: Vector): nat {
    if |edges| == 0 then 0 else (if ThermalUpperLimit <= edges[0] then 1 else 0) + CountAbove(edges[1..])
  }

  /** The three classes of edges partition the edges. */
  lemma {:induction false} ThermalPartition(edges: Vector)
    ensures CountBelow(edges) + |ThermalEdges(edges)| + CountAbove(edges) == |edges|
  {
    if |edges| > 0 {
      ThermalPartition(edges[1..]);
    }
  }

  /** The thermal spectrum surrounded by the zero padding for the edges outside the
      window. */
  function PadThermal(edges: Vector, thermal: Vector): (r: Vector)
    ensures |r| == CountBelow(edges) + |thermal| + CountAbove(edges)
  {
    Zeros(CountBelow(edges)) + thermal + Zeros(CountAbove(edges))
  }

  /** A binned thermal model on the window edges gives one value per bin of the window;
      padded, it has one value per bin of the full edges. */
  lemma PaddedThermalSize(edges: Vector, thermal: Vector)
    requires |ThermalEdges(edges)| > 0 && |thermal| == |ThermalEdges(edges)| - 1
    ensures |PadThermal(edges, thermal)| == |edges| - 1
  {
    ThermalPartition(edges);
  }

  /** `thermal + nonthermal` with NumPy broadcasting of one-dimensional arrays: equal
      lengths add entrywise, a length-1 operand is broadcast, anything else raises
      ValueError. */
  function BroadcastAdd(u: Vector, v: Vector): (r: Result<Vector>)
    ensures r.Ok? <==> |u| == |v| || |u| == 1 || |v| == 1
    ensures r.Ok? && |u| == |v| ==> r.value == Add(u, v)
    ensures r.Ok? ==> |r.value| == if |u| == |v| || |v| == 1 then |u| else |v|
  {
    if |u| == |v| then Ok(Add(u, v))
    else if |u| == 1 then Ok(seq(|v|, i requires 0 <= i < |v| => u[0] + v[i]))
    else if |v| == 1 then Ok(seq(|u|, i requires 0 <= i < |u| => u[i] + v[0]))
    else Err(ValueError("operands could not be broadcast together"))
  }

  function Add(u: Vector, v: Vector): (w: Vector)
    requires |u| == |v|
    ensures |w| == |u| && forall i :: 0 <= i < |u| ==> w[i] == u[i] + v[i]
  {
    seq(|u|, i requires 0 <= i < |u| => u[i] + v[i])
  }

  datatype Spectrum = Spectrum(goesClass: string, thermal: Vector, nonthermal: Vector, energyEdges: Vector)

  /** The `flare` property: recomputed on every access, so a shape mismatch surfaces
      there. */
  function Flare(s: Spectrum): (r: Result<Vector>)
    ensures |s.thermal| == |s.nonthermal| ==> r == Ok(Add(s.thermal, s.nonthermal))
  {
    BroadcastAdd(s.thermal, s.nonthermal)
  }

  /** The `goes_flux` property: the flux the class letter stands for times the
      parsed multiplier, or the lookup's error. */
  function GoesFlux(s: Spectrum): (r: Result<real>)
    ensures |s.goesClass| == 0 ==> r == Err(IndexError)
    ensures r.Ok? <==> |s.goesClass| > 0 && Text.UpperChar(s.goesClass[0]) in GoesPrefix()
                       && Text.ParseFloat(s.goesClass[1..]).Ok?
    ensures r.Ok? ==> r.value == GoesPrefix()[Text.UpperChar(s.goesClass[0])] * Text.ParseFloat(s.goesClass[1..]).value
  {
    GoesClassLookupOutcomes(s.goesClass);
    GoesClassLookup(s.goesClass)
  }

  /** The thermal emission model (`sunxspex.thermal.thermal_emission`) of the edges,
      temperature and emission measure: a parameter of the model. */
  type ThermalModel = (Vector, real, real) -> Vector

  /** A binned model returns one value per bin. */
  ghost predicate Binned(thermal: ThermalModel) {
    forall xs: Vector, t: real, em: real :: |xs| > 0 ==> |thermal(xs, t, em)| == |xs| - 1
  }

  /** `make_with_battaglia_scaling`; the relative abundance argument is not used, and a
      break energy of zero fails in the binned law with ZeroDivisionError. */
  function MakeWithBattagliaScaling(
    m: Transcendentals, thermal: ThermalModel, goesClass: string, edges: Vector, breakEnergy: real): (r: Result<Spectrum>)
    requires ExpLaws(m) && LogLaws(m)
    requires breakEnergy != 0.0 ==> DistinctNeighbours(edges)
    ensures r.Ok? ==> r.value.goesClass == goesClass && r.value.energyEdges == edges
    ensures r.Ok? <==> GoesClassLookup(goesClass).Ok? && breakEnergy != 0.0 && |edges| > 0
    ensures GoesClassLookup(goesClass).Ok? && breakEnergy == 0.0 ==> r == Err(ZeroDivisionError)
  {
    match GoesClassLookup(goesClass)
    case Err(e) => Err(e)
    case Ok(flux) =>
      var bp := BattagliaParameters(m, flux);
      var thermalSpec := PadThermal(edges, thermal(ThermalEdges(edges), bp.plasmaTemp, bp.emissionMeasure));
      var law := BrokenLaw(bp.referenceEnergy, bp.referenceFlux, breakEnergy, BelowIndex, bp.spectralIndex);
      match BinnedFluxAsWritten(m, edges, law)
      case Err(e) => Err(e)
      case Ok(nonthermal) => Ok(Spectrum(goesClass, thermalSpec, nonthermal, edges))
  }

  /** When some edge lies inside the thermal window, the two parts of a made spectrum
      have one value per bin, so its flare is their entrywise sum. */
  lemma MadeFlareIsSum(m: Transcendentals, thermal: ThermalModel, goesClass: string, edges: Vector, breakEnergy: real)
    requires ExpLaws(m) && LogLaws(m)
    requires breakEnergy != 0.0 && DistinctNeighbours(edges) && Binned(thermal)
    requires |ThermalEdges(edges)| > 0
    requires GoesClassLookup(goesClass).Ok?
    ensures MakeWithBattagliaScaling(m, thermal, goesClass, edges, breakEnergy).Ok?
    ensures var s := MakeWithBattagliaScaling(m, thermal, goesClass, edges, breakEnergy).value;
      && |s.thermal| == |s.nonthermal| == |edges| - 1
      && Flare(s) == Ok(Add(s.thermal, s.nonthermal))
  {
    assert |edges| > 0 by {
      assert |ThermalEdges(edges)| <= |edges| by {
        ThermalPartition(edges);
      }
    }
    var flux := GoesClassLookup(goesClass).value;
    var bp := BattagliaParameters(m, flux);
    var t := thermal(ThermalEdges(edges), bp.plasmaTemp, bp.emissionMeasure);
    PaddedThermalSize(edges, t);
  }
}
