/** A layer of material in `adetsim/sim_src/Material.py`: its geometry, the per-bin
    transmission probabilities for photoelectric absorption and Rayleigh scattering
    (the bin average of `exp(-μ(E)·ρ·t)`), the neutral Compton factor, and the
    overall response, the entrywise product of the chosen factors. */
module BinnedMaterial {
  import opened Outcomes
  import opened Linear
  import opened RealMath
  import Text
  import Attenuation
  import FlareSpectrum

  // ---------------------------------------------------------------- the material

  datatype Material = Material(
    name: string,
    diameter: real,       // cm
    massDensity: real,    // g / cm³
    data: Attenuation.AttenuationData,
    thickness: real)      // cm

  const NoName: string := "(no name given)"

  /** The constructor: `name or "(no name given)"`, so a missing or empty name is
      replaced and any other is kept. */
  function MakeMaterial(diameter: real, thickness: real, massDensity: real,
                        data: Attenuation.AttenuationData, name: Option<string>): (r: Material)
    ensures r.name == (if name.Some? && name.value != "" then name.value else NoName)
    ensures r.diameter == diameter && r.thickness == thickness && r.massDensity == massDensity && r.data == data
  {
    Material(if name.Some? && name.value != "" then name.value else NoName, diameter, massDensity, data, thickness)
  }

  /** The `area` property: the face of a cylinder of the given diameter. */
  function Area(m: Transcendentals, mat: Material): real {
    FaceArea(m, mat.diameter)
  }

  /** `(diameter / 2)**2 * np.pi`. */
  function FaceArea(m: Transcendentals, diameter: real): real {
    (diameter / 2.0) * (diameter / 2.0) * m.pi
  }

  /** A diameter of `2·sqrt(A/π)` (how the detector stacks size their layers) gives
      back the face area `A`. */
  lemma AreaOfDiameter(m: Transcendentals, mat: Material, area: real)
    requires SqrtLaws(m) && 0.0 < m.pi && 0.0 <= area
    requires mat.diameter == 2.0 * m.sqrt(area / m.pi)
    ensures Area(m, mat) == area
  {
    var s := m.sqrt(area / m.pi);
    assert s * s == area / m.pi;
    assert mat.diameter / 2.0 == s;
    assert s * s * m.pi == area;
  }

  // ---------------------------------------------------------------- transmission

  /** `exp(log_interpolate(which, x))`: the summed mass attenuation coefficient at
      log-energy `x`, zero when the material has no elements. */
  function MassAttenuation(m: Transcendentals, data: Attenuation.AttenuationData, which: int, x: real): real
    requires which in data.interpolators
  {
    Attenuation.ExpOf(m, Attenuation.LogInterpolate(m, data, which, x).value)
  }

  /** `transm_prob(E) = exp(-exp(log_att(ln E))·ρ·t)`. */
  function TransmissionAt(m: Transcendentals, mat: Material, which: int, e: real): real
    requires which in mat.data.interpolators
  {
    m.exp(-1.0 * MassAttenuation(m, mat.data, which, m.ln(e)) * mat.massDensity * mat.thickness)
  }

  /** `transm_prob` as the integrand handed to `quad`. */
  function Transmission(m: Transcendentals, mat: Material, which: int): (f: real -> real)
    requires which in mat.data.interpolators
    ensures forall e :: f(e) == TransmissionAt(m, mat, which, e)
  {
    e => TransmissionAt(m, mat, which, e)
  }

  /** The attenuation coefficient is never negative. */
  lemma MassAttenuationNonNegative(m: Transcendentals, data: Attenuation.AttenuationData, which: int, x: real)
    requires ExpLaws(m) && which in data.interpolators
    ensures 0.0 <= MassAttenuation(m, data, which, x)
  {
  }

  /** Through a non-negative amount of matter the transmission probability lies in
      (0, 1], and through no matter at all it is 1. */
  lemma TransmissionIsProbability(m: Transcendentals, mat: Material, which: int, e: real)
    requires ExpLaws(m) && which in mat.data.interpolators
    requires 0.0 <= mat.massDensity && 0.0 <= mat.thickness
    ensures 0.0 < TransmissionAt(m, mat, which, e) <= 1.0
    ensures mat.thickness == 0.0 ==> TransmissionAt(m, mat, which, e) == 1.0
  {
    var a := MassAttenuation(m, mat.data, which, m.ln(e));
    MassAttenuationNonNegative(m, mat.data, which, m.ln(e));
    NonPositiveExponent(a, mat.massDensity, mat.thickness);
    ExpOfNonPositive(m, -1.0 * a * mat.massDensity * mat.thickness);
  }

  lemma NonPositiveExponent(a: real, rho: real, t: real)
    requires 0.0 <= a && 0.0 <= rho && 0.0 <= t
    ensures -1.0 * a * rho * t <= 0.0
    ensures t == 0.0 ==> -1.0 * a * rho * t == 0.0
  {
    assert 0.0 <= a * rho;
    assert 0.0 <= a * rho * t;
  }

  /** The transmission probability averaged over the bin `[lo, hi]` by quadrature. */
  function BinAverage(m: Transcendentals, mat: Material, which: int, lo: real, hi: real): real
    requires which in mat.data.interpolators && lo != hi
  {
    m.quad(Transmission(m, mat, which), lo, hi) / (hi - lo)
  }

  /** A bin average of probabilities is a probability. */
  lemma BinAverageIsProbability(m: Transcendentals, mat: Material, which: int, lo: real, hi: real)
    requires ExpLaws(m) && QuadLaws(m) && which in mat.data.interpolators && lo < hi
    requires 0.0 <= mat.massDensity && 0.0 <= mat.thickness
    ensures 0.0 < BinAverage(m, mat, which, lo, hi) <= 1.0
  {
    var f := Transmission(m, mat, which);
    forall x | lo <= x <= hi ensures 0.0 < f(x) <= 1.0 {
      TransmissionIsProbability(m, mat, which, x);
    }
    QuadAverageOfProbability(m, f, lo, hi);
  }

  /** A layer of zero thickness transmits every bin completely. */
  lemma BinAverageOfNoThickness(m: Transcendentals, mat: Material, which: int, lo: real, hi: real)
    requires ExpLaws(m) && QuadLaws(m) && which in mat.data.interpolators && lo < hi
    requires 0.0 <= mat.massDensity && mat.thickness == 0.0
    ensures BinAverage(m, mat, which, lo, hi) == 1.0
  {
    var f := Transmission(m, mat, which);
    forall x | lo <= x <= hi ensures f(x) == 1.0 {
      TransmissionIsProbability(m, mat, which, x);
    }
    QuadAverageOfOne(m, f, lo, hi);
  }

  // ---------------------------------------------------------------- modifying factors

  /** `_gen_phot_ray(which, spectrum)`: an array of the flare's size whose first
      `len(edges) - 1` entries are the bin averages.  The flare is read first; the
      first bin's quadrature fails with KeyError on an unknown mechanism; writing
      past the end of the array fails with IndexError.  A bin whose two edges are
      equal divides quad's 0 by a zero width, which NumPy turns into NaN without
      raising; the model holds `ZeroWidthBin` there, and no contract states that
      bin's value. */
  function PhotRay(m: Transcendentals, mat: Material, which: int, spec: FlareSpectrum.Spectrum): (r: Result<Vector>)
    ensures FlareSpectrum.Flare(spec).Err? ==> r == FlareSpectrum.Flare(spec)
    ensures r.Ok? ==> |r.value| == |FlareSpectrum.Flare(spec).value|
    ensures r.Ok? && |spec.energyEdges| <= 1 ==> r.value == Zeros(|r.value|)
    ensures r.Err? && FlareSpectrum.Flare(spec).Ok? ==>
      && |spec.energyEdges| > 1
      && (r.error.KeyError? <==> which !in mat.data.interpolators)
      && (r == Err(IndexError) <==> which in mat.data.interpolators && |spec.energyEdges| - 1 > |FlareSpectrum.Flare(spec).value|)
    ensures r.Ok? && |spec.energyEdges| > 1 ==> which in mat.data.interpolators && forall i :: 0 <= i < |r.value| ==>
      (i < |spec.energyEdges| - 1 && spec.energyEdges[i] != spec.energyEdges[i + 1] ==>
         r.value[i] == BinAverage(m, mat, which, spec.energyEdges[i], spec.energyEdges[i + 1]))
      && (i >= |spec.energyEdges| - 1 ==> r.value[i] == 0.0)
  {
    match FlareSpectrum.Flare(spec)
    case Err(e) => Err(e)
    case Ok(flare) =>
      var edges := spec.energyEdges;
      if |edges| <= 1 then Ok(Zeros(|flare|))
      else if which !in mat.data.interpolators then Err(KeyError(Text.IntToString(which)))
      else if |edges| - 1 > |flare| then Err(IndexError)
      else
        Ok(seq(|flare|, i requires 0 <= i < |flare| =>
          if i >= |edges| - 1 then 0.0
          else if edges[i] == edges[i + 1] then ZeroWidthBin
          else BinAverage(m, mat, which, edges[i], edges[i + 1])))
  }

  /** The real the model holds where NumPy computes NaN, `0 / 0` on a bin of zero
      width. */
  const ZeroWidthBin: real := 0.0

  /** `_gen_compton`: not implemented, so every bin passes unchanged; with no edges
      at all `np.ones(-1)` raises ValueError. */
  function Compton(spec: FlareSpectrum.Spectrum): (r: Result<Vector>)
    ensures r.Err? <==> |spec.energyEdges| == 0
    ensures r.Ok? ==> r.value == Ones(|spec.energyEdges| - 1)
  {
    if |spec.energyEdges| == 0 then Err(NegativeDimensions) else Ok(Ones(|spec.energyEdges| - 1))
  }

  const NegativeDimensions: Error := ValueError("negative dimensions are not allowed")

  /** `generate_modifying_matrix_for(k, spectrum)`: the factor of mechanism `k`, or
      KeyError for a code outside `AttenuationType.ALL`. */
  function Modifying(m: Transcendentals, mat: Material, k: int, spec: FlareSpectrum.Spectrum): (r: Result<Vector>)
    ensures k !in Attenuation.All ==> r == Err(KeyError(Text.IntToString(k)))
    ensures k == Attenuation.Compton ==> r == Compton(spec)
    ensures k in {Attenuation.Photoelectric, Attenuation.Rayleigh} ==> r == PhotRay(m, mat, k, spec)
  {
    if k == Attenuation.Photoelectric || k == Attenuation.Rayleigh then PhotRay(m, mat, k, spec)
    else if k == Attenuation.Compton then Compton(spec)
    else Err(KeyError(Text.IntToString(k)))
  }

  /** `gen_char_xrays`: characteristic x-rays are not implemented. */
  function CharacteristicXrays(mat: Material, photoelectric: Vector, spec: FlareSpectrum.Spectrum): (r: Result<Vector>)
    ensures r == Err(NotImplementedError)
  {
    Err(NotImplementedError)
  }

  // ---------------------------------------------------------------- overall response

  /** `vec *= factor`: NumPy's in-place product keeps the shape of `vec`, so the
      factor must have the same length or length one. */
  function InPlaceMultiply(vec: Vector, factor: Vector): (r: Result<Vector>)
    ensures r.Ok? <==> |factor| == |vec| || |factor| == 1
    ensures r.Ok? ==> |r.value| == |vec|
    ensures r.Ok? ==> forall i :: 0 <= i < |vec| ==>
      r.value[i] == vec[i] * (if |factor| == |vec| then factor[i] else factor[0])
  {
    if |factor| == |vec| then Ok(Hadamard(vec, factor))
    else if |factor| == 1 then Ok(Scale(factor[0], vec))
    else Err(ValueError("non-broadcastable output operand"))
  }

  /** The loop of `generate_overall_response_matrix_given` from `vec` on, over the
      factors in list order; the first failing factor or product ends it. */
  function Fold(vec: Vector, factors: seq<Result<Vector>>): (r: Result<Vector>)
    ensures r.Ok? ==> |r.value| == |vec|
    decreases |factors|
  {
    if |factors| == 0 then Ok(vec)
    else
      match factors[0]
      case Err(e) => Err(e)
      case Ok(factor) =>
        match InPlaceMultiply(vec, factor)
        case Err(e) => Err(e)
        case Ok(next) => Fold(next, factors[1..])
  }

  /** The factor of each listed mechanism, in list order.  Computing them all before
      the loop changes nothing, as each depends only on the material and spectrum. */
  function Factors(m: Transcendentals, mat: Material, spec: FlareSpectrum.Spectrum, ks: seq<int>): (fs: seq<Result<Vector>>)
    ensures |fs| == |ks| && forall j :: 0 <= j < |ks| ==> fs[j] == Modifying(m, mat, ks[j], spec)
  {
    seq(|ks|, j requires 0 <= j < |ks| => Modifying(m, mat, ks[j], spec))
  }

  /** The number of bins, `len(energy_edges) - 1`. */
  function Bins(spec: FlareSpectrum.Spectrum): int {
    |spec.energyEdges| - 1
  }

  /** `generate_overall_response_matrix_given(spectrum, attenuations)`: ones, one per
      bin, multiplied in place by each mechanism's factor in list order. */
  function OverallResponse(m: Transcendentals, mat: Material, spec: FlareSpectrum.Spectrum, ks: seq<int>): (r: Result<Vector>)
    ensures |spec.energyEdges| == 0 ==> r == Err(NegativeDimensions)
    ensures r.Ok? ==> |r.value| == Bins(spec)
  {
    if |spec.energyEdges| == 0 then Err(NegativeDimensions)
    else Fold(Ones(Bins(spec)), Factors(m, mat, spec, ks))
  }

  // ---------------------------------------------------------------- product form

  /** Every factor succeeded with one entry per bin. */
  predicate Conformable(factors: seq<Result<Vector>>, n: int) {
    forall j :: 0 <= j < |factors| ==> factors[j].Ok? && |factors[j].value| == n
  }

  /** The product of the factors at entry `i`. */
  function EntryProduct(factors: seq<Result<Vector>>, n: int, i: nat): real
    requires Conformable(factors, n) && i < n
  {
    if |factors| == 0 then 1.0 else factors[0].value[i] * EntryProduct(factors[1..], n, i)
  }

  lemma ConformableOfTail(factors: seq<Result<Vector>>, n: int)
    requires Conformable(factors, n) && |factors| > 0
    ensures Conformable(factors[1..], n)
  {
    forall j | 0 <= j < |factors[1..]| ensures factors[1..][j] == factors[j + 1] { }
  }

  /** Folding conformable factors into `vec` multiplies every entry by the product of
      the factors at that entry. */
  lemma {:induction false} FoldIsProduct(vec: Vector, factors: seq<Result<Vector>>)
    requires Conformable(factors, |vec|)
    ensures Fold(vec, factors).Ok?
    ensures forall i :: 0 <= i < |vec| ==> Fold(vec, factors).value[i] == vec[i] * EntryProduct(factors, |vec|, i)
    decreases |factors|
  {
    if |factors| > 0 {
      var factor := factors[0].value;
      var next := Hadamard(vec, factor);
      assert InPlaceMultiply(vec, factor) == Ok(next);
      ConformableOfTail(factors, |vec|);
      FoldIsProduct(next, factors[1..]);
      forall i | 0 <= i < |vec|
        ensures Fold(vec, factors).value[i] == vec[i] * EntryProduct(factors, |vec|, i)
      {
        var p := EntryProduct(factors[1..], |vec|, i);
        assert Fold(vec, factors).value[i] == next[i] * p;
        assert (vec[i] * factor[i]) * p == vec[i] * (factor[i] * p);
      }
    }
  }

  lemma {:induction false} EntryProductOfConcat(a: seq<Result<Vector>>, b: seq<Result<Vector>>, n: int, i: nat)
    requires Conformable(a, n) && Conformable(b, n) && i < n
    ensures Conformable(a + b, n)
    ensures EntryProduct(a + b, n, i) == EntryProduct(a, n, i) * EntryProduct(b, n, i)
  {
    assert forall j :: 0 <= j < |a| ==> (a + b)[j] == a[j];
    assert forall j :: 0 <= j < |b| ==> (a + b)[|a| + j] == b[j];
    if |a| == 0 {
      assert a + b == b;
    } else {
      assert (a + b)[0] == a[0] && (a + b)[1..] == a[1..] + b;
      ConformableOfTail(a, n);
      EntryProductOfConcat(a[1..], b, n, i);
      var x := a[0].value[i];
      var p, q := EntryProduct(a[1..], n, i), EntryProduct(b, n, i);
      assert x * (p * q) == (x * p) * q;
    }
  }

  /** The mechanisms of a list, in a list. */
  predicate AllConform(m: Transcendentals, mat: Material, spec: FlareSpectrum.Spectrum, ks: seq<int>)
  {
    Conformable(Factors(m, mat, spec, ks), Bins(spec))
  }

  lemma FactorsOfConcat(m: Transcendentals, mat: Material, spec: FlareSpectrum.Spectrum, a: seq<int>, b: seq<int>)
    ensures Factors(m, mat, spec, a + b) == Factors(m, mat, spec, a) + Factors(m, mat, spec, b)
  {
    var u, v := Factors(m, mat, spec, a + b), Factors(m, mat, spec, a) + Factors(m, mat, spec, b);
    forall j | 0 <= j < |a + b| ensures u[j] == v[j] {
      if j < |a| {
        assert (a + b)[j] == a[j];
      } else {
        assert (a + b)[j] == b[j - |a|];
      }
    }
  }

  /** The overall response is, bin by bin, the product of the chosen factors. */
  lemma OverallIsProduct(m: Transcendentals, mat: Material, spec: FlareSpectrum.Spectrum, ks: seq<int>)
    requires |spec.energyEdges| > 0 && AllConform(m, mat, spec, ks)
    ensures OverallResponse(m, mat, spec, ks).Ok?
    ensures forall i :: 0 <= i < Bins(spec) ==>
      OverallResponse(m, mat, spec, ks).value[i] == EntryProduct(Factors(m, mat, spec, ks), Bins(spec), i)
  {
    FoldIsProduct(Ones(Bins(spec)), Factors(m, mat, spec, ks));
  }

  /** The factors commute, as the source's comment says: listing two groups of
      mechanisms in either order gives the same response. */
  lemma OverallCommutes(m: Transcendentals, mat: Material, spec: FlareSpectrum.Spectrum, a: seq<int>, b: seq<int>)
    requires |spec.energyEdges| > 0 && AllConform(m, mat, spec, a) && AllConform(m, mat, spec, b)
    ensures OverallResponse(m, mat, spec, a + b) == OverallResponse(m, mat, spec, b + a)
  {
    var n := Bins(spec);
    var fa, fb := Factors(m, mat, spec, a), Factors(m, mat, spec, b);
    FactorsOfConcat(m, mat, spec, a, b);
    FactorsOfConcat(m, mat, spec, b, a);
    forall i | 0 <= i < n
      ensures EntryProduct(fa + fb, n, i) == EntryProduct(fb + fa, n, i)
    {
      EntryProductOfConcat(fa, fb, n, i);
      EntryProductOfConcat(fb, fa, n, i);
    }
    OverallIsProduct(m, mat, spec, a + b);
    OverallIsProduct(m, mat, spec, b + a);
    var u, v := OverallResponse(m, mat, spec, a + b).value, OverallResponse(m, mat, spec, b + a).value;
    assert u == v;
  }

  /** Compton scattering leaves the response unchanged wherever it is listed. */
  lemma ComptonIsNeutral(m: Transcendentals, mat: Material, spec: FlareSpectrum.Spectrum, a: seq<int>, b: seq<int>)
    requires |spec.energyEdges| > 0 && AllConform(m, mat, spec, a) && AllConform(m, mat, spec, b)
    ensures OverallResponse(m, mat, spec, a + [Attenuation.Compton] + b) == OverallResponse(m, mat, spec, a + b)
  {
    var n := Bins(spec);
    var fa, fb := Factors(m, mat, spec, a), Factors(m, mat, spec, b);
    var fc := Factors(m, mat, spec, [Attenuation.Compton]);
    ComptonFactor(m, mat, spec);
    FactorsOfConcat(m, mat, spec, a, [Attenuation.Compton]);
    FactorsOfConcat(m, mat, spec, a + [Attenuation.Compton], b);
    FactorsOfConcat(m, mat, spec, a, b);
    forall i | 0 <= i < n
      ensures EntryProduct(fa + fc + fb, n, i) == EntryProduct(fa + fb, n, i)
    {
      NeutralFactor(fa, fb, n, i);
    }
    OverallIsProduct(m, mat, spec, a + [Attenuation.Compton] + b);
    OverallIsProduct(m, mat, spec, a + b);
    var u, v := OverallResponse(m, mat, spec, a + [Attenuation.Compton] + b).value, OverallResponse(m, mat, spec, a + b).value;
    assert u == v;
  }

  lemma ComptonFactor(m: Transcendentals, mat: Material, spec: FlareSpectrum.Spectrum)
    requires |spec.energyEdges| > 0
    ensures Factors(m, mat, spec, [Attenuation.Compton]) == [Ok(Ones(Bins(spec)))]
  {
    assert Modifying(m, mat, Attenuation.Compton, spec) == Ok(Ones(Bins(spec)));
  }

  lemma NeutralFactor(fa: seq<Result<Vector>>, fb: seq<Result<Vector>>, n: nat, i: nat)
    requires Conformable(fa, n) && Conformable(fb, n) && i < n
    ensures Conformable(fa + [Ok(Ones(n))] + fb, n) && Conformable(fa + fb, n)
    ensures EntryProduct(fa + [Ok(Ones(n))] + fb, n, i) == EntryProduct(fa + fb, n, i)
  {
    var fc := [Ok(Ones(n))];
    assert Conformable(fc, n);
    EntryProductOfConcat(fa, fc, n, i);
    EntryProductOfConcat(fa + fc, fb, n, i);
    EntryProductOfConcat(fa, fb, n, i);
    assert EntryProduct(fc, n, i) == 1.0 by {
      assert fc[1..] == [];
    }
  }

  /** Listing no mechanism gives a response of ones. */
  lemma OverallOfNothing(m: Transcendentals, mat: Material, spec: FlareSpectrum.Spectrum)
    requires |spec.energyEdges| > 0
    ensures OverallResponse(m, mat, spec, []) == Ok(Ones(Bins(spec)))
  {
  }

  /** A product of probabilities is a probability, and a product of ones is one. */
  lemma {:induction false} EntryProductBounds(factors: seq<Result<Vector>>, n: int, i: nat)
    requires Conformable(factors, n) && i < n
    requires forall j :: 0 <= j < |factors| ==> 0.0 < factors[j].value[i] <= 1.0
    ensures 0.0 < EntryProduct(factors, n, i) <= 1.0
    ensures (forall j :: 0 <= j < |factors| ==> factors[j].value[i] == 1.0) ==> EntryProduct(factors, n, i) == 1.0
  {
    if |factors| > 0 {
      ConformableOfTail(factors, n);
      assert forall j :: 0 <= j < |factors[1..]| ==> factors[1..][j] == factors[j + 1];
      EntryProductBounds(factors[1..], n, i);
      var x, p := factors[0].value[i], EntryProduct(factors[1..], n, i);
      assert 0.0 < x * p;
      assert x * p <= 1.0 * p;
    }
  }

  /** Each factor of one entry per bin is, in every bin, a probability, and 1 for a
      layer of zero thickness. */
  lemma FactorIsProbability(m: Transcendentals, mat: Material, k: int, spec: FlareSpectrum.Spectrum, i: nat)
    requires ExpLaws(m) && QuadLaws(m)
    requires FlareSpectrum.Increasing(spec.energyEdges)
    requires 0.0 <= mat.massDensity && 0.0 <= mat.thickness
    requires Modifying(m, mat, k, spec).Ok? && |Modifying(m, mat, k, spec).value| == Bins(spec) && 0 <= i < Bins(spec)
    ensures 0.0 < Modifying(m, mat, k, spec).value[i] <= 1.0
    ensures mat.thickness == 0.0 ==> Modifying(m, mat, k, spec).value[i] == 1.0
  {
    if k != Attenuation.Compton {
      var edges := spec.energyEdges;
      assert edges[i] < edges[i + 1];
      BinAverageIsProbability(m, mat, k, edges[i], edges[i + 1]);
      if mat.thickness == 0.0 {
        BinAverageOfNoThickness(m, mat, k, edges[i], edges[i + 1]);
      }
    }
  }

  /** Through matter of non-negative density and thickness, on increasing edges,
      every bin of the response is a probability, and a layer of zero thickness
      transmits everything. */
  lemma OverallIsProbability(m: Transcendentals, mat: Material, spec: FlareSpectrum.Spectrum, ks: seq<int>)
    requires ExpLaws(m) && QuadLaws(m)
    requires FlareSpectrum.Increasing(spec.energyEdges)
    requires 0.0 <= mat.massDensity && 0.0 <= mat.thickness
    requires |spec.energyEdges| > 0 && AllConform(m, mat, spec, ks)
    ensures OverallResponse(m, mat, spec, ks).Ok?
    ensures forall i :: 0 <= i < Bins(spec) ==> 0.0 < OverallResponse(m, mat, spec, ks).value[i] <= 1.0
    ensures mat.thickness == 0.0 ==> OverallResponse(m, mat, spec, ks) == Ok(Ones(Bins(spec)))
  {
    var n := Bins(spec);
    var fs := Factors(m, mat, spec, ks);
    OverallIsProduct(m, mat, spec, ks);
    forall i | 0 <= i < n
      ensures 0.0 < EntryProduct(fs, n, i) <= 1.0
      ensures mat.thickness == 0.0 ==> EntryProduct(fs, n, i) == 1.0
    {
      forall j | 0 <= j < |fs|
        ensures 0.0 < fs[j].value[i] <= 1.0
        ensures mat.thickness == 0.0 ==> fs[j].value[i] == 1.0
      {
        FactorIsProbability(m, mat, ks[j], spec, i);
      }
      EntryProductBounds(fs, n, i);
    }
    if mat.thickness == 0.0 {
      assert OverallResponse(m, mat, spec, ks).value == Ones(n);
    }
  }
}
