/** The detector stack of `adetsim/sim_src/DetectorStack.py` and the HaFX stack of
    `adetsim/hafx_src/HafxStack.py`, whose layers of material answer with one
    transmission probability per energy bin (a vector) rather than a matrix.

    The stack code still folds them with `np.matmul` from `np.identity(n)`, where `n`
    is the size of the spectrum's `energies`.  The model follows that code as
    written and keeps beside it the evidently intended entrywise product:
    - the first layer turns the identity into a vector, the second turns that into a
      scalar, and a third cannot be multiplied at all;
    - `ident - vec` broadcasts the scintillator's vector across the rows of the
      identity, so the result is a full matrix and not `diag(1 - T)`;
    - `energies` is an attribute the spectrum class of `adetsim/sim_src` does not
      define, so the incident spectrum's energies are optional here. */
module VectorStack {
  import opened Outcomes
  import opened Linear
  import opened RealMath
  import Attenuation
  import FlareSpectrum
  import BinnedMaterial
  import Dispersion
  import MatrixStack

  // ---------------------------------------------------------------- NumPy arrays

  /** A NumPy array of two, one or no dimensions. */
  datatype Array = Mat(rows: Matrix) | Vec(entries: Vector) | Scalar(value: real)

  /** `ndim`. */
  function Ndim(a: Array): nat {
    match a
    case Mat(_) => 2
    case Vec(_) => 1
    case Scalar(_) => 0
  }

  predicate WellFormed(a: Array) {
    a.Mat? ==> Rectangular(a.rows)
  }

  /** The length of the first axis. */
  function Outer(a: Array): nat
    requires !a.Scalar?
  {
    match a
    case Mat(rows) => |rows|
    case Vec(v) => |v|
  }

  /** The length of the last axis. */
  function Inner(a: Array): nat
    requires !a.Scalar?
  {
    match a
    case Mat(rows) => Width(rows)
    case Vec(v) => |v|
  }

  const TooFewDimensions: Error := ValueError("matmul: Input operand does not have enough dimensions")
  const CoreMismatch: Error := ValueError("matmul: Input operand 1 has a mismatch in its core dimension 0")
  const NotBroadcastable: Error := ValueError("operands could not be broadcast together")

  /** `np.matmul(a, b)`: scalars are refused, and otherwise the last axis of `a` is
      summed against the first axis of `b`, which removes one dimension from each. */
  function MatMulArrays(a: Array, b: Array): (r: Result<Array>)
    requires WellFormed(a) && WellFormed(b)
    ensures a.Scalar? || b.Scalar? ==> r == Err(TooFewDimensions)
    ensures !a.Scalar? && !b.Scalar? ==> (r.Ok? <==> Inner(a) == Outer(b))
    ensures r.Err? ==> r.error.ValueError?
    ensures r.Ok? ==> WellFormed(r.value) && Ndim(r.value) + 2 == Ndim(a) + Ndim(b)
  {
    match a
    case Scalar(_) => Err(TooFewDimensions)
    case Vec(u) =>
      (match b
       case Scalar(_) => Err(TooFewDimensions)
       case Vec(v) => if |u| == |v| then Ok(Scalar(Dot(u, v))) else Err(CoreMismatch)
       case Mat(bm) => if |u| == |bm| then Ok(Vec(VecMat(u, bm))) else Err(CoreMismatch))
    case Mat(am) =>
      match b
      case Scalar(_) => Err(TooFewDimensions)
      case Vec(v) => if Width(am) == |v| then Ok(Vec(MatVec(am, v))) else Err(CoreMismatch)
      case Mat(bm) =>
        if Width(am) == |bm| then
          assert Rectangular(MatMul(am, bm)) by {
            assert |am| > 0 ==> Width(MatMul(am, bm)) == Width(bm);
          }
          Ok(Mat(MatMul(am, bm)))
        else Err(CoreMismatch)
  }

  /** `u * a` for a vector `u`: NumPy broadcasting lines `u` up with the last axis of
      `a`, stretching whichever of the two has length one. */
  function BroadcastTimes(u: Vector, a: Array): (r: Result<Array>)
    requires WellFormed(a)
    ensures a.Scalar? ==> r == Ok(Vec(Scale(a.value, u)))
    ensures a.Vec? && |a.entries| == |u| ==> r == Ok(Vec(Hadamard(u, a.entries)))
    ensures a.Mat? && Width(a.rows) == |u| ==>
      (r.Ok? && r.value.Mat? && |r.value.rows| == |a.rows| &&
       forall i :: 0 <= i < |a.rows| ==> r.value.rows[i] == Hadamard(u, a.rows[i]))
    ensures r.Err? <==> !a.Scalar? && Inner(a) != |u| && Inner(a) != 1 && |u| != 1
    ensures r.Ok? ==> WellFormed(r.value)
  {
    match a
    case Scalar(x) => Ok(Vec(Scale(x, u)))
    case Vec(v) =>
      if |v| == |u| then Ok(Vec(Hadamard(u, v)))
      else if |u| == 1 then Ok(Vec(Scale(u[0], v)))
      else if |v| == 1 then Ok(Vec(Scale(v[0], u)))
      else Err(NotBroadcastable)
    case Mat(rows) =>
      var w := Width(rows);
      if w == |u| then
        Ok(Mat(seq(|rows|, i requires 0 <= i < |rows| => Hadamard(u, rows[i]))))
      else if |u| == 1 then
        Ok(Mat(seq(|rows|, i requires 0 <= i < |rows| => Scale(u[0], rows[i]))))
      else if w == 1 then
        Ok(Mat(seq(|rows|, i requires 0 <= i < |rows| => Scale(rows[i][0], u))))
      else Err(NotBroadcastable)
  }

  /** `a - v` for a square `a` and a vector `v`, broadcast along the last axis as
      NumPy does. */
  function BroadcastSubtract(a: Matrix, v: Vector): (r: Result<Matrix>)
    requires Rectangular(a)
    ensures Width(a) == |v| ==> r == Ok(SubtractFromRows(a, v))
    ensures r.Err? <==> Width(a) != |v| && |v| != 1 && Width(a) != 1
    ensures r.Ok? ==> Rectangular(r.value) && |r.value| == |a|
  {
    if Width(a) == |v| then
      assert |a| > 0 ==> Width(SubtractFromRows(a, v)) == |v|;
      Ok(SubtractFromRows(a, v))
    else if |v| == 1 then
      assert |a| > 0 ==> Width(SubtractFromRows(a, Constant(Width(a), v[0]))) == Width(a);
      Ok(SubtractFromRows(a, Constant(Width(a), v[0])))
    else if Width(a) == 1 then
      var m := seq(|a|, i requires 0 <= i < |a| => Subtract(Constant(|v|, a[i][0]), v));
      assert |a| > 0 ==> Width(m) == |v|;
      Ok(m)
    else Err(NotBroadcastable)
  }

  // ---------------------------------------------------------------- the stack

  /** The spectrum a stack is asked to respond to: a binned spectrum, and the
      `energies` array the stack code reads, which the spectrum class of
      `adetsim/sim_src` does not have (None). */
  datatype Incident = Incident(spectrum: FlareSpectrum.Spectrum, energies: Option<Vector>)

  /** The stacks of `adetsim`: the base class, the HaFX stack with its scintillator
      taken off, and the stacks that absorb in a separate detector volume (X-123,
      X-123 CdTe and GRIPS; the GRIPS volume may be missing). */
  datatype Stack =
    | Base(layers: seq<BinnedMaterial.Material>, detector: Dispersion.Detector)
    | Hafx(layers: seq<BinnedMaterial.Material>, detector: Dispersion.Detector,
           scintillator: BinnedMaterial.Material, enableScintillator: bool)
    | Volume(layers: seq<BinnedMaterial.Material>, detector: Dispersion.Detector,
             volume: Option<BinnedMaterial.Material>)

  /** `material.generate_overall_response_matrix_given(spectrum, attenuations)`. */
  function LayerResponse(m: Transcendentals, mat: BinnedMaterial.Material, spec: FlareSpectrum.Spectrum, ks: seq<int>): (r: Result<Vector>)
    ensures r.Ok? ==> |r.value| == BinnedMaterial.Bins(spec)
  {
    BinnedMaterial.OverallResponse(m, mat, spec, ks)
  }

  function LayerResponses(m: Transcendentals, layers: seq<BinnedMaterial.Material>, spec: FlareSpectrum.Spectrum, ks: seq<int>): (fs: seq<Result<Vector>>)
    ensures |fs| == |layers| && forall j :: 0 <= j < |layers| ==> fs[j] == LayerResponse(m, layers[j], spec, ks)
  {
    seq(|layers|, j requires 0 <= j < |layers| => LayerResponse(m, layers[j], spec, ks))
  }

  /** The loop of `_generate_material_response_due_to` as written: each layer's
      vector is matrix-multiplied into the response from the left, which costs the
      response one dimension per layer. */
  function FoldAsWritten(response: Array, factors: seq<Result<Vector>>): (r: Result<Array>)
    requires WellFormed(response)
    ensures r.Ok? ==> WellFormed(r.value)
    ensures r.Ok? ==> |factors| <= Ndim(response) && Ndim(r.value) == Ndim(response) - |factors|
    decreases |factors|
  {
    if |factors| == 0 then Ok(response)
    else
      match factors[0]
      case Err(e) => Err(e)
      case Ok(f) =>
        match MatMulArrays(Vec(f), response)
        case Err(e) => Err(e)
        case Ok(next) => FoldAsWritten(next, factors[1..])
  }

  /** `_generate_material_response_due_to(spectrum, attenuations)` as written: the
      identity of the size of `energies`, then the fold.  Because each layer removes a
      dimension, it can only succeed for at most two layers. */
  function MaterialResponse(m: Transcendentals, layers: seq<BinnedMaterial.Material>, inc: Incident, ks: seq<int>): (r: Result<Array>)
    ensures inc.energies.None? ==> r == Err(AttributeError("energies"))
    ensures inc.energies.Some? && layers == [] ==> r == Ok(Mat(Identity(|inc.energies.value|)))
    ensures r.Ok? ==> |layers| <= 2 && WellFormed(r.value) && Ndim(r.value) == 2 - |layers|
  {
    match inc.energies
    case None => Err(AttributeError("energies"))
    case Some(es) => FoldAsWritten(Mat(Identity(|es|)), LayerResponses(m, layers, inc.spectrum, ks))
  }

  /** With one layer the identity is harmless: the response is that layer's vector. */
  lemma OneLayerAsWritten(m: Transcendentals, layer: BinnedMaterial.Material, inc: Incident, ks: seq<int>)
    requires inc.energies.Some? && |inc.energies.value| == BinnedMaterial.Bins(inc.spectrum)
    requires LayerResponse(m, layer, inc.spectrum, ks).Ok?
    ensures MaterialResponse(m, [layer], inc, ks) == Ok(Vec(LayerResponse(m, layer, inc.spectrum, ks).value))
  {
    var f := LayerResponse(m, layer, inc.spectrum, ks).value;
    var fs := LayerResponses(m, [layer], inc.spectrum, ks);
    var id := Mat(Identity(|f|));
    assert fs[0] == Ok(f) && fs[1..] == [];
    assert MatMulArrays(Vec(f), id) == Ok(Vec(f)) by {
      VecMatIdentity(f);
    }
    assert FoldAsWritten(id, fs) == FoldAsWritten(Vec(f), []);
  }

  /** With two layers the second vector is dotted with the first: one number. */
  lemma TwoLayersAsWritten(m: Transcendentals, outer: BinnedMaterial.Material, inner: BinnedMaterial.Material, inc: Incident, ks: seq<int>)
    requires inc.energies.Some? && |inc.energies.value| == BinnedMaterial.Bins(inc.spectrum)
    requires LayerResponse(m, outer, inc.spectrum, ks).Ok? && LayerResponse(m, inner, inc.spectrum, ks).Ok?
    ensures MaterialResponse(m, [outer, inner], inc, ks) ==
      Ok(Scalar(Dot(LayerResponse(m, inner, inc.spectrum, ks).value, LayerResponse(m, outer, inc.spectrum, ks).value)))
  {
    var f := LayerResponse(m, outer, inc.spectrum, ks).value;
    var g := LayerResponse(m, inner, inc.spectrum, ks).value;
    var fs := LayerResponses(m, [outer, inner], inc.spectrum, ks);
    var id := Mat(Identity(|f|));
    assert fs[0] == Ok(f) && fs[1..] == [Ok(g)] && fs[1..][1..] == [];
    assert MatMulArrays(Vec(f), id) == Ok(Vec(f)) by {
      VecMatIdentity(f);
    }
    assert MatMulArrays(Vec(g), Vec(f)) == Ok(Scalar(Dot(g, f)));
    assert FoldAsWritten(id, fs) == FoldAsWritten(Vec(f), fs[1..]);
    assert FoldAsWritten(Vec(f), fs[1..]) == FoldAsWritten(Scalar(Dot(g, f)), []);
  }

  // ---------------------------------------------------------------- the intended fold

  /** The evidently intended material response: ones, one per bin, multiplied
      entrywise by each layer's transmission vector (`response *= vec`), as
      `Material.generate_overall_response_matrix_given` does with its mechanisms. */
  function CorrectedMaterialResponse(m: Transcendentals, layers: seq<BinnedMaterial.Material>, spec: FlareSpectrum.Spectrum, ks: seq<int>): (r: Result<Vector>)
    ensures |spec.energyEdges| == 0 ==> r == Err(BinnedMaterial.NegativeDimensions)
    ensures |spec.energyEdges| > 0 && layers == [] ==> r == Ok(Ones(BinnedMaterial.Bins(spec)))
    ensures r.Ok? ==> |r.value| == BinnedMaterial.Bins(spec)
  {
    if |spec.energyEdges| == 0 then Err(BinnedMaterial.NegativeDimensions)
    else BinnedMaterial.Fold(Ones(BinnedMaterial.Bins(spec)), LayerResponses(m, layers, spec, ks))
  }

  /** Whenever every layer answers, the intended response is, bin by bin, the product
      of the layers' transmission probabilities, whatever the number of layers. */
  lemma CorrectedIsProduct(m: Transcendentals, layers: seq<BinnedMaterial.Material>, spec: FlareSpectrum.Spectrum, ks: seq<int>)
    requires |spec.energyEdges| > 0
    requires forall j :: 0 <= j < |layers| ==> LayerResponse(m, layers[j], spec, ks).Ok?
    ensures var fs := LayerResponses(m, layers, spec, ks);
      var n := BinnedMaterial.Bins(spec);
      && BinnedMaterial.Conformable(fs, n)
      && CorrectedMaterialResponse(m, layers, spec, ks).Ok?
      && forall i :: 0 <= i < n ==>
           CorrectedMaterialResponse(m, layers, spec, ks).value[i] == BinnedMaterial.EntryProduct(fs, n, i)
  {
    var n := BinnedMaterial.Bins(spec);
    BinnedMaterial.FoldIsProduct(Ones(n), LayerResponses(m, layers, spec, ks));
  }

  /** Through layers of non-negative density and thickness, on increasing edges, the
      intended response lets through a fraction in (0, 1] of every bin. */
  lemma CorrectedIsProbability(m: Transcendentals, layers: seq<BinnedMaterial.Material>, spec: FlareSpectrum.Spectrum, ks: seq<int>, i: nat)
    requires ExpLaws(m) && QuadLaws(m)
    requires FlareSpectrum.Increasing(spec.energyEdges)
    requires |spec.energyEdges| > 0 && i < BinnedMaterial.Bins(spec)
    requires forall j :: 0 <= j < |layers| ==>
      0.0 <= layers[j].massDensity && 0.0 <= layers[j].thickness && BinnedMaterial.AllConform(m, layers[j], spec, ks)
    ensures CorrectedMaterialResponse(m, layers, spec, ks).Ok?
    ensures 0.0 < CorrectedMaterialResponse(m, layers, spec, ks).value[i] <= 1.0
  {
    var n := BinnedMaterial.Bins(spec);
    var fs := LayerResponses(m, layers, spec, ks);
    forall j | 0 <= j < |layers| ensures fs[j].Ok? && |fs[j].value| == n && 0.0 < fs[j].value[i] <= 1.0 {
      BinnedMaterial.OverallIsProbability(m, layers[j], spec, ks);
    }
    CorrectedIsProduct(m, layers, spec, ks);
    BinnedMaterial.EntryProductBounds(fs, n, i);
  }

  /** Where the code as written succeeds with one layer, it agrees with the intended
      response. */
  lemma CorrectedAgreesOnOneLayer(m: Transcendentals, layer: BinnedMaterial.Material, inc: Incident, ks: seq<int>)
    requires inc.energies.Some? && |inc.energies.value| == BinnedMaterial.Bins(inc.spectrum)
    requires LayerResponse(m, layer, inc.spectrum, ks).Ok?
    ensures CorrectedMaterialResponse(m, [layer], inc.spectrum, ks).Ok?
    ensures MaterialResponse(m, [layer], inc, ks) == Ok(Vec(CorrectedMaterialResponse(m, [layer], inc.spectrum, ks).value))
  {
    var spec := inc.spectrum;
    var f := LayerResponse(m, layer, spec, ks).value;
    OneLayerAsWritten(m, layer, inc, ks);
    assert |spec.energyEdges| > 0;
    var n := BinnedMaterial.Bins(spec);
    var fs := LayerResponses(m, [layer], spec, ks);
    assert fs[0] == Ok(f) && fs[1..] == [];
    assert BinnedMaterial.InPlaceMultiply(Ones(n), f) == Ok(f) by {
      HadamardOnesLeft(f);
    }
    assert BinnedMaterial.Fold(Ones(n), fs) == BinnedMaterial.Fold(f, []);
  }

  // ---------------------------------------------------------------- the scintillator

  /** `generate_scintillator_response` as written: `np.identity(n) - T`, with the
      scintillator's transmission vector `T` of photoelectric absorption and the
      chosen mechanisms broadcast across the rows. */
  function ScintillatorResponse(m: Transcendentals, scintillator: BinnedMaterial.Material, inc: Incident, ks: seq<int>): (r: Result<Matrix>)
    ensures inc.energies.None? ==> r == Err(AttributeError("energies"))
    ensures r.Ok? ==> Rectangular(r.value)
  {
    match inc.energies
    case None => Err(AttributeError("energies"))
    case Some(es) =>
      match LayerResponse(m, scintillator, inc.spectrum, MatrixStack.ScintillatorMechanisms(ks))
      case Err(e) => Err(e)
      case Ok(t) =>
        assert Rectangular(Identity(|es|));
        BroadcastSubtract(Identity(|es|), t)
  }

  /** What the broadcast gives: entry (r, c) is `δ(r, c) - T[c]`, so every row
      carries the whole vector and the matrix is not diagonal once some `T[c]` is
      not zero and there are two bins. */
  lemma ScintillatorAsWritten(m: Transcendentals, scintillator: BinnedMaterial.Material, inc: Incident, ks: seq<int>)
    requires inc.energies.Some? && |inc.energies.value| == BinnedMaterial.Bins(inc.spectrum)
    requires LayerResponse(m, scintillator, inc.spectrum, MatrixStack.ScintillatorMechanisms(ks)).Ok?
    ensures var t := LayerResponse(m, scintillator, inc.spectrum, MatrixStack.ScintillatorMechanisms(ks)).value;
      var r := ScintillatorResponse(m, scintillator, inc, ks);
      && r.Ok? && IsMatrix(r.value, |t|, |t|)
      && (forall i, j :: 0 <= i < |t| && 0 <= j < |t| ==> r.value[i][j] == (if i == j then 1.0 else 0.0) - t[j])
      && (IsDiagonal(r.value) <==> |t| < 2 || forall j :: 0 <= j < |t| ==> t[j] == 0.0)
  {
    var t := LayerResponse(m, scintillator, inc.spectrum, MatrixStack.ScintillatorMechanisms(ks)).value;
    var n := |t|;
    var r := ScintillatorResponse(m, scintillator, inc, ks).value;
    assert n > 0 ==> Width(Identity(n)) == n;
    assert forall i, j :: 0 <= i < n && 0 <= j < n ==> r[i][j] == (if i == j then 1.0 else 0.0) - t[j];
    if n >= 2 && !IsDiagonal(r) {
      var i, j :| 0 <= i < n && 0 <= j < n && i != j && r[i][j] != 0.0;
      assert t[j] != 0.0;
    }
    if n >= 2 && IsDiagonal(r) {
      forall j | 0 <= j < n ensures t[j] == 0.0 {
        var i := if j == 0 then 1 else 0;
        assert r[i][j] == 0.0;
      }
    }
  }

  /** The evidently intended absorption: `1 - T`, bin by bin. */
  function CorrectedScintillator(m: Transcendentals, scintillator: BinnedMaterial.Material, spec: FlareSpectrum.Spectrum, ks: seq<int>): (r: Result<Vector>)
    ensures r.Ok? ==> |r.value| == BinnedMaterial.Bins(spec)
  {
    match LayerResponse(m, scintillator, spec, MatrixStack.ScintillatorMechanisms(ks))
    case Err(e) => Err(e)
    case Ok(t) => Ok(Subtract(Ones(|t|), t))
  }

  /** The intended absorption is what the matrix stack of `sim_src` computes, the
      identity minus the diagonal transmission, read off its diagonal; and it is a
      fraction in [0, 1) wherever the transmission is a probability. */
  lemma CorrectedScintillatorIsDiagonalAbsorption(m: Transcendentals, scintillator: BinnedMaterial.Material, spec: FlareSpectrum.Spectrum, ks: seq<int>)
    requires LayerResponse(m, scintillator, spec, MatrixStack.ScintillatorMechanisms(ks)).Ok?
    ensures var t := LayerResponse(m, scintillator, spec, MatrixStack.ScintillatorMechanisms(ks)).value;
      && CorrectedScintillator(m, scintillator, spec, ks).Ok?
      && MatrixStack.Absorbed(|t|, Diag(t)) == Ok(Diag(CorrectedScintillator(m, scintillator, spec, ks).value))
      && forall i :: 0 <= i < |t| && 0.0 < t[i] <= 1.0 ==> 0.0 <= CorrectedScintillator(m, scintillator, spec, ks).value[i] < 1.0
  {
    var t := LayerResponse(m, scintillator, spec, MatrixStack.ScintillatorMechanisms(ks)).value;
    MatrixStack.AbsorbedOfDiag(|t|, t);
  }

  // ---------------------------------------------------------------- responses

  /** `_dispatch_dispersion` on an array: the detector's spread multiplied in from
      the left when asked for. */
  function Dispatch(spread: Result<Matrix>, response: Array, disperse: bool): (r: Result<Array>)
    requires spread.Ok? ==> Rectangular(spread.value)
    requires WellFormed(response)
    ensures !disperse ==> r == Ok(response)
    ensures disperse && spread.Err? ==> r == Err(spread.error)
    ensures disperse && spread.Ok? ==> r == MatMulArrays(Mat(spread.value), response)
  {
    if !disperse then Ok(response)
    else
      match spread
      case Err(e) => Err(e)
      case Ok(k) => MatMulArrays(Mat(k), response)
  }

  /** The base class's `generate_detector_response_to` calls a method no class
      defines. */
  const MissingAttenuation: Error := AttributeError("_generate_attenuation_response_due_to")

  /** `None.generate_overall_response_matrix_given` on a stack without a volume. */
  const MissingVolume: Error := AttributeError("generate_overall_response_matrix_given")

  /** `generate_detector_response_to(spectrum, disperse_energy, chosen_attenuations)`
      as written, with `spread` what the photon detector's
      `generate_energy_resolution_given` gives on the spectrum. */
  function DetectorResponse(m: Transcendentals, stack: Stack, inc: Incident, ks: seq<int>, spread: Result<Matrix>, disperse: bool): (r: Result<Array>)
    requires !stack.Base? && spread.Ok? ==> Rectangular(spread.value)
    ensures stack.Base? ==> r == Err(MissingAttenuation)
    ensures inc.energies.None? ==> r.Err?
  {
    match stack
    case Base(_, _) => Err(MissingAttenuation)
    case Hafx(layers, _, scintillator, enable) =>
      (match MaterialResponse(m, layers, inc, ks)
       case Err(e) => Err(e)
       case Ok(resp) =>
         if !enable then Dispatch(spread, resp, disperse)
         else
           match ScintillatorResponse(m, scintillator, inc, ks)
           case Err(e) => Err(e)
           case Ok(a) =>
             match MatMulArrays(Mat(a), resp)
             case Err(e) => Err(e)
             case Ok(absorbed) => Dispatch(spread, absorbed, disperse))
    case Volume(layers, _, volume) =>
      match MaterialResponse(m, layers, inc, ks)
      case Err(e) => Err(e)
      case Ok(prelim) =>
        match VolumeAbsorption(m, volume, inc.spectrum)
        case Err(e) => Err(e)
        case Ok(absorbed) =>
          match BroadcastTimes(absorbed, prelim)
          case Err(e) => Err(e)
          case Ok(resp) => Dispatch(spread, resp, disperse)
  }

  /** `np.ones(len(edges) - 1) - volume.generate_overall_response_matrix_given(
      spectrum, [PHOTOELECTRIC_ABSORPTION])`: only photoelectric absorption counts,
      whatever mechanisms were chosen for the layers.  `np.ones` fails first on a
      spectrum without edges, then a missing volume. */
  function VolumeAbsorption(m: Transcendentals, volume: Option<BinnedMaterial.Material>, spec: FlareSpectrum.Spectrum): (r: Result<Vector>)
    ensures |spec.energyEdges| == 0 ==> r == Err(BinnedMaterial.NegativeDimensions)
    ensures |spec.energyEdges| > 0 && volume.None? ==> r == Err(MissingVolume)
    ensures volume.Some? && |spec.energyEdges| > 0 ==>
      r == (match LayerResponse(m, volume.value, spec, [Attenuation.Photoelectric])
            case Err(e) => Err(e)
            case Ok(t) => Ok(Subtract(Ones(BinnedMaterial.Bins(spec)), t)))
  {
    if |spec.energyEdges| == 0 then Err(BinnedMaterial.NegativeDimensions)
    else
      match volume
      case None => Err(MissingVolume)
      case Some(v) =>
        match LayerResponse(m, v, spec, [Attenuation.Photoelectric])
        case Err(e) => Err(e)
        case Ok(t) => Ok(Subtract(Ones(BinnedMaterial.Bins(spec)), t))
  }

  /** With its one window layer a volume stack works as written: the window's
      transmission times the volume's photoelectric absorption, bin by bin, then
      the spread on request. */
  lemma VolumeOfOneLayer(m: Transcendentals, window: BinnedMaterial.Material, det: Dispersion.Detector,
                         volume: BinnedMaterial.Material, inc: Incident, ks: seq<int>, spread: Result<Matrix>, disperse: bool)
    requires spread.Ok? ==> Rectangular(spread.value)
    requires inc.energies.Some? && |inc.energies.value| == BinnedMaterial.Bins(inc.spectrum)
    requires LayerResponse(m, window, inc.spectrum, ks).Ok?
    requires VolumeAbsorption(m, Some(volume), inc.spectrum).Ok?
    ensures var w := LayerResponse(m, window, inc.spectrum, ks).value;
      var a := VolumeAbsorption(m, Some(volume), inc.spectrum).value;
      DetectorResponse(m, Volume([window], det, Some(volume)), inc, ks, spread, disperse)
        == Dispatch(spread, Vec(Hadamard(a, w)), disperse)
  {
    OneLayerAsWritten(m, window, inc, ks);
  }

  /** The HaFX stack as written never produces a response with three layers in
      front of the scintillator: the material response already fails. */
  lemma ThreeLayersFail(m: Transcendentals, stack: Stack, inc: Incident, ks: seq<int>, spread: Result<Matrix>, disperse: bool)
    requires spread.Ok? ==> Rectangular(spread.value)
    requires !stack.Base? && |stack.layers| >= 3
    ensures DetectorResponse(m, stack, inc, ks, spread, disperse).Err?
  {
  }

  /** The evidently intended HaFX response: the intended material response scaled
      bin by bin by the intended absorption, then the spread on request. */
  function CorrectedHafxResponse(m: Transcendentals, stack: Stack, spec: FlareSpectrum.Spectrum, ks: seq<int>, spread: Result<Matrix>, disperse: bool): (r: Result<Array>)
    requires stack.Hafx?
    requires spread.Ok? ==> Rectangular(spread.value)
    ensures r.Ok? && !disperse ==> r.value.Vec? && |r.value.entries| == BinnedMaterial.Bins(spec)
  {
    match CorrectedMaterialResponse(m, stack.layers, spec, ks)
    case Err(e) => Err(e)
    case Ok(resp) =>
      if !stack.enableScintillator then Dispatch(spread, Vec(resp), disperse)
      else
        match CorrectedScintillator(m, stack.scintillator, spec, ks)
        case Err(e) => Err(e)
        case Ok(a) => Dispatch(spread, Vec(Hadamard(a, resp)), disperse)
  }

  /** `v` holds, bin by bin, the fraction `1 - t` absorbed after the product of the
      layer transmissions `fs`. */
  predicate AbsorbedAfter(v: Vector, t: Vector, fs: seq<Result<Vector>>, n: nat) {
    && |v| == n && |t| == n && BinnedMaterial.Conformable(fs, n)
    && forall i :: 0 <= i < n ==> v[i] == (1.0 - t[i]) * BinnedMaterial.EntryProduct(fs, n, i)
  }

  /** The intended HaFX response, undispersed, is at every bin the fraction that
      crosses all layers and is then absorbed in the scintillator. */
  lemma CorrectedHafxIsProduct(m: Transcendentals, stack: Stack, spec: FlareSpectrum.Spectrum, ks: seq<int>, spread: Result<Matrix>)
    requires stack.Hafx? && stack.enableScintillator
    requires |spec.energyEdges| > 0
    requires spread.Ok? ==> Rectangular(spread.value)
    requires forall j :: 0 <= j < |stack.layers| ==> LayerResponse(m, stack.layers[j], spec, ks).Ok?
    requires LayerResponse(m, stack.scintillator, spec, MatrixStack.ScintillatorMechanisms(ks)).Ok?
    ensures var r := CorrectedHafxResponse(m, stack, spec, ks, spread, false);
      && r.Ok? && r.value.Vec?
      && AbsorbedAfter(r.value.entries, LayerResponse(m, stack.scintillator, spec, MatrixStack.ScintillatorMechanisms(ks)).value,
                       LayerResponses(m, stack.layers, spec, ks), BinnedMaterial.Bins(spec))
  {
    var n := BinnedMaterial.Bins(spec);
    var fs := LayerResponses(m, stack.layers, spec, ks);
    var t := LayerResponse(m, stack.scintillator, spec, MatrixStack.ScintillatorMechanisms(ks)).value;
    CorrectedIsProduct(m, stack.layers, spec, ks);
    var resp := CorrectedMaterialResponse(m, stack.layers, spec, ks).value;
    var a := Subtract(Ones(n), t);
    assert CorrectedScintillator(m, stack.scintillator, spec, ks) == Ok(a);
    assert CorrectedHafxResponse(m, stack, spec, ks, spread, false) == Ok(Vec(Hadamard(a, resp)));
    AbsorbedTimes(t, resp, fs, n);
  }

  /** `(1 - t) * v` entry by entry, for a `v` known entry by entry. */
  lemma AbsorbedTimes(t: Vector, v: Vector, fs: seq<Result<Vector>>, n: nat)
    requires |t| == |v| == n && BinnedMaterial.Conformable(fs, n)
    requires forall i :: 0 <= i < n ==> v[i] == BinnedMaterial.EntryProduct(fs, n, i)
    ensures AbsorbedAfter(Hadamard(Subtract(Ones(n), t), v), t, fs, n)
  {
  }

  /** The `area` property: that of the outermost layer, IndexError without one. */
  function Area(m: Transcendentals, stack: Stack): (r: Result<real>)
    ensures r.Err? <==> stack.layers == []
    ensures r.Ok? ==> r.value == BinnedMaterial.Area(m, stack.layers[0])
  {
    if stack.layers == [] then Err(IndexError) else Ok(BinnedMaterial.Area(m, stack.layers[0]))
  }
}
