/** The detector stack of `sim_src/DetectorStack.py` (and its copy of `HafxStack` in the
    top-level `HafxStack.py`): layers of material in front of a photon detector, each
    layer a square response matrix, folded from the outermost layer inwards; the HaFX
    stack then takes the scintillator's absorption `I - T` and disperses the result
    through the detector's kernel on request. */
module MatrixStack {
  import opened Outcomes
  import opened Linear
  import opened RealMath
  import Attenuation
  import DiagonalMaterial
  import Dispersion

  // ---------------------------------------------------------------- layers

  /** A material together with the attenuations `interpolate_from` gives it on the
      incident spectrum's energies (keyed by mechanism code). */
  datatype Layer = Layer(material: DiagonalMaterial.Material, interpolated: DiagonalMaterial.Interpolated)

  /** `DetectorStack(materials, detector)`, or the `HafxStack` that has taken its last
      material off as the scintillator. */
  datatype Stack =
    | Plain(layers: seq<Layer>, detector: Dispersion.Detector)
    | Hafx(layers: seq<Layer>, detector: Dispersion.Detector, scintillator: Layer, enableScintillator: bool)

  /** `material.generate_overall_response_matrix_given(spectrum, attenuations)` for a
      spectrum of `dim` energies. */
  function LayerResponse(m: Transcendentals, layer: Layer, dim: nat, ks: seq<int>): (r: Result<Matrix>)
    ensures r.Ok? ==> Rectangular(r.value)
  {
    DiagonalMaterial.OverallResponse(m, layer.material, layer.interpolated, dim, ks)
  }

  function LayerResponses(m: Transcendentals, layers: seq<Layer>, dim: nat, ks: seq<int>): (fs: seq<Result<Matrix>>)
    ensures |fs| == |layers|
    ensures forall j :: 0 <= j < |layers| ==> fs[j] == LayerResponse(m, layers[j], dim, ks)
    ensures forall j :: 0 <= j < |fs| && fs[j].Ok? ==> Rectangular(fs[j].value)
  {
    seq(|layers|, j requires 0 <= j < |layers| => LayerResponse(m, layers[j], dim, ks))
  }

  /** `_generate_material_response_due_to`: the identity of the spectrum's size,
      multiplied from the left by each material's response, `materials[0]` first. */
  function MaterialResponse(m: Transcendentals, layers: seq<Layer>, dim: nat, ks: seq<int>): (r: Result<Matrix>)
    ensures layers == [] ==> r == Ok(Identity(dim))
    ensures r.Ok? ==> Rectangular(r.value)
  {
    DiagonalMaterial.Fold(Identity(dim), LayerResponses(m, layers, dim, ks))
  }

  // ---------------------------------------------------------------- the fold

  /** Appending a factor multiplies it in from the left after all the others. */
  lemma {:induction false} FoldOfAppend(acc: Matrix, fs: seq<Result<Matrix>>, f: Result<Matrix>)
    requires Rectangular(acc)
    requires forall j :: 0 <= j < |fs| && fs[j].Ok? ==> Rectangular(fs[j].value)
    requires f.Ok? ==> Rectangular(f.value)
    ensures forall j :: 0 <= j < |fs + [f]| && (fs + [f])[j].Ok? ==> Rectangular((fs + [f])[j].value)
    ensures DiagonalMaterial.Fold(acc, fs + [f]) ==
      match DiagonalMaterial.Fold(acc, fs)
      case Err(e) => Err(e)
      case Ok(r) => (match f case Err(e) => Err(e) case Ok(g) => DiagonalMaterial.MatMulChecked(g, r))
    decreases |fs|
  {
    var all := fs + [f];
    assert forall j :: 0 <= j < |all| ==> all[j] == if j < |fs| then fs[j] else f;
    if |fs| == 0 {
      assert all == [f] && all[1..] == [];
    } else {
      assert all[0] == fs[0] && all[1..] == fs[1..] + [f];
      assert forall j :: 0 <= j < |fs[1..]| ==> fs[1..][j] == fs[j + 1];
      match fs[0]
      case Err(e) =>
      case Ok(g) =>
        match DiagonalMaterial.MatMulChecked(g, acc)
        case Err(e) =>
        case Ok(next) =>
          FoldOfAppend(next, fs[1..], f);
    }
  }

  /** The outermost material acts first: adding a material behind the others
      multiplies its response in from the left of theirs. */
  lemma MaterialResponseOfAppend(m: Transcendentals, layers: seq<Layer>, inner: Layer, dim: nat, ks: seq<int>)
    ensures MaterialResponse(m, layers + [inner], dim, ks) ==
      match MaterialResponse(m, layers, dim, ks)
      case Err(e) => Err(e)
      case Ok(r) =>
        (match LayerResponse(m, inner, dim, ks)
         case Err(e) => Err(e)
         case Ok(g) => DiagonalMaterial.MatMulChecked(g, r))
  {
    var fs := LayerResponses(m, layers, dim, ks);
    var f := LayerResponse(m, inner, dim, ks);
    assert LayerResponses(m, layers + [inner], dim, ks) == fs + [f];
    FoldOfAppend(Identity(dim), fs, f);
  }

  /** A stack of one material responds as that material. */
  lemma MaterialResponseOfOne(m: Transcendentals, layer: Layer, dim: nat, ks: seq<int>)
    requires var r := LayerResponse(m, layer, dim, ks); r.Ok? ==> Width(r.value) == dim
    ensures MaterialResponse(m, [layer], dim, ks) == LayerResponse(m, layer, dim, ks)
  {
    MaterialResponseOfAppend(m, [], layer, dim, ks);
    assert [] + [layer] == [layer];
    var r := LayerResponse(m, layer, dim, ks);
    if r.Ok? {
      MatMulIdentityRight(r.value, dim);
    }
  }

  // ---------------------------------------------------------------- the diagonal form

  /** Every layer's mechanisms are known and interpolated on all `dim` energies. */
  predicate AllKnown(layers: seq<Layer>, dim: nat, ks: seq<int>) {
    forall j :: 0 <= j < |layers| ==> DiagonalMaterial.Known(ks, layers[j].interpolated, dim)
  }

  /** The transmission probabilities of one layer, energy by energy. */
  function LayerDiagonal(m: Transcendentals, layer: Layer, dim: nat, ks: seq<int>): (d: Vector)
    requires DiagonalMaterial.Known(ks, layer.interpolated, dim)
    ensures |d| == dim
  {
    seq(dim, i requires 0 <= i < dim =>
      DiagonalMaterial.EntryProduct(m, layer.material, layer.interpolated, dim, ks, i))
  }

  /** A layer of known mechanisms responds with the diagonal matrix of its
      transmission probabilities. */
  lemma LayerIsDiag(m: Transcendentals, layer: Layer, dim: nat, ks: seq<int>)
    requires DiagonalMaterial.Known(ks, layer.interpolated, dim)
    ensures LayerResponse(m, layer, dim, ks) == Ok(Diag(LayerDiagonal(m, layer, dim, ks)))
  {
    DiagonalMaterial.OverallIsDiagonal(m, layer.material, layer.interpolated, dim, ks);
    var r := LayerResponse(m, layer, dim, ks).value;
    DiagOfDiagonal(r);
    assert Diagonal(r) == LayerDiagonal(m, layer, dim, ks);
  }

  function LayerDiagonals(m: Transcendentals, layers: seq<Layer>, dim: nat, ks: seq<int>): (ds: seq<Vector>)
    requires AllKnown(layers, dim, ks)
    ensures |ds| == |layers|
    ensures forall j :: 0 <= j < |layers| ==> ds[j] == LayerDiagonal(m, layers[j], dim, ks) && |ds[j]| == dim
  {
    seq(|layers|, j requires 0 <= j < |layers| => LayerDiagonal(m, layers[j], dim, ks))
  }

  /** The transmission of the whole stack at energy `i`: the product over the layers. */
  function StackTransmission(m: Transcendentals, layers: seq<Layer>, dim: nat, ks: seq<int>, i: nat): real
    requires AllKnown(layers, dim, ks) && i < dim
  {
    DiagonalMaterial.Product(LayerDiagonals(m, layers, dim, ks), i)
  }

  /** When every mechanism is known the stack is diagonal: photons keep their energy,
      and the chance of crossing all layers is the product of the chances of crossing
      each. */
  lemma MaterialResponseIsDiagonal(m: Transcendentals, layers: seq<Layer>, dim: nat, ks: seq<int>)
    requires AllKnown(layers, dim, ks)
    ensures var r := MaterialResponse(m, layers, dim, ks);
      && r.Ok? && IsMatrix(r.value, dim, dim) && IsDiagonal(r.value)
      && forall i :: 0 <= i < dim ==> r.value[i][i] == StackTransmission(m, layers, dim, ks, i)
  {
    var fs := LayerResponses(m, layers, dim, ks);
    var ds := LayerDiagonals(m, layers, dim, ks);
    forall j | 0 <= j < |layers| ensures fs[j] == Ok(Diag(ds[j])) {
      LayerIsDiag(m, layers[j], dim, ks);
    }
    DiagOfOnes(dim);
    DiagonalMaterial.FoldOfDiags(fs, ds, Ones(dim));
    var p := DiagonalMaterial.Products(ds, Ones(dim));
    assert forall i :: 0 <= i < dim ==> Diag(p)[i][i] == p[i] == StackTransmission(m, layers, dim, ks, i);
  }

  /** Through layers of non-negative density, thickness and coefficients the stack
      lets through a fraction in (0, 1] of the photons at every energy. */
  lemma StackTransmissionIsProbability(m: Transcendentals, layers: seq<Layer>, dim: nat, ks: seq<int>, i: nat)
    requires ExpLaws(m)
    requires AllKnown(layers, dim, ks) && i < dim
    requires forall j :: 0 <= j < |layers| ==> Physical(layers[j])
    ensures 0.0 < StackTransmission(m, layers, dim, ks, i) <= 1.0
  {
    var ds := LayerDiagonals(m, layers, dim, ks);
    forall j | 0 <= j < |ds| ensures 0.0 < ds[j][i] <= 1.0 {
      var l := layers[j];
      DiagonalMaterial.EntryProductIsProbability(m, l.material, l.interpolated, dim, ks, i);
    }
    DiagonalMaterial.ProductIsProbability(ds, i);
  }

  /** Non-negative density, thickness and attenuation coefficients. */
  predicate Physical(layer: Layer) {
    && 0.0 <= layer.material.massDensity && 0.0 <= layer.material.thickness
    && forall k :: k in layer.interpolated ==>
         forall e :: 0 <= e < |layer.interpolated[k]| ==> 0.0 <= layer.interpolated[k][e]
  }

  // ---------------------------------------------------------------- dispersion

  /** `_dispatch_dispersion`: when asked, the detector's spread (computed by
      `generate_energy_resolution_given`, and possibly an exception) is multiplied in
      from the left; otherwise the response comes back unchanged and the spread is
      never asked for. */
  function Dispatch(spread: Result<Matrix>, response: Matrix, disperse: bool): (r: Result<Matrix>)
    requires spread.Ok? ==> Rectangular(spread.value)
    requires Rectangular(response)
    ensures !disperse ==> r == Ok(response)
    ensures disperse && spread.Err? ==> r == Err(spread.error)
    ensures disperse && spread.Ok? ==>
      (r.Ok? <==> Width(spread.value) == |response|) &&
      (r.Ok? ==> r.value == MatMul(spread.value, response))
    ensures r.Ok? ==> Rectangular(r.value)
  {
    if !disperse then Ok(response)
    else
      match spread
      case Err(e) => Err(e)
      case Ok(k) => DiagonalMaterial.MatMulChecked(k, response)
  }

  /** `apply_detector_dispersion_for` with the detector's own kernel on a square
      response of the spectrum's size: the kernel times the response. */
  lemma DispatchOfKernel(m: Transcendentals, det: Dispersion.Detector, energies: Vector, response: Matrix)
    requires FwhmPerSigma(m) != 0.0 && m.sqrt(2.0 * m.pi) != 0.0
    requires !det.Abstract? && !det.RowSipm? ==> Dispersion.Resolvable(det, energies)
    requires IsMatrix(response, |energies|, |energies|)
    requires Dispersion.ResolutionKernel(m, det, energies).Ok?
    ensures Dispatch(Dispersion.ResolutionKernel(m, det, energies), response, true)
      == Ok(MatMul(Dispersion.ResolutionKernel(m, det, energies).value, response))
  {
    var k := Dispersion.ResolutionKernel(m, det, energies).value;
    assert |energies| > 0 ==> Width(k) == |energies|;
  }

  // ---------------------------------------------------------------- the stacks

  /** The base class's `generate_detector_response_to` calls a method no class
      defines, so it always raises AttributeError. */
  const MissingAttenuation: Error := AttributeError("_generate_attenuation_response_due_to")

  /** `HafxStack(materials, detector, enable_scintillator)`: `materials.pop()` takes the
      last material off as the scintillator, and raises IndexError on an empty list. */
  function MakeHafx(materials: seq<Layer>, detector: Dispersion.Detector, enableScintillator: bool): (r: Result<Stack>)
    ensures r.Err? <==> materials == []
    ensures r.Err? ==> r.error == IndexError
    ensures r.Ok? ==> r.value.Hafx? && r.value.layers + [r.value.scintillator] == materials
    ensures r.Ok? ==> r.value.detector == detector && r.value.enableScintillator == enableScintillator
  {
    if materials == [] then Err(IndexError)
    else
      var n := |materials| - 1;
      assert materials[..n] + [materials[n]] == materials;
      Ok(Hafx(materials[..n], detector, materials[n], enableScintillator))
  }

  /** `list(set([PHOTOELECTRIC_ABSORPTION] + chosen))`: the chosen mechanisms with
      photoelectric absorption added, each once.  Only the set matters, since the
      factors of known mechanisms commute. */
  function ScintillatorMechanisms(chosen: seq<int>): (ks: seq<int>)
    ensures Attenuation.Photoelectric in ks
    ensures forall k :: k in ks <==> k == Attenuation.Photoelectric || k in chosen
    ensures forall a, b :: 0 <= a < b < |ks| ==> ks[a] != ks[b]
  {
    Distinct([Attenuation.Photoelectric] + chosen)
  }

  /** The first occurrence of every element, in order. */
  function Distinct(xs: seq<int>): (ys: seq<int>)
    ensures forall k :: k in ys <==> k in xs
    ensures forall a, b :: 0 <= a < b < |ys| ==> ys[a] != ys[b]
    ensures |xs| > 0 ==> |ys| > 0 && ys[0] == xs[0]
    decreases |xs|
  {
    if |xs| == 0 then []
    else
      var rest := Distinct(xs[1..]);
      assert forall k :: k in xs <==> k == xs[0] || k in xs[1..];
      var tail := Without(rest, xs[0]);
      var ys := [xs[0]] + tail;
      assert forall a, b :: 0 <= a < b < |ys| ==> ys[a] != ys[b] by {
        forall a, b | 0 <= a < b < |ys| ensures ys[a] != ys[b] {
          assert ys[b] == tail[b - 1];
          if a > 0 {
            assert ys[a] == tail[a - 1];
          } else {
            assert tail[b - 1] in tail;
          }
        }
      }
      ys
  }

  /** The sequence with every `x` removed. */
  function Without(xs: seq<int>, x: int): (ys: seq<int>)
    ensures forall k :: k in ys <==> k in xs && k != x
    ensures (forall a, b :: 0 <= a < b < |xs| ==> xs[a] != xs[b]) ==> forall a, b :: 0 <= a < b < |ys| ==> ys[a] != ys[b]
    decreases |xs|
  {
    if |xs| == 0 then []
    else
      assert forall k :: k in xs <==> k == xs[0] || k in xs[1..];
      var rest := Without(xs[1..], x);
      if xs[0] == x then rest
      else
        var ys := [xs[0]] + rest;
        assert forall a :: 0 < a < |ys| ==> ys[a] == rest[a - 1];
        assert (forall a, b :: 0 <= a < b < |xs| ==> xs[a] != xs[b]) ==> xs[0] !in xs[1..] by {
          if forall a, b :: 0 <= a < b < |xs| ==> xs[a] != xs[b] {
            forall k | 0 <= k < |xs[1..]| ensures xs[1..][k] != xs[0] {
              assert xs[1..][k] == xs[k + 1];
            }
          }
        }
        ys
  }

  /** `ident - T` for the scintillator's response `T`; arrays of different shapes do
      not broadcast and raise ValueError. */
  function Absorbed(dim: nat, t: Matrix): (r: Result<Matrix>)
    requires Rectangular(t)
    ensures r.Ok? <==> IsMatrix(t, dim, dim)
    ensures r.Ok? ==> IsMatrix(r.value, dim, dim)
    ensures r.Ok? ==> forall i, j :: 0 <= i < dim && 0 <= j < dim ==>
      r.value[i][j] == (if i == j then 1.0 else 0.0) - t[i][j]
  {
    if IsMatrix(t, dim, dim) then Ok(MatSubtract(Identity(dim), t))
    else Err(ValueError("operands could not be broadcast together"))
  }

  /** `generate_detector_response_to(spectrum, disperse_energy, chosen_attenuations)`
      for a spectrum of `dim` energies, with `spread` what the photon detector's
      `generate_energy_resolution_given` gives on it. */
  function DetectorResponse(m: Transcendentals, stack: Stack, dim: nat, ks: seq<int>, spread: Result<Matrix>, disperse: bool): (r: Result<Matrix>)
    requires spread.Ok? ==> Rectangular(spread.value)
    ensures stack.Plain? ==> r == Err(MissingAttenuation)
    ensures r.Ok? ==> Rectangular(r.value)
    ensures stack.Hafx? && !stack.enableScintillator ==>
      r == (match MaterialResponse(m, stack.layers, dim, ks)
            case Err(e) => Err(e)
            case Ok(resp) => Dispatch(spread, resp, disperse))
  {
    match stack
    case Plain(_, _) => Err(MissingAttenuation)
    case Hafx(layers, _, scintillator, enable) =>
      match MaterialResponse(m, layers, dim, ks)
      case Err(e) => Err(e)
      case Ok(resp) =>
        if !enable then Dispatch(spread, resp, disperse)
        else
          match ScintillatorStep(m, scintillator, dim, ks, resp)
          case Err(e) => Err(e)
          case Ok(withScintillator) => Dispatch(spread, withScintillator, disperse)
  }

  /** The enabled scintillator: its absorption `I - T(photo ∪ chosen)` is multiplied
      in from the left after every material. */
  function ScintillatorStep(m: Transcendentals, scintillator: Layer, dim: nat, ks: seq<int>, response: Matrix): (r: Result<Matrix>)
    requires Rectangular(response)
    ensures r.Ok? ==> Rectangular(r.value)
  {
    match LayerResponse(m, scintillator, dim, ScintillatorMechanisms(ks))
    case Err(e) => Err(e)
    case Ok(t) =>
      match Absorbed(dim, t)
      case Err(e) => Err(e)
      case Ok(a) => DiagonalMaterial.MatMulChecked(a, response)
  }

  /** The chosen mechanisms are known exactly when those of the scintillator are. */
  lemma ScintillatorKnown(ks: seq<int>, interpolated: DiagonalMaterial.Interpolated, dim: nat)
    requires Attenuation.Photoelectric in interpolated && |interpolated[Attenuation.Photoelectric]| == dim
    ensures DiagonalMaterial.Known(ks, interpolated, dim) <==>
      DiagonalMaterial.Known(ScintillatorMechanisms(ks), interpolated, dim)
  {
    var sk := ScintillatorMechanisms(ks);
    if DiagonalMaterial.Known(ks, interpolated, dim) {
      forall j | 0 <= j < |sk|
        ensures sk[j] in Attenuation.All && (sk[j] != Attenuation.Compton ==> sk[j] in interpolated && |interpolated[sk[j]]| == dim)
      {
        assert sk[j] in sk;
        if sk[j] != Attenuation.Photoelectric {
          assert sk[j] in ks;
          var t :| 0 <= t < |ks| && ks[t] == sk[j];
        }
      }
    }
    if DiagonalMaterial.Known(sk, interpolated, dim) {
      forall j | 0 <= j < |ks|
        ensures ks[j] in Attenuation.All && (ks[j] != Attenuation.Compton ==> ks[j] in interpolated && |interpolated[ks[j]]| == dim)
      {
        assert ks[j] in sk;
      }
    }
  }

  /** The fraction of photons of each energy the scintillator absorbs. */
  function AbsorbedFractions(m: Transcendentals, scintillator: Layer, dim: nat, ks: seq<int>): (a: Vector)
    requires DiagonalMaterial.Known(ScintillatorMechanisms(ks), scintillator.interpolated, dim)
    ensures |a| == dim
  {
    Subtract(Ones(dim), LayerDiagonal(m, scintillator, dim, ScintillatorMechanisms(ks)))
  }

  /** The fraction of photons of energy `i` the scintillator absorbs. */
  function Absorption(m: Transcendentals, scintillator: Layer, dim: nat, ks: seq<int>, i: nat): real
    requires DiagonalMaterial.Known(ScintillatorMechanisms(ks), scintillator.interpolated, dim) && i < dim
  {
    AbsorbedFractions(m, scintillator, dim, ks)[i]
  }

  /** The transmission of the whole stack at every energy. */
  function Transmissions(m: Transcendentals, layers: seq<Layer>, dim: nat, ks: seq<int>): (w: Vector)
    requires AllKnown(layers, dim, ks)
    ensures |w| == dim
  {
    seq(dim, i requires 0 <= i < dim => StackTransmission(m, layers, dim, ks, i))
  }

  /** With every mechanism known, the HaFX stack without dispersion is diagonal: at
      each energy the fraction that crosses every material and is then absorbed in
      the scintillator. */
  lemma HafxResponseIsDiagonal(m: Transcendentals, stack: Stack, dim: nat, ks: seq<int>, spread: Result<Matrix>)
    requires stack.Hafx? && stack.enableScintillator
    requires spread.Ok? ==> Rectangular(spread.value)
    requires AllKnown(stack.layers, dim, ks)
    requires DiagonalMaterial.Known(ScintillatorMechanisms(ks), stack.scintillator.interpolated, dim)
    ensures var r := DetectorResponse(m, stack, dim, ks, spread, false);
      && r.Ok? && IsMatrix(r.value, dim, dim) && IsDiagonal(r.value)
      && r.value == Diag(Hadamard(AbsorbedFractions(m, stack.scintillator, dim, ks), Transmissions(m, stack.layers, dim, ks)))
  {
    MaterialResponseIsDiagonal(m, stack.layers, dim, ks);
    var resp := MaterialResponse(m, stack.layers, dim, ks).value;
    DiagOfDiagonal(resp);
    var w := Diagonal(resp);
    assert w == Transmissions(m, stack.layers, dim, ks);
    ScintillatorStepOfDiag(m, stack.scintillator, dim, ks, w);
    UndispersedHafx(m, stack, dim, ks, spread, resp);
  }

  /** Without dispersion the enabled HaFX stack answers with its scintillator step. */
  lemma UndispersedHafx(m: Transcendentals, stack: Stack, dim: nat, ks: seq<int>, spread: Result<Matrix>, resp: Matrix)
    requires stack.Hafx? && stack.enableScintillator
    requires spread.Ok? ==> Rectangular(spread.value)
    requires MaterialResponse(m, stack.layers, dim, ks) == Ok(resp)
    ensures Rectangular(resp)
    ensures DetectorResponse(m, stack, dim, ks, spread, false) == ScintillatorStep(m, stack.scintillator, dim, ks, resp)
  {
  }

  /** The enabled scintillator scales a diagonal response by the absorbed fractions. */
  lemma ScintillatorStepOfDiag(m: Transcendentals, scintillator: Layer, dim: nat, ks: seq<int>, w: Vector)
    requires DiagonalMaterial.Known(ScintillatorMechanisms(ks), scintillator.interpolated, dim)
    requires |w| == dim
    ensures ScintillatorStep(m, scintillator, dim, ks, Diag(w)) ==
      Ok(Diag(Hadamard(AbsorbedFractions(m, scintillator, dim, ks), w)))
  {
    var sk := ScintillatorMechanisms(ks);
    LayerIsDiag(m, scintillator, dim, sk);
    var d := LayerDiagonal(m, scintillator, dim, sk);
    var a := Subtract(Ones(dim), d);
    AbsorbedOfDiag(dim, d);
    DiagTimesDiag(a, w);
    assert Width(Diag(a)) == |Diag(w)| by {
      assert dim > 0 ==> Width(Diag(a)) == dim;
    }
  }

  /** The identity minus a diagonal matrix is the diagonal of one minus its entries. */
  lemma AbsorbedOfDiag(dim: nat, d: Vector)
    requires |d| == dim
    ensures Absorbed(dim, Diag(d)) == Ok(Diag(Subtract(Ones(dim), d)))
  {
    MatrixEquality(Absorbed(dim, Diag(d)).value, Diag(Subtract(Ones(dim), d)), dim, dim);
  }

  /** The scintillator absorbs a fraction in [0, 1) of the photons at every energy. */
  lemma AbsorptionIsFraction(m: Transcendentals, scintillator: Layer, dim: nat, ks: seq<int>, i: nat)
    requires ExpLaws(m)
    requires DiagonalMaterial.Known(ScintillatorMechanisms(ks), scintillator.interpolated, dim) && i < dim
    requires Physical(scintillator)
    ensures 0.0 <= Absorption(m, scintillator, dim, ks, i) < 1.0
  {
    var l := scintillator;
    DiagonalMaterial.EntryProductIsProbability(m, l.material, l.interpolated, dim, ScintillatorMechanisms(ks), i);
  }

  /** The `area` property: that of the outermost material, IndexError without one. */
  function Area(m: Transcendentals, stack: Stack): (r: Result<real>)
    ensures r.Err? <==> stack.layers == []
    ensures r.Ok? ==> r.value == DiagonalMaterial.Area(m, stack.layers[0].material)
  {
    if stack.layers == [] then Err(IndexError) else Ok(DiagonalMaterial.Area(m, stack.layers[0].material))
  }
}
