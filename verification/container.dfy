/** The top-level HaFX simulation container: a square-matrix detector stack whose
    outermost thickness follows the container's, a point spectrum on an energy
    grid, the pure and dispersed responses once simulated, the effective area with
    its count-rate threshold, and the saved files read back. */
module Container {
  import opened Outcomes
  import opened Linear
  import opened RealMath
  import PointFlareSpectrum
  import MatrixStack
  import DiagonalMaterial
  import Attenuation
  import Masking
  import Instruments
  import ContainerFiles
  import StandaloneIdlBridge

  type Spectrum = PointFlareSpectrum.Spectrum

  /** `MIN_THRESHOLD_ENG <= energies <= MAX_THRESHOLD_ENG`, in keV. */
  const ThresholdWindow: Masking.Window := Masking.Closed(1.0, 300.0)

  const NoThickness: Error := ValueError("Aluminum thickness has not been set.")

  /** The container's state; the stack is the one its constructor builds. */
  datatype Container = Container(
    stack: MatrixStack.Stack,
    alThick: Option<real>,
    matrices: ContainerFiles.Matrices<Matrix>,
    flare: Option<Spectrum>)

  /** Both stored matrices are rectangular. */
  predicate WellFormedMatrices(ms: ContainerFiles.Matrices<Matrix>) {
    (ms.dispersed.Some? ==> Rectangular(ms.dispersed.value)) &&
    (ms.pure.Some? ==> Rectangular(ms.pure.value))
  }

  /** What every container keeps: an outermost material, whose thickness is the
      container's once it is set. */
  predicate Valid(c: Container) {
    && |c.stack.layers| > 0
    && (c.alThick.Some? ==> c.stack.layers[0].material.thickness == c.alThick.value)
    && WellFormedMatrices(c.matrices)
  }

  // ---------------------------------------------------------------- state

  /** The `al_thick` setter: the container's thickness and the outermost material's
      change together, and nothing else does.  Python stores None as the material's
      thickness too; the model, whose thicknesses are reals, keeps the old value
      instead, which nothing reads before a thickness is set, since `simulate`
      refuses first. */
  function SetAlThick(c: Container, t: Option<real>): (r: Container)
    requires |c.stack.layers| > 0
    ensures r.alThick == t && r.matrices == c.matrices && r.flare == c.flare
    ensures |r.stack.layers| == |c.stack.layers| && r.stack.layers[1..] == c.stack.layers[1..]
    ensures r.stack.layers[0].interpolated == c.stack.layers[0].interpolated
    ensures t.Some? ==> r.stack.layers[0].material == c.stack.layers[0].material.(thickness := t.value)
    ensures t.None? ==> r.stack == c.stack
    ensures r.stack.Hafx? == c.stack.Hafx? && r.stack.detector == c.stack.detector
    ensures c.stack.Hafx? ==>
      r.stack.scintillator == c.stack.scintillator && r.stack.enableScintillator == c.stack.enableScintillator
    ensures WellFormedMatrices(c.matrices) ==> Valid(r)
  {
    match t
    case None => c.(alThick := None)
    case Some(x) =>
      var outer := c.stack.layers[0];
      var layers := [outer.(material := outer.material.(thickness := x))] + c.stack.layers[1..];
      assert layers[1..] == c.stack.layers[1..];
      c.(alThick := t, stack := c.stack.(layers := layers))
  }

  /** `HafxSimulationContainer(aluminum_thickness, flare_spectrum)` around the given
      stack: the thickness is written through to its outermost material, which
      raises IndexError when there is none. */
  function New(stack: MatrixStack.Stack, t: Option<real>, flare: Option<Spectrum>): (r: Result<Container>)
    ensures r.Err? <==> stack.layers == []
    ensures r.Err? ==> r.error == IndexError
    ensures r.Ok? ==> Valid(r.value) && r.value.alThick == t && r.value.flare == flare
    ensures r.Ok? ==> r.value.matrices == ContainerFiles.NoMatrices()
    ensures r.Ok? ==> r.value.stack.layers[1..] == stack.layers[1..]
  {
    if stack.layers == [] then Err(IndexError)
    else Ok(SetAlThick(Container(stack, None, ContainerFiles.NoMatrices(), flare), t))
  }

  /** The `goes_class` property. */
  function GoesClass(c: Container): (r: Result<string>)
    ensures c.flare.None? <==> r.Err?
    ensures r.Err? ==> r.error == AttributeError("goes_class")
    ensures r.Ok? ==> r.value == c.flare.value.goesClass
  {
    match c.flare
    case None => Err(AttributeError("goes_class"))
    case Some(s) => Ok(s.goesClass)
  }

  // ---------------------------------------------------------------- effective area

  /** `np.matmul(m, v)` for a stored matrix that may be missing (None has no
      dimensions for NumPy). */
  function MatMulStored(stored: Option<Matrix>, v: Vector): (r: Result<Vector>)
    requires stored.Some? ==> Rectangular(stored.value)
    ensures stored.None? ==> r == Err(TooFewDimensions)
    ensures stored.Some? && Width(stored.value) != |v| ==> r == Err(CoreMismatch)
    ensures stored.Some? && Width(stored.value) == |v| ==> r == Ok(MatVec(stored.value, v))
  {
    match stored
    case None => Err(TooFewDimensions)
    case Some(a) => if Width(a) != |v| then Err(CoreMismatch) else Ok(MatVec(a, v))
  }

  const TooFewDimensions: Error := ValueError("matmul: Input operand does not have enough dimensions")
  const CoreMismatch: Error := ValueError("matmul: Input operand has a mismatch in its core dimension")

  /** The count rate the threshold is compared with: the trapezoid rule over the
      energies in [1, 300] keV of the dispersed flare times `SINGLE_DET_AREA`. */
  function RelevantRate(dispersed: Option<Matrix>, spec: Spectrum): (r: Result<real>)
    requires dispersed.Some? ==> Rectangular(dispersed.value)
    ensures dispersed.None? ==> r == Err(TooFewDimensions)
    ensures dispersed.Some? ==>
      r == Masking.TrapzCounts(ThresholdWindow, Instruments.SingleDetArea, dispersed.value, spec.flare, spec.energies)
  {
    match dispersed
    case None => Err(TooFewDimensions)
    case Some(d) => Masking.TrapzCounts(ThresholdWindow, Instruments.SingleDetArea, d, spec.flare, spec.energies)
  }

  /** `compute_effective_area(cps_threshold)`: zeros, one per energy, when the
      threshold is positive and the in-window rate exceeds it; otherwise the pure
      response applied to `SINGLE_DET_AREA` at every energy. */
  function ComputeEffectiveArea(c: Container, threshold: real): (r: Result<Vector>)
    requires WellFormedMatrices(c.matrices)
    ensures c.flare.None? ==> r == Err(AttributeError("energies"))
    ensures c.flare.Some? && threshold > 0.0 && RelevantRate(c.matrices.dispersed, c.flare.value).Err? ==>
      r == Err(RelevantRate(c.matrices.dispersed, c.flare.value).error)
    ensures
      (&& c.flare.Some? && threshold > 0.0 && RelevantRate(c.matrices.dispersed, c.flare.value).Ok?
       && RelevantRate(c.matrices.dispersed, c.flare.value).value > threshold) ==>
        r == Ok(Zeros(|c.flare.value.energies|))
    ensures c.flare.Some? && threshold <= 0.0 ==>
      r == MatMulStored(c.matrices.pure, Constant(|c.flare.value.energies|, Instruments.SingleDetArea))
  {
    match c.flare
    case None => Err(AttributeError("energies"))
    case Some(spec) =>
      var over :=
        if threshold <= 0.0 then Ok(false)
        else match RelevantRate(c.matrices.dispersed, spec)
             case Err(e) => Err(e)
             case Ok(rate) => Ok(rate > threshold);
      match over
      case Err(e) => Err(e)
      case Ok(true) => Ok(Zeros(|spec.energies|))
      case Ok(false) => MatMulStored(c.matrices.pure, Constant(|spec.energies|, Instruments.SingleDetArea))
  }

  /** A rate at or under the threshold leaves the area to the pure response, as if
      there were no threshold. */
  lemma QuietFlareKeepsArea(c: Container, threshold: real)
    requires WellFormedMatrices(c.matrices) && c.flare.Some? && threshold > 0.0
    requires RelevantRate(c.matrices.dispersed, c.flare.value).Ok?
    requires RelevantRate(c.matrices.dispersed, c.flare.value).value <= threshold
    ensures ComputeEffectiveArea(c, threshold) == ComputeEffectiveArea(c, 0.0)
  {
  }

  /** Below the threshold the area at each energy is `SINGLE_DET_AREA` times the row
      sum of the pure response. */
  lemma EffectiveAreaIsWeightedRowSum(c: Container, threshold: real)
    requires WellFormedMatrices(c.matrices) && c.flare.Some? && threshold <= 0.0
    requires c.matrices.pure.Some? && Width(c.matrices.pure.value) == |c.flare.value.energies|
    ensures var r := ComputeEffectiveArea(c, threshold);
      && r.Ok? && |r.value| == |c.matrices.pure.value|
      && forall i :: 0 <= i < |r.value| ==> r.value[i] == Instruments.SingleDetArea * Sum(c.matrices.pure.value[i])
  {
    var p := c.matrices.pure.value;
    var area := Constant(|c.flare.value.energies|, Instruments.SingleDetArea);
    forall i | 0 <= i < |p| ensures Dot(p[i], area) == Instruments.SingleDetArea * Sum(p[i]) {
      Masking.DotOfConstant(Instruments.SingleDetArea, p[i]);
    }
  }

  // ---------------------------------------------------------------- simulate

  /** What a call that mutates the container leaves: its state, and the exception
      it raised part-way, if any. */
  datatype Attempt = Attempt(state: Container, raised: Option<Error>)

  /** `simulate()`: refuse without a thickness; store the pure response (all
      mechanisms, no dispersion); then store the dispersed one, the detector's
      `spread` times the pure response.  A failed dispersion leaves the pure response
      stored. */
  function Simulate(m: Transcendentals, c: Container, spread: Result<Matrix>): (r: Attempt)
    requires spread.Ok? ==> Rectangular(spread.value)
    requires WellFormedMatrices(c.matrices)
    ensures WellFormedMatrices(r.state.matrices)
    ensures r.state.stack == c.stack && r.state.alThick == c.alThick && r.state.flare == c.flare
    ensures c.alThick.None? ==> r == Attempt(c, Some(NoThickness))
    ensures c.alThick.Some? && c.flare.None? ==> r == Attempt(c, Some(AttributeError("energies")))
    ensures c.alThick.Some? && c.flare.Some? ==>
      var pure := MatrixStack.DetectorResponse(m, c.stack, |c.flare.value.energies|, Attenuation.All, spread, false);
      && (pure.Err? ==> r == Attempt(c, Some(pure.error)))
      && (pure.Ok? ==> r.state.matrices.pure == Some(pure.value))
      && (pure.Ok? && r.raised.None? ==>
            r.state.matrices.dispersed.Some? && MatrixStack.Dispatch(spread, pure.value, true) == Ok(r.state.matrices.dispersed.value))
      && (pure.Ok? && MatrixStack.Dispatch(spread, pure.value, true).Ok? ==> r.raised.None?)
  {
    if c.alThick.None? then Attempt(c, Some(NoThickness))
    else match c.flare
      case None => Attempt(c, Some(AttributeError("energies")))
      case Some(spec) =>
        match MatrixStack.DetectorResponse(m, c.stack, |spec.energies|, Attenuation.All, spread, false)
        case Err(e) => Attempt(c, Some(e))
        case Ok(pure) =>
          var withPure := c.(matrices := c.matrices.(pure := Some(pure)));
          match MatrixStack.Dispatch(spread, pure, true)
          case Err(e) => Attempt(withPure, Some(e))
          case Ok(dispersed) => Attempt(withPure.(matrices := withPure.matrices.(dispersed := Some(dispersed))), None)
  }

  /** After `simulate`, whether or not the dispersion went through, the effective
      area of a HaFX container with its scintillator on is, at every energy,
      `SINGLE_DET_AREA` times the fraction that crosses every material and is then
      absorbed in the scintillator. */
  lemma SimulatedAreaIsAbsorbedTransmission(m: Transcendentals, c: Container, spread: Result<Matrix>)
    requires spread.Ok? ==> Rectangular(spread.value)
    requires WellFormedMatrices(c.matrices) && c.alThick.Some? && c.flare.Some?
    requires c.stack.Hafx? && c.stack.enableScintillator
    requires MatrixStack.AllKnown(c.stack.layers, |c.flare.value.energies|, Attenuation.All)
    requires DiagonalMaterial.Known(MatrixStack.ScintillatorMechanisms(Attenuation.All),
                                    c.stack.scintillator.interpolated, |c.flare.value.energies|)
    ensures var dim := |c.flare.value.energies|;
      var r := ComputeEffectiveArea(Simulate(m, c, spread).state, 0.0);
      && r.Ok? && |r.value| == dim
      && r.value == Scale(Instruments.SingleDetArea,
           Hadamard(MatrixStack.AbsorbedFractions(m, c.stack.scintillator, dim, Attenuation.All),
                    MatrixStack.Transmissions(m, c.stack.layers, dim, Attenuation.All)))
  {
    var dim := |c.flare.value.energies|;
    var ks := Attenuation.All;
    MatrixStack.HafxResponseIsDiagonal(m, c.stack, dim, ks, spread);
    var p := MatrixStack.DetectorResponse(m, c.stack, dim, ks, spread, false).value;
    var s := Simulate(m, c, spread).state;
    SimulateStoresPure(m, c, spread, p);
    AreaOfDiagonalPure(s, p);
    DiagonalOfDiag(Hadamard(MatrixStack.AbsorbedFractions(m, c.stack.scintillator, dim, ks),
                            MatrixStack.Transmissions(m, c.stack.layers, dim, ks)));
  }

  /** A pure response that comes out is stored, whatever the dispersion does. */
  lemma SimulateStoresPure(m: Transcendentals, c: Container, spread: Result<Matrix>, p: Matrix)
    requires spread.Ok? ==> Rectangular(spread.value)
    requires WellFormedMatrices(c.matrices) && c.alThick.Some? && c.flare.Some?
    requires MatrixStack.DetectorResponse(m, c.stack, |c.flare.value.energies|, Attenuation.All, spread, false) == Ok(p)
    ensures var s := Simulate(m, c, spread).state;
      WellFormedMatrices(s.matrices) && s.matrices.pure == Some(p) && s.flare == c.flare
  {
  }

  /** With a diagonal square pure response on the spectrum's energies, the area at
      each energy is `SINGLE_DET_AREA` times the diagonal entry. */
  lemma AreaOfDiagonalPure(s: Container, p: Matrix)
    requires WellFormedMatrices(s.matrices) && s.flare.Some? && s.matrices.pure == Some(p)
    requires IsMatrix(p, |s.flare.value.energies|, |s.flare.value.energies|) && IsDiagonal(p)
    ensures var r := ComputeEffectiveArea(s, 0.0);
      && r.Ok? && r.value == Scale(Instruments.SingleDetArea, Diagonal(p))
  {
    assert |p| > 0 ==> Width(p) == |s.flare.value.energies|;
    EffectiveAreaIsWeightedRowSum(s, 0.0);
    forall i | 0 <= i < |p| ensures Sum(p[i]) == p[i][i] {
      DiagonalRowSum(p, i);
    }
  }

  /** A row of a diagonal square matrix sums to its diagonal entry. */
  lemma DiagonalRowSum(p: Matrix, i: nat)
    requires IsDiagonal(p) && IsMatrix(p, |p|, |p|) && i < |p|
    ensures Sum(p[i]) == p[i][i]
  {
    OneNonZero(p[i], i);
  }

  /** A vector that is zero off one index sums to its entry there. */
  lemma {:induction false} OneNonZero(v: Vector, i: nat)
    requires i < |v| && forall j :: 0 <= j < |v| && j != i ==> v[j] == 0.0
    ensures Sum(v) == v[i]
    decreases |v|
  {
    if i == 0 {
      ZeroSum(v[1..]);
    } else {
      assert v[0] == 0.0;
      OneNonZero(v[1..], i - 1);
    }
  }

  /** A vector of zeros sums to zero. */
  lemma {:induction false} ZeroSum(v: Vector)
    requires forall j :: 0 <= j < |v| ==> v[j] == 0.0
    ensures Sum(v) == 0.0
    decreases |v|
  {
    if |v| > 0 {
      ZeroSum(v[1..]);
    }
  }

  // ---------------------------------------------------------------- files

  /** `gen_file_name(prefix)`, with `format` the `.3e` formatting of the thickness. */
  function GenFileName(c: Container, prefix: Option<string>, format: real -> string): (r: Result<string>)
    ensures c.flare.None? ==> r == Err(AttributeError("goes_class"))
    ensures c.flare.Some? && c.alThick.None? ==> r == Err(TypeError)
    ensures c.flare.Some? && c.alThick.Some? ==>
      r == Ok(ContainerFiles.FileName(prefix, c.flare.value.goesClass, format(c.alThick.value)))
  {
    match GoesClass(c)
    case Err(e) => Err(e)
    case Ok(gc) =>
      match c.alThick
      case None => Err(TypeError)
      case Some(t) => Ok(ContainerFiles.FileName(prefix, gc, format(t)))
  }

  /** `save_to_file`, under the guard as written or as intended: past the guards it
      reads the spectrum's `thermal`, which the point spectrum does not keep, so no
      file is ever written. */
  function SaveWith(c: Container, corrected: bool): (r: Result<()>)
    ensures r.Err?
    ensures corrected && ContainerFiles.SaveGuard(c.matrices) ==> r == Err(ContainerFiles.NotComputed)
    ensures (!corrected || !ContainerFiles.SaveGuard(c.matrices)) && c.flare.None? ==> r == Err(ContainerFiles.NoSpectrum)
    ensures (!corrected || !ContainerFiles.SaveGuard(c.matrices)) && c.flare.Some? ==> r == Err(AttributeError("thermal"))
  {
    ContainerFiles.SaveGuardNeverFires(c.matrices);
    if (if corrected then ContainerFiles.SaveGuard(c.matrices) else ContainerFiles.SaveGuardAsWritten(c.matrices)) then
      Err(ContainerFiles.NotComputed)
    else if c.flare.None? then Err(ContainerFiles.NoSpectrum)
    else Err(AttributeError("thermal"))
  }

  /** The arrays of a saved file; `goesClass` is None for the old files that lack it. */
  datatype Saved = Saved(
    goesClass: Option<string>,
    alThick: Option<real>,
    energies: Vector,
    thermal: Vector,
    nonthermal: Vector,
    dispersed: Option<Matrix>,
    pure: Option<Matrix>)

  /** The class of a saved file: its own, or else the third-last `_`-part of its
      name. */
  function SavedClass(saved: Saved, filename: string): (r: Result<string>)
    ensures saved.goesClass.Some? ==> r == Ok(saved.goesClass.value)
    ensures saved.goesClass.None? ==> r == ContainerFiles.ClassFromFileName(filename)
  {
    match saved.goesClass
    case Some(gc) => Ok(gc)
    case None => ContainerFiles.ClassFromFileName(filename)
  }

  /** The spectrum `from_saved_file` builds: remade with Battaglia scaling on
      `min(e)`, `max(e)` and `e[1] - e[0]` by `remade`, or put together from the saved
      energies, thermal and non-thermal parts. */
  function SavedSpectrum(saved: Saved, gc: string, remake: bool,
                         remade: (string, real, real, real) -> Result<Spectrum>): (r: Result<Spectrum>)
    ensures !remake ==> r == PointFlareSpectrum.MakeSpectrum(gc, saved.energies, saved.thermal, saved.nonthermal)
    ensures remake && |saved.energies| == 0 ==> r == Err(ValueError("min() arg is an empty sequence"))
    ensures remake && |saved.energies| == 1 ==> r == Err(IndexError)
    ensures remake && |saved.energies| >= 2 ==>
      r == remade(gc, StandaloneIdlBridge.Min(saved.energies), StandaloneIdlBridge.Max(saved.energies),
                  saved.energies[1] - saved.energies[0])
  {
    var e := saved.energies;
    if !remake then PointFlareSpectrum.MakeSpectrum(gc, e, saved.thermal, saved.nonthermal)
    else if |e| == 0 then Err(ValueError("min() arg is an empty sequence"))
    else if |e| == 1 then Err(IndexError)
    else remade(gc, StandaloneIdlBridge.Min(e), StandaloneIdlBridge.Max(e), e[1] - e[0])
  }

  /** `from_saved_file(filename, remake_spectrum)` on the arrays read from `filename`,
      with `stack` the stack the constructor builds. */
  function FromSavedFile(stack: MatrixStack.Stack, filename: string, saved: Saved, remake: bool,
                         remade: (string, real, real, real) -> Result<Spectrum>): (r: Result<Container>)
    requires saved.dispersed.Some? ==> Rectangular(saved.dispersed.value)
    requires saved.pure.Some? ==> Rectangular(saved.pure.value)
    ensures SavedClass(saved, filename).Err? ==> r == Err(SavedClass(saved, filename).error)
    ensures r.Ok? ==> Valid(r.value) && r.value.alThick == saved.alThick
    ensures r.Ok? ==> r.value.matrices == ContainerFiles.Matrices(saved.dispersed, saved.pure)
    ensures r.Ok? ==>
      && SavedClass(saved, filename).Ok? && r.value.flare.Some?
      && Ok(r.value.flare.value) == SavedSpectrum(saved, SavedClass(saved, filename).value, remake, remade)
  {
    match SavedClass(saved, filename)
    case Err(e) => Err(e)
    case Ok(gc) =>
      match SavedSpectrum(saved, gc, remake, remade)
      case Err(e) => Err(e)
      case Ok(fs) =>
        match New(stack, saved.alThick, Some(fs))
        case Err(e) => Err(e)
        case Ok(c) => Ok(c.(matrices := ContainerFiles.Matrices(saved.dispersed, saved.pure)))
  }

  /** An old file without its class is read back with the class its name was made
      from, when that has no underscore and the spectrum parts are of one length. */
  lemma ClassFallbackRecovers(stack: MatrixStack.Stack, lead: string, prefix: Option<string>, gc: string,
                              thickText: string, ext: string, saved: Saved,
                              remade: (string, real, real, real) -> Result<Spectrum>)
    requires '_' !in gc && '_' !in thickText && '_' !in ext && gc != ""
    requires saved.goesClass.None? && |saved.thermal| == |saved.nonthermal| && stack.layers != []
    requires saved.dispersed.Some? ==> Rectangular(saved.dispersed.value)
    requires saved.pure.Some? ==> Rectangular(saved.pure.value)
    ensures var r := FromSavedFile(stack, lead + ContainerFiles.FileName(prefix, gc, thickText) + ext, saved, false, remade);
      r.Ok? && r.value.flare.value.goesClass == gc && r.value.flare.value.energies == saved.energies
  {
    ContainerFiles.FileNameRoundTrip(lead, prefix, gc, thickText, ext);
  }
}
