/** The HaFX simulation container of `adetsim`: a HaFX stack whose aluminium
    thickness follows the container's, a binned flare spectrum, and the pure and
    dispersed responses once simulated, with the effective area, the file name and
    the record saved and loaded back. */
module AdetsimContainer {
  import opened Outcomes
  import opened Linear
  import opened RealMath
  import FlareSpectrum
  import VectorStack
  import Attenuation
  import Masking
  import Instruments
  import ContainerFiles

  type Array = VectorStack.Array

  /** `MIN_THRESHOLD_ENG` to `MAX_THRESHOLD_ENG`, both included. */
  const ThresholdWindow: Masking.Window := Masking.Closed(1.0, 300.0)

  const NoThickness: Error := ValueError("Aluminum thickness has not been set.")

  /** The container: its stack, the thickness it was given (None until set), the
      matrices, and its spectrum (None when not given). */
  datatype Container = Container(
    stack: VectorStack.Stack,
    alThick: Option<real>,
    matrices: ContainerFiles.Matrices<Array>,
    flare: Option<FlareSpectrum.Spectrum>)

  /** Both stored matrices are arrays NumPy could hold. */
  predicate WellFormedMatrices(ms: ContainerFiles.Matrices<Array>) {
    (ms.dispersed.Some? ==> VectorStack.WellFormed(ms.dispersed.value)) &&
    (ms.pure.Some? ==> VectorStack.WellFormed(ms.pure.value))
  }

  /** What every container keeps: a HaFX stack of three layers whose outermost
      thickness is the container's, once it is set. */
  predicate Valid(c: Container) {
    && c.stack.Hafx? && |c.stack.layers| == 3
    && (c.alThick.Some? ==> c.stack.layers[0].thickness == c.alThick.value)
    && WellFormedMatrices(c.matrices)
  }

  // ---------------------------------------------------------------- state

  /** The `al_thick` setter: the container's thickness and the outermost material's
      thickness change together, and nothing else does.  Python stores None as the
      material's thickness too; the model, whose thicknesses are reals, keeps the
      old value instead, which nothing reads before a thickness is set, since
      `simulate` refuses first. */
  function SetAlThick(c: Container, t: Option<real>): (r: Container)
    requires |c.stack.layers| > 0
    ensures r.alThick == t && r.matrices == c.matrices && r.flare == c.flare
    ensures |r.stack.layers| == |c.stack.layers| && r.stack.layers[1..] == c.stack.layers[1..]
    ensures t.Some? ==> r.stack.layers[0] == c.stack.layers[0].(thickness := t.value)
    ensures t.None? ==> r.stack == c.stack
    ensures c.stack.Hafx? ==>
      && r.stack.Hafx? && r.stack.scintillator == c.stack.scintillator
      && r.stack.enableScintillator == c.stack.enableScintillator && r.stack.detector == c.stack.detector
    ensures c.stack.Hafx? && |c.stack.layers| == 3 && WellFormedMatrices(c.matrices) ==> Valid(r)
  {
    match t
    case None => c.(alThick := None)
    case Some(x) =>
      var layers := [c.stack.layers[0].(thickness := x)] + c.stack.layers[1..];
      assert layers[1..] == c.stack.layers[1..];
      c.(alThick := t, stack := c.stack.(layers := layers))
  }

  /** Setting the thickness twice is setting it once, to the second value. */
  lemma SetAlThickTwice(c: Container, t: Option<real>, u: real)
    requires |c.stack.layers| > 0
    ensures SetAlThick(SetAlThick(c, t), Some(u)) == SetAlThick(c, Some(u))
  {
    var once := SetAlThick(c, t);
    assert once.stack.layers[1..] == c.stack.layers[1..];
    assert [once.stack.layers[0].(thickness := u)] + once.stack.layers[1..]
        == [c.stack.layers[0].(thickness := u)] + c.stack.layers[1..];
  }

  /** `HafxSimulationContainer(aluminum_thickness, flare_spectrum)` as written:
      `HafxStack()` reads its tables first, and a read that fails is the
      constructor's error; otherwise the container holds the stack built on the
      tables read, the thickness written through, and no matrices.  The stack's own
      placeholder thickness is 0 here. */
  function New(read: Instruments.Reader, t: Option<real>, flare: Option<FlareSpectrum.Spectrum>): (r: Result<Container>)
    ensures r.Err? <==> Instruments.ReadHafx(true, 0.0, read).Err?
    ensures r.Err? ==> r.error == Instruments.ReadHafx(true, 0.0, read).error
    ensures r.Ok? ==> Valid(r.value) && r.value.alThick == t && r.value.flare == flare
    ensures r.Ok? ==> r.value.matrices == ContainerFiles.NoMatrices() && r.value.stack.enableScintillator
  {
    match Instruments.ReadHafx(true, 0.0, read)
    case Err(e) => Err(e)
    case Ok(stack) => Ok(SetAlThick(Container(stack, None, ContainerFiles.NoMatrices(), flare), t))
  }

  /** The container a working reader gives: a fresh HaFX stack with its scintillator
      on, built from the loaded attenuation data, the thickness written through, and
      no matrices. */
  function NewLoaded(load: Instruments.Loader, t: Option<real>, flare: Option<FlareSpectrum.Spectrum>): (c: Container)
    ensures Valid(c) && c.alThick == t && c.flare == flare
    ensures c.matrices == ContainerFiles.NoMatrices()
    ensures c.stack.enableScintillator && c.stack.layers[1..] == Instruments.MakeHafx(true, 0.0, load).layers[1..]
  {
    var start := Container(Instruments.MakeHafx(true, 0.0, load), None, ContainerFiles.NoMatrices(), flare);
    SetAlThick(start, t)
  }

  /** As written, no container can be made: the stack's first table raises
      AttributeError. */
  lemma NewAsWrittenRaises(t: Option<real>, flare: Option<FlareSpectrum.Spectrum>)
    ensures New(Instruments.FromNistFile, t, flare) == Err(Instruments.NoNistReader)
  {
    Instruments.HafxAsWrittenRaises(true, 0.0);
  }

  /** With a reader that works, the constructor gives the container on the loaded
      tables. */
  lemma NewReadsAsLoaded(read: Instruments.Reader, load: Instruments.Loader, t: Option<real>, flare: Option<FlareSpectrum.Spectrum>)
    requires Instruments.Reads(read, load)
    ensures New(read, t, flare) == Ok(NewLoaded(load, t, flare))
  {
    Instruments.HafxReadsAsLoaded(true, 0.0, read, load);
  }

  /** The `goes_class` property. */
  function GoesClass(c: Container): (r: Result<string>)
    ensures c.flare.None? <==> r.Err?
    ensures r.Err? ==> r.error == AttributeError("goes_class")
    ensures r.Ok? ==> r.value == c.flare.value.goesClass
  {
    match c.flare
    case None => Err(AttributeError("goes_class"))
    case Some(s) => Ok(s.goesClass)
  }

  // ---------------------------------------------------------------- effective area

  /** `np.matmul(m, v)` for a stored matrix that may be missing: NumPy takes None for
      an array without dimensions. */
  function MatMulStored(stored: Option<Array>, v: Vector): (r: Result<Array>)
    requires stored.Some? ==> VectorStack.WellFormed(stored.value)
    ensures stored.None? ==> r == Err(VectorStack.TooFewDimensions)
    ensures stored.Some? ==> r == VectorStack.MatMulArrays(stored.value, VectorStack.Vec(v))
  {
    match stored
    case None => Err(VectorStack.TooFewDimensions)
    case Some(a) => VectorStack.MatMulArrays(a, VectorStack.Vec(v))
  }

  /** The count rate the threshold is compared with:
      `np.sum(dispersed_flare[restrict[:-1]] * SINGLE_DET_AREA * np.diff(edges[restrict]))`
      where `restrict` keeps the edges in [1, 300] keV. */
  function RelevantRate(dispersed: Option<Array>, spec: FlareSpectrum.Spectrum): (r: Result<real>)
    requires dispersed.Some? ==> VectorStack.WellFormed(dispersed.value)
    ensures FlareSpectrum.Flare(spec).Err? ==> r == Err(FlareSpectrum.Flare(spec).error)
    ensures FlareSpectrum.Flare(spec).Ok? && dispersed.None? ==> r == Err(VectorStack.TooFewDimensions)
  {
    var edges := spec.energyEdges;
    var restrict := Masking.Mask(ThresholdWindow, edges);
    match FlareSpectrum.Flare(spec)
    case Err(e) => Err(e)
    case Ok(flare) =>
      match MatMulStored(dispersed, flare)
      case Err(e) => Err(e)
      case Ok(Vec(df)) =>
        var widths := Diff(Masking.Pick(edges, restrict));
        (match Masking.Select(df, if |restrict| == 0 then [] else restrict[..|restrict| - 1])
         case Err(e) => Err(e)
         case Ok(selected) =>
           match VectorStack.BroadcastTimes(widths, VectorStack.Vec(Scale(Instruments.SingleDetArea, selected)))
           case Err(e) => Err(e)
           case Ok(weighted) => Ok(Masking.Total(weighted)))
      case Ok(_) => Err(IndexError)
  }

  /** With every edge inside [1, 300] keV, the rate is the bin-width-weighted sum of
      the dispersed flare over all bins, as the calibration scripts count it. */
  lemma RelevantRateOfWindow(d: Matrix, spec: FlareSpectrum.Spectrum, flare: Vector)
    requires Rectangular(d) && FlareSpectrum.Flare(spec) == Ok(flare) && Width(d) == |flare|
    requires |d| + 1 == |spec.energyEdges|
    requires forall i :: 0 <= i < |spec.energyEdges| ==> 1.0 <= spec.energyEdges[i] <= 300.0
    ensures RelevantRate(Some(VectorStack.Mat(d)), spec)
      == Ok(Dot(Diff(spec.energyEdges), Scale(Instruments.SingleDetArea, MatVec(d, flare))))
  {
    var w := RateOfWeights(d, spec, flare);
    WindowTotal(spec.energyEdges, MatVec(d, flare), w);
  }

  /** The weighted bins total the widths dotted with the bins scaled by `SINGLE_DET_AREA`. */
  lemma WindowTotal(edges: Vector, df: Vector, w: Array)
    requires |df| + 1 == |edges|
    requires VectorStack.BroadcastTimes(Diff(edges), VectorStack.Vec(Scale(Instruments.SingleDetArea, df))) == Ok(w)
    ensures Masking.Total(w) == Dot(Diff(edges), Scale(Instruments.SingleDetArea, df))
  {
    assert w == VectorStack.Vec(Hadamard(Diff(edges), Scale(Instruments.SingleDetArea, df)));
    DotIsSumOfProducts(Diff(edges), Scale(Instruments.SingleDetArea, df));
  }

  /** Inside the window the rate totals the bins weighted by `SINGLE_DET_AREA` and the widths. */
  lemma RateOfWeights(d: Matrix, spec: FlareSpectrum.Spectrum, flare: Vector) returns (w: Array)
    requires Rectangular(d) && FlareSpectrum.Flare(spec) == Ok(flare) && Width(d) == |flare|
    requires |d| + 1 == |spec.energyEdges|
    requires forall i :: 0 <= i < |spec.energyEdges| ==> 1.0 <= spec.energyEdges[i] <= 300.0
    ensures VectorStack.BroadcastTimes(Diff(spec.energyEdges),
              VectorStack.Vec(Scale(Instruments.SingleDetArea, MatVec(d, flare)))) == Ok(w)
    ensures RelevantRate(Some(VectorStack.Mat(d)), spec) == Ok(Masking.Total(w))
  {
    var edges := spec.energyEdges;
    Masking.MatrixTimesVector(d, flare);
    var df := MatVec(d, flare);
    assert MatMulStored(Some(VectorStack.Mat(d)), flare) == Ok(VectorStack.Vec(df));
    WindowKeepsAll(edges, df);
    var b := VectorStack.BroadcastTimes(Diff(edges), VectorStack.Vec(Scale(Instruments.SingleDetArea, df)));
    assert b.Ok?;
    w := b.value;
    RateOfParts(Some(VectorStack.Mat(d)), spec, flare, df, df, w, Masking.Total(w));
  }

  /** With every edge in the window, the mask keeps every edge and every bin. */
  lemma WindowKeepsAll(edges: Vector, df: Vector)
    requires forall i :: 0 <= i < |edges| ==> 1.0 <= edges[i] <= 300.0
    requires |df| + 1 == |edges|
    ensures var restrict := Masking.Mask(ThresholdWindow, edges);
      && Masking.Pick(edges, restrict) == edges
      && Masking.Select(df, restrict[..|restrict| - 1]) == Ok(df)
  {
    var restrict := Masking.Mask(ThresholdWindow, edges);
    var front := restrict[..|restrict| - 1];
    assert forall i :: 0 <= i < |front| ==> front[i];
  }

  /** The rate once each step of its computation is known. */
  lemma RateOfParts(dispersed: Option<Array>, spec: FlareSpectrum.Spectrum, flare: Vector, df: Vector,
                    selected: Vector, weighted: Array, rate: real)
    requires dispersed.Some? ==> VectorStack.WellFormed(dispersed.value)
    requires FlareSpectrum.Flare(spec) == Ok(flare)
    requires MatMulStored(dispersed, flare) == Ok(VectorStack.Vec(df))
    requires var restrict := Masking.Mask(ThresholdWindow, spec.energyEdges);
      Masking.Select(df, if |restrict| == 0 then [] else restrict[..|restrict| - 1]) == Ok(selected)
    requires VectorStack.BroadcastTimes(Diff(Masking.Pick(spec.energyEdges, Masking.Mask(ThresholdWindow, spec.energyEdges))),
                                        VectorStack.Vec(Scale(Instruments.SingleDetArea, selected))) == Ok(weighted)
    requires Masking.Total(weighted) == rate
    ensures RelevantRate(dispersed, spec) == Ok(rate)
  {
  }

  /** The bins and the widths line up only when the top edge in the window is the
      last edge: with the last edge above the window and at least three edges in
      it, the kept bins outnumber the widths by one and NumPy cannot broadcast
      them. */
  lemma RelevantRateNeedsLastEdge(d: Matrix, spec: FlareSpectrum.Spectrum, flare: Vector)
    requires Rectangular(d) && FlareSpectrum.Flare(spec) == Ok(flare) && Width(d) == |flare|
    requires |d| + 1 == |spec.energyEdges|
    requires !Masking.InWindow(ThresholdWindow, spec.energyEdges[|spec.energyEdges| - 1])
    requires Masking.Kept(Masking.Mask(ThresholdWindow, spec.energyEdges)) >= 3
    ensures RelevantRate(Some(VectorStack.Mat(d)), spec) == Err(VectorStack.NotBroadcastable)
  {
    var edges := spec.energyEdges;
    var restrict := Masking.Mask(ThresholdWindow, edges);
    Masking.MatrixTimesVector(d, flare);
    var df := MatVec(d, flare);
    assert MatMulStored(Some(VectorStack.Mat(d)), flare) == Ok(VectorStack.Vec(df));
    var front := restrict[..|restrict| - 1];
    KeptOfFront(restrict);
    var selected := Masking.Pick(df, front);
    var widths := Diff(Masking.Pick(edges, restrict));
    assert |widths| == Masking.Kept(restrict) - 1;
    assert |selected| == Masking.Kept(restrict);
    assert VectorStack.BroadcastTimes(widths, VectorStack.Vec(Scale(Instruments.SingleDetArea, selected)))
      == Err(VectorStack.NotBroadcastable);
    RateErrOfParts(Some(VectorStack.Mat(d)), spec, flare, df, selected, VectorStack.NotBroadcastable);
  }

  /** The rate's error once the product and the selection succeed and the weighting fails. */
  lemma RateErrOfParts(dispersed: Option<Array>, spec: FlareSpectrum.Spectrum, flare: Vector, df: Vector,
                       selected: Vector, e: Error)
    requires dispersed.Some? ==> VectorStack.WellFormed(dispersed.value)
    requires FlareSpectrum.Flare(spec) == Ok(flare)
    requires MatMulStored(dispersed, flare) == Ok(VectorStack.Vec(df))
    requires var restrict := Masking.Mask(ThresholdWindow, spec.energyEdges);
      Masking.Select(df, if |restrict| == 0 then [] else restrict[..|restrict| - 1]) == Ok(selected)
    requires VectorStack.BroadcastTimes(Diff(Masking.Pick(spec.energyEdges, Masking.Mask(ThresholdWindow, spec.energyEdges))),
                                        VectorStack.Vec(Scale(Instruments.SingleDetArea, selected))) == Err(e)
    ensures RelevantRate(dispersed, spec) == Err(e)
  {
  }

  /** Dropping an unset last entry keeps the count of set entries. */
  lemma {:induction false} KeptOfFront(mask: seq<bool>)
    requires |mask| > 0 && !mask[|mask| - 1]
    ensures Masking.Kept(mask[..|mask| - 1]) == Masking.Kept(mask)
    decreases |mask|
  {
    if |mask| > 1 {
      assert mask[1..][..|mask[1..]| - 1] == mask[..|mask| - 1][1..];
      KeptOfFront(mask[1..]);
    }
  }

  /** `compute_effective_area(cps_threshold, different_flare)`: with a positive
      threshold that the in-window rate exceeds, a zero area of one entry per bin;
      otherwise the pure response applied to `SINGLE_DET_AREA` at every energy. */
  function ComputeEffectiveArea(c: Container, threshold: real, different: Option<FlareSpectrum.Spectrum>): (r: Result<Array>)
    requires WellFormedMatrices(c.matrices)
    ensures different.None? && c.flare.None? ==>
      r == Err(AttributeError(if threshold > 0.0 then "energy_edges" else "flare"))
    ensures var fs := if different.Some? then different else c.flare;
      fs.Some? && threshold > 0.0 && RelevantRate(c.matrices.dispersed, fs.value).Ok? &&
      RelevantRate(c.matrices.dispersed, fs.value).value > threshold && |fs.value.energyEdges| > 0 ==>
        r == Ok(VectorStack.Vec(Zeros(|fs.value.energyEdges| - 1)))
    ensures var fs := if different.Some? then different else c.flare;
      fs.Some? && threshold <= 0.0 && FlareSpectrum.Flare(fs.value).Ok? ==>
        r == MatMulStored(c.matrices.pure, Constant(|FlareSpectrum.Flare(fs.value).value|, Instruments.SingleDetArea))
  {
    var fs := if different.Some? then different else c.flare;
    match fs
    case None => Err(AttributeError(if threshold > 0.0 then "energy_edges" else "flare"))
    case Some(spec) =>
      var over :=
        if threshold <= 0.0 then Ok(false)
        else match RelevantRate(c.matrices.dispersed, spec)
             case Err(e) => Err(e)
             case Ok(rate) => Ok(rate > threshold);
      match over
      case Err(e) => Err(e)
      case Ok(true) =>
        if |spec.energyEdges| == 0 then Err(ValueError("negative dimensions are not allowed"))
        else Ok(VectorStack.Vec(Zeros(|spec.energyEdges| - 1)))
      case Ok(false) =>
        match FlareSpectrum.Flare(spec)
        case Err(e) => Err(e)
        case Ok(flare) => MatMulStored(c.matrices.pure, Constant(|flare|, Instruments.SingleDetArea))
  }

  /** Below the threshold the effective area at each energy is `SINGLE_DET_AREA`
      times the row sum of the pure response: the area weighted by the fraction the
      stack lets through and absorbs. */
  lemma EffectiveAreaIsWeightedRowSum(c: Container, threshold: real, p: Matrix, flare: Vector)
    requires WellFormedMatrices(c.matrices) && c.flare.Some?
    requires threshold <= 0.0 && FlareSpectrum.Flare(c.flare.value) == Ok(flare)
    requires c.matrices.pure == Some(VectorStack.Mat(p)) && Width(p) == |flare|
    ensures var r := ComputeEffectiveArea(c, threshold, None);
      && r.Ok? && r.value.Vec? && |r.value.entries| == |p|
      && forall i :: 0 <= i < |p| ==> r.value.entries[i] == Instruments.SingleDetArea * Sum(p[i])
  {
    var area := Constant(|flare|, Instruments.SingleDetArea);
    Masking.MatrixTimesVector(p, area);
    forall i | 0 <= i < |p| ensures Dot(p[i], area) == Instruments.SingleDetArea * Sum(p[i]) {
      Masking.DotOfConstant(Instruments.SingleDetArea, p[i]);
    }
  }

  // ---------------------------------------------------------------- simulate

  /** `simulate(other_spectrum)`: refuse without a thickness, then ask the stack for
      its pure response (all mechanisms, no dispersion), to be stored and then
      dispersed.  The spectrum class of `adetsim` has no `energies`, which the stack
      reads for the attenuation of every layer, so the call always raises and the
      container is left as it was: no matrix is ever stored. */
  function Simulate(m: Transcendentals, c: Container, other: Option<FlareSpectrum.Spectrum>, spread: Result<Matrix>): (r: Result<Container>)
    requires spread.Ok? ==> Rectangular(spread.value)
    ensures c.alThick.None? ==> r == Err(NoThickness)
    ensures c.alThick.Some? && other.None? && c.flare.None? ==> r == Err(AttributeError("energies"))
    ensures r.Err?
  {
    var fs := if other.Some? then other else c.flare;
    if c.alThick.None? then Err(NoThickness)
    else match fs
      case None => Err(AttributeError("energies"))
      case Some(spec) =>
        match VectorStack.DetectorResponse(m, c.stack, VectorStack.Incident(spec, None), Attenuation.All, spread, false)
        case Err(e) => Err(e)
        case Ok(_) => assert false; Err(AttributeError("energies"))
  }

  // ---------------------------------------------------------------- files

  /** `gen_file_name(prefix)` with `format` the `.3e` formatting of the thickness: the
      class is read first, then the thickness formatted, which fails on None. */
  function GenFileName(c: Container, prefix: Option<string>, format: real -> string): (r: Result<string>)
    ensures c.flare.None? ==> r == Err(AttributeError("goes_class"))
    ensures c.flare.Some? && c.alThick.None? ==> r == Err(TypeError)
    ensures c.flare.Some? && c.alThick.Some? ==>
      r == Ok(ContainerFiles.FileName(prefix, c.flare.value.goesClass, format(c.alThick.value)))
  {
    match GoesClass(c)
    case Err(e) => Err(e)
    case Ok(gc) =>
      match c.alThick
      case None => Err(TypeError)
      case Some(t) => Ok(ContainerFiles.FileName(prefix, gc, format(t)))
  }

  /** The arrays `save_to_file` writes under their keys; `goesClass` is None for a
      file without that key. */
  datatype Saved = Saved(
    goesClass: Option<string>,
    alThick: Option<real>,
    thermal: Vector,
    nonthermal: Vector,
    energyEdges: Vector,
    dispersed: Option<Array>,
    pure: Option<Array>)

  /** The record and the file name `save_to_file` would write, under either guard. */
  function SaveWith(c: Container, prefix: Option<string>, format: real -> string, corrected: bool): (r: Result<(Saved, string)>)
    ensures corrected && ContainerFiles.SaveGuard(c.matrices) ==> r == Err(ContainerFiles.NotComputed)
    ensures (!corrected || !ContainerFiles.SaveGuard(c.matrices)) && c.flare.None? ==> r == Err(ContainerFiles.NoSpectrum)
    ensures r.Ok? ==>
      && c.flare.Some? && c.alThick.Some?
      && r.value.0 == Saved(Some(c.flare.value.goesClass), c.alThick, c.flare.value.thermal, c.flare.value.nonthermal,
                            c.flare.value.energyEdges, c.matrices.dispersed, c.matrices.pure)
      && r.value.1 == ContainerFiles.FileName(prefix, c.flare.value.goesClass, format(c.alThick.value))
  {
    ContainerFiles.SaveGuardNeverFires(c.matrices);
    if (if corrected then ContainerFiles.SaveGuard(c.matrices) else ContainerFiles.SaveGuardAsWritten(c.matrices)) then
      Err(ContainerFiles.NotComputed)
    else match c.flare
      case None => Err(ContainerFiles.NoSpectrum)
      case Some(s) =>
        var saved := Saved(Some(s.goesClass), c.alThick, s.thermal, s.nonthermal, s.energyEdges,
                           c.matrices.dispersed, c.matrices.pure);
        match GenFileName(c, prefix, format)
        case Err(e) => Err(e)
        case Ok(name) => Ok((saved, name))
  }

  /** `save_to_file` as written: the matrix guard never refuses, so only a missing
      spectrum or thickness stops the save. */
  function SaveToFile(c: Container, prefix: Option<string>, format: real -> string): (r: Result<(Saved, string)>)
    ensures c.flare.None? ==> r == Err(ContainerFiles.NoSpectrum)
    ensures c.flare.Some? && c.alThick.None? ==> r == Err(TypeError)
    ensures r.Ok? <==> c.flare.Some? && c.alThick.Some?
    ensures r.Ok? ==> r.value.0.dispersed == c.matrices.dispersed && r.value.0.pure == c.matrices.pure
  {
    SaveWith(c, prefix, format, false)
  }

  /** `save_to_file` with the guard it evidently meant: both matrices must have been
      computed before anything else is looked at. */
  function SaveToFileCorrected(c: Container, prefix: Option<string>, format: real -> string): (r: Result<(Saved, string)>)
    ensures ContainerFiles.SaveGuard(c.matrices) ==> r == Err(ContainerFiles.NotComputed)
    ensures r.Ok? <==> c.matrices.dispersed.Some? && c.matrices.pure.Some? && c.flare.Some? && c.alThick.Some?
    ensures r.Ok? ==> r.value.0.dispersed.Some? && r.value.0.pure.Some?
  {
    SaveWith(c, prefix, format, true)
  }

  /** A container that has never simulated is saved as written, matrices of None and
      all, where the intended guard refuses it. */
  lemma UnsimulatedIsSaved(load: Instruments.Loader, t: real, spec: FlareSpectrum.Spectrum, prefix: Option<string>, format: real -> string)
    ensures var c := NewLoaded(load, Some(t), Some(spec));
      && SaveToFile(c, prefix, format).Ok?
      && SaveToFile(c, prefix, format).value.0.pure.None?
      && SaveToFileCorrected(c, prefix, format) == Err(ContainerFiles.NotComputed)
  {
    var c := NewLoaded(load, Some(t), Some(spec));
    ContainerFiles.SaveGuardNeverFires(c.matrices);
  }

  /** `from_saved_file(filename, remake_spectrum)` on the arrays read: the class must
      be there; the spectrum is rebuilt from the saved parts or remade from the class
      and edges by `remade` (`make_with_battaglia_scaling`); a new container takes
      the thickness and then the stored matrices. */
  function FromSavedFile(read: Instruments.Reader, saved: Saved, remake: bool,
                         remade: (string, Vector) -> Result<FlareSpectrum.Spectrum>): (r: Result<Container>)
    requires saved.dispersed.Some? ==> VectorStack.WellFormed(saved.dispersed.value)
    requires saved.pure.Some? ==> VectorStack.WellFormed(saved.pure.value)
    ensures saved.goesClass.None? ==> r == Err(KeyError("goes_class"))
    ensures r.Ok? ==> Valid(r.value) && r.value.alThick == saved.alThick
    ensures r.Ok? ==> r.value.matrices == ContainerFiles.Matrices(saved.dispersed, saved.pure)
    ensures saved.goesClass.Some? && !remake ==>
      r.Ok? ==> r.value.flare == Some(FlareSpectrum.Spectrum(saved.goesClass.value, saved.thermal,
                                                             saved.nonthermal, saved.energyEdges))
  {
    match saved.goesClass
    case None => Err(KeyError("goes_class"))
    case Some(gc) =>
      var fs := if remake then remade(gc, saved.energyEdges)
                else Ok(FlareSpectrum.Spectrum(gc, saved.thermal, saved.nonthermal, saved.energyEdges));
      match fs
      case Err(e) => Err(e)
      case Ok(spec) =>
        match New(read, saved.alThick, Some(spec))
        case Err(e) => Err(e)
        case Ok(c) => Ok(c.(matrices := ContainerFiles.Matrices(saved.dispersed, saved.pure)))
  }

  /** As written, loading fails: with the class present and the spectrum made, the
      new container's stack raises AttributeError at its first table. */
  lemma FromSavedFileAsWrittenRaises(saved: Saved, remake: bool, remade: (string, Vector) -> Result<FlareSpectrum.Spectrum>)
    requires saved.dispersed.Some? ==> VectorStack.WellFormed(saved.dispersed.value)
    requires saved.pure.Some? ==> VectorStack.WellFormed(saved.pure.value)
    ensures FromSavedFile(Instruments.FromNistFile, saved, remake, remade) ==
      if saved.goesClass.None? then Err(KeyError("goes_class"))
      else if remake && remade(saved.goesClass.value, saved.energyEdges).Err?
      then Err(remade(saved.goesClass.value, saved.energyEdges).error)
      else Err(Instruments.NoNistReader)
  {
    if saved.goesClass.Some? {
      var gc := saved.goesClass.value;
      var spec := if remake then remade(gc, saved.energyEdges)
                  else Ok(FlareSpectrum.Spectrum(gc, saved.thermal, saved.nonthermal, saved.energyEdges));
      if spec.Ok? {
        NewAsWrittenRaises(saved.alThick, Some(spec.value));
      }
    }
  }

  /** With a reader that works and without remaking, loading gives the container on
      the loaded tables with the saved thickness, spectrum and matrices. */
  lemma FromSavedFileReads(read: Instruments.Reader, load: Instruments.Loader, saved: Saved,
                           remade: (string, Vector) -> Result<FlareSpectrum.Spectrum>)
    requires Instruments.Reads(read, load)
    requires saved.dispersed.Some? ==> VectorStack.WellFormed(saved.dispersed.value)
    requires saved.pure.Some? ==> VectorStack.WellFormed(saved.pure.value)
    requires saved.goesClass.Some?
    ensures FromSavedFile(read, saved, false, remade) ==
      Ok(NewLoaded(load, saved.alThick, Some(FlareSpectrum.Spectrum(saved.goesClass.value, saved.thermal,
                                                                     saved.nonthermal, saved.energyEdges)))
         .(matrices := ContainerFiles.Matrices(saved.dispersed, saved.pure)))
  {
    var spec := FlareSpectrum.Spectrum(saved.goesClass.value, saved.thermal, saved.nonthermal, saved.energyEdges);
    NewReadsAsLoaded(read, load, saved.alThick, Some(spec));
  }

  /** Saving and loading back without remaking restores the container, when its
      stack is the fresh one with its thickness and the reader works. */
  lemma SaveLoadRoundTrip(read: Instruments.Reader, load: Instruments.Loader, c: Container, prefix: Option<string>,
                          format: real -> string, remade: (string, Vector) -> Result<FlareSpectrum.Spectrum>)
    requires Instruments.Reads(read, load)
    requires WellFormedMatrices(c.matrices) && c.alThick.Some? && c.flare.Some?
    requires c.stack == NewLoaded(load, c.alThick, c.flare).stack
    ensures SaveToFile(c, prefix, format).Ok?
    ensures FromSavedFile(read, SaveToFile(c, prefix, format).value.0, false, remade) == Ok(c)
  {
    ContainerFiles.SaveGuardNeverFires(c.matrices);
    var s := c.flare.value;
    assert FlareSpectrum.Spectrum(s.goesClass, s.thermal, s.nonthermal, s.energyEdges) == s;
    FromSavedFileReads(read, load, SaveToFile(c, prefix, format).value.0, remade);
  }

  /** As written the round trip cannot close: the file is written, but loading it
      back raises AttributeError. */
  lemma SaveLoadAsWritten(c: Container, prefix: Option<string>, format: real -> string,
                          remade: (string, Vector) -> Result<FlareSpectrum.Spectrum>)
    requires WellFormedMatrices(c.matrices) && c.alThick.Some? && c.flare.Some?
    ensures SaveToFile(c, prefix, format).Ok?
    ensures FromSavedFile(Instruments.FromNistFile, SaveToFile(c, prefix, format).value.0, false, remade)
      == Err(Instruments.NoNistReader)
  {
    ContainerFiles.SaveGuardNeverFires(c.matrices);
    FromSavedFileAsWrittenRaises(SaveToFile(c, prefix, format).value.0, false, remade);
  }
}
