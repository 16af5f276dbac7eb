/** The attenuator-thickness calibrators: starting from a thickness sure to
    attenuate the flare, walk the aluminium thickness up and down, reversing and
    shrinking the step each time the count rate crosses the target, until the rate
    is just below the target or the step has been divided often enough.

    Three scripts do this:
    - `cebr3-scripts/find_attenuator_thicknesses.py` halves the step, accepts within
      1 % and allows 32 divisions;
    - `find_attenuator_thicknesses.py` halves the step, accepts within 5 % and allows
      16 divisions;
    - `single_detector_sim.py` divides the step by ten, accepts within 5 % and allows
      8 divisions.
    The count rate at a thickness (simulating the detector) is the parameter
    `counts`.  The loop need not end, so the search carries fuel. */
module Calibrator {
  import opened Outcomes
  import opened Linear
  import opened RealMath
  import VectorStack
  import DiagonalMaterial
  import MatrixStack
  import Instruments
  import Masking

  // ---------------------------------------------------------------- the variants

  datatype Variant = Cebr3Halving | Halving | Tenfold

  /** What the step is divided by at an edge: `step /= -2` or `step /= -10`. */
  function Divisor(v: Variant): real {
    if v.Tenfold? then -10.0 else -2.0
  }

  /** `TOL`. */
  function Tolerance(v: Variant): real {
    if v.Cebr3Halving? then 0.01 else 0.05
  }

  /** `MAX_DIVS` or `TARGET_DIVS`. */
  function MaxDivs(v: Variant): nat {
    match v
    case Cebr3Halving => 32
    case Halving => 16
    case Tenfold => 8
  }

  /** The first step is minus the starting thickness over this. */
  function StartDivisor(v: Variant): real {
    if v.Tenfold? then 10.0 else 2.0
  }

  /** The loop runs while the thickness is above this: -1e-6 cm, or 0 for the
      single-detector search. */
  function Floor(v: Variant): real {
    if v.Tenfold? then 0.0 else -0.000001
  }

  /** `count_edge`'s message on a zero step. */
  function ZeroStep(v: Variant): Error {
    if v.Tenfold? then ValueError("dt indistinguishable from zero")
    else ValueError("step is indistinguishible from zero")
  }

  // ---------------------------------------------------------------- one step

  /** `count_edge(cts, target, step)`: time to turn round, which for a thinning
      (negative) step is a rate above target and for a thickening step a rate below
      it. */
  function CountEdge(v: Variant, counts: real, target: real, step: real): (r: Result<bool>)
    ensures r.Err? <==> step == 0.0
    ensures r.Err? ==> r.error == ZeroStep(v)
    ensures r.Ok? ==> (r.value <==> (step > 0.0 && counts < target) || (step < 0.0 && counts > target))
  {
    if step > 0.0 then Ok(counts < target)
    else if step < 0.0 then Ok(counts > target)
    else Err(ZeroStep(v))
  }

  /** `delta = 1 - counts/target; abs(delta) < TOL and delta > 0`.  NumPy divides by
      a zero target without raising, giving an infinity or NaN, which fails both
      tests. */
  predicate Accepted(counts: real, target: real, tolerance: real) {
    target != 0.0 && 0.0 < 1.0 - counts / target < tolerance
  }

  /** An accepted rate is strictly below a positive target and within the tolerance
      of it. */
  lemma AcceptedIsJustBelow(counts: real, target: real, tolerance: real)
    requires 0.0 < target
    ensures Accepted(counts, target, tolerance) <==>
      counts < target && target - counts < tolerance * target
  {
    var d := 1.0 - counts / target;
    assert d * target == target - counts;
    TimesPositive(0.0, d, target);
    TimesPositive(d, tolerance, target);
  }

  /** Multiplying by a positive number keeps the order. */
  lemma TimesPositive(a: real, b: real, t: real)
    requires 0.0 < t
    ensures a < b <==> a * t < b * t
  {
    assert b * t - a * t == (b - a) * t;
  }

  /** The search state: the current thickness, the signed step, and how often the
      step was divided. */
  datatype State = State(thickness: real, step: real, divs: nat)

  /** Before the loop: minus half (a tenth of) the starting thickness, no divisions. */
  function Start(v: Variant, thickness: real): (s: State)
    ensures s.thickness == thickness && s.divs == 0
    ensures s.step * StartDivisor(v) == -thickness
  {
    State(thickness, -thickness / StartDivisor(v), 0)
  }

  /** `while divs < MAX_DIVS and thickness > floor`. */
  predicate Running(v: Variant, s: State) {
    s.divs < MaxDivs(v) && s.thickness > Floor(v)
  }

  /** The body of the loop after the rate `counts` at the current thickness is known:
      at an edge the step turns round and shrinks and one more division is counted;
      then the step is taken. */
  function Advance(v: Variant, counts: real, target: real, s: State): (r: Result<State>)
    ensures r.Err? <==> s.step == 0.0
    ensures r.Ok? && CountEdge(v, counts, target, s.step).value ==>
      r.value.step * Divisor(v) == s.step && r.value.divs == s.divs + 1
    ensures r.Ok? && !CountEdge(v, counts, target, s.step).value ==>
      r.value.step == s.step && r.value.divs == s.divs
    ensures r.Ok? ==> r.value.thickness - r.value.step == s.thickness
  {
    match CountEdge(v, counts, target, s.step)
    case Err(e) => Err(e)
    case Ok(edge) =>
      var step := if edge then s.step / Divisor(v) else s.step;
      Ok(State(s.thickness + step, step, if edge then s.divs + 1 else s.divs))
  }

  // ---------------------------------------------------------------- the loop

  /** How a search ends: the loop condition failed or the rate was accepted, with the
      last thickness evaluated and its rate; or the fuel ran out first. */
  datatype Run =
    | Stopped(state: State, last: Option<(real, real)>, accepted: bool)
    | Unfinished(state: State)

  /** The loop from state `s`, `last` being the previous evaluation if any. */
  function Search(v: Variant, counts: real -> Result<real>, target: real, s: State,
                  last: Option<(real, real)>, fuel: nat): (r: Result<Run>)
    requires last.Some? ==> s.thickness - s.step == last.value.0 && last.value.0 > Floor(v)
    ensures r.Ok? && r.value.Stopped? && r.value.last.Some? ==> r.value.last.value.0 > Floor(v)
    ensures r.Ok? ==> r.value.state.divs <= if s.divs <= MaxDivs(v) then MaxDivs(v) else s.divs
    ensures r.Ok? && r.value.Stopped? ==> r.value.accepted || !Running(v, r.value.state)
    ensures r.Ok? && r.value.Stopped? && r.value.last.Some? ==>
      r.value.state.thickness - r.value.state.step == r.value.last.value.0
    ensures r.Ok? && r.value.Stopped? && r.value.accepted ==>
      r.value.last.Some? && Accepted(r.value.last.value.1, target, Tolerance(v)) &&
      counts(r.value.last.value.0) == Ok(r.value.last.value.1)
    ensures r.Ok? && r.value.Stopped? && r.value.last != last ==>
      r.value.last.Some? && counts(r.value.last.value.0) == Ok(r.value.last.value.1)
    decreases fuel
  {
    if !Running(v, s) then Ok(Stopped(s, last, false))
    else if fuel == 0 then Ok(Unfinished(s))
    else
      match counts(s.thickness)
      case Err(e) => Err(e)
      case Ok(c) =>
        match Advance(v, c, target, s)
        case Err(e) => Err(e)
        case Ok(next) =>
          if Accepted(c, target, Tolerance(v)) then Ok(Stopped(next, Some((s.thickness, c)), true))
          else Search(v, counts, target, next, Some((s.thickness, c)), fuel - 1)
  }

  /** `x` times `b` to the power `n`. */
  function Scaled(x: real, b: real, n: nat): real {
    if n == 0 then x else b * Scaled(x, b, n - 1)
  }

  /** `final` is reached from `start` by dividing the step by `d` once per
      division counted in between. */
  predicate Shrunk(final: State, start: State, d: real) {
    final.divs >= start.divs && Scaled(final.step, d, final.divs - start.divs) == start.step
  }

  /** Every division turns the step round and shrinks it by the divisor, and
      nothing else changes it: the final step times the divisor to the power of the
      divisions made is the step the search started with. */
  lemma {:induction false} StepShrinks(v: Variant, counts: real -> Result<real>, target: real, s: State,
                                       last: Option<(real, real)>, fuel: nat)
    requires last.Some? ==> s.thickness - s.step == last.value.0 && last.value.0 > Floor(v)
    requires Search(v, counts, target, s, last, fuel).Ok?
    ensures Shrunk(Search(v, counts, target, s, last, fuel).value.state, s, Divisor(v))
    decreases fuel
  {
    if Running(v, s) && fuel > 0 {
      var c := counts(s.thickness).value;
      var next := Advance(v, c, target, s).value;
      AdvanceShrinks(v, c, target, s);
      if Accepted(c, target, Tolerance(v)) {
        assert Search(v, counts, target, s, last, fuel).value.state == next;
      } else {
        SearchStep(v, counts, target, s, last, fuel);
        StepShrinks(v, counts, target, next, Some((s.thickness, c)), fuel - 1);
        var f := Search(v, counts, target, next, Some((s.thickness, c)), fuel - 1).value.state;
        ShrunkTransitive(f, next, s, Divisor(v));
      }
    } else {
      assert Search(v, counts, target, s, last, fuel).value.state == s;
    }
  }

  /** Two stretches of shrinking make one. */
  lemma ShrunkTransitive(f: State, n: State, s: State, d: real)
    requires Shrunk(f, n, d) && Shrunk(n, s, d)
    ensures Shrunk(f, s, d)
  {
    PowerAdd(f.step, d, f.divs - n.divs, n.divs - s.divs, f.divs - s.divs);
  }

  /** One step divides the step at most once. */
  lemma AdvanceShrinks(v: Variant, c: real, target: real, s: State)
    requires Advance(v, c, target, s).Ok?
    ensures Shrunk(Advance(v, c, target, s).value, s, Divisor(v))
  {
    var next := Advance(v, c, target, s).value;
    if CountEdge(v, c, target, s.step).value {
      assert Scaled(next.step, Divisor(v), 1) == Divisor(v) * next.step;
    }
  }

  /** Powers add: scaling `m` times and then `n` times is scaling `k = m + n` times. */
  lemma {:induction false} PowerAdd(x: real, b: real, m: nat, n: nat, k: nat)
    requires k == m + n
    ensures Scaled(x, b, k) == Scaled(Scaled(x, b, m), b, n)
    decreases n
  {
    if n > 0 {
      PowerAdd(x, b, m, n - 1, k - 1);
    }
  }

  /** One unaccepted evaluation hands over to the search from the next state. */
  lemma SearchStep(v: Variant, counts: real -> Result<real>, target: real, s: State,
                   last: Option<(real, real)>, fuel: nat)
    requires last.Some? ==> s.thickness - s.step == last.value.0 && last.value.0 > Floor(v)
    requires Search(v, counts, target, s, last, fuel).Ok? && Running(v, s) && fuel > 0
    requires counts(s.thickness).Ok? ==> !Accepted(counts(s.thickness).value, target, Tolerance(v))
    ensures counts(s.thickness).Ok? && Advance(v, counts(s.thickness).value, target, s).Ok?
    ensures var c := counts(s.thickness).value;
      Search(v, counts, target, s, last, fuel) ==
      Search(v, counts, target, Advance(v, c, target, s).value, Some((s.thickness, c)), fuel - 1)
  {
  }

  /** After the loop: go back one step.  The halving searches then cut anything
      below 1e-6 cm to 0; the single-detector search turns a negative thickness
      into 0 by first setting it to the step. */
  function Report(v: Variant, s: State): (t: real)
    ensures !v.Tenfold? ==> t == 0.0 || t >= 0.000001
    ensures !v.Tenfold? && s.thickness - s.step >= 0.000001 ==> t == s.thickness - s.step
    ensures v.Tenfold? && s.thickness < 0.0 ==> t == 0.0
    ensures v.Tenfold? && s.thickness >= 0.0 ==> t == s.thickness - s.step
  {
    if v.Tenfold? then
      var current := if s.thickness < 0.0 then s.step else s.thickness;
      current - s.step
    else
      var clean := s.thickness - s.step;
      if clean < 0.000001 then 0.0 else clean
  }

  /** The outcome of a calibration: the thickness written back, the divisions used,
      and whether the rate was accepted. */
  datatype Calibration =
    | Calibrated(thickness: real, divisions: nat, accepted: bool)
    | OutOfFuel

  /** `appr_count_step` / `find_appropriate_counts` from the starting thickness.  The
      single-detector search saves the arrays of its last evaluation, which do not
      exist when the loop never ran. */
  function Calibrate(v: Variant, counts: real -> Result<real>, target: real, start: real, fuel: nat): (r: Result<Calibration>)
    ensures r.Ok? && r.value.Calibrated? ==> r.value.divisions <= MaxDivs(v)
    ensures r.Ok? && r.value.Calibrated? && !v.Tenfold? ==> r.value.thickness == 0.0 || r.value.thickness >= 0.000001
    ensures r.Ok? && r.value.Calibrated? ==> r.value.thickness >= 0.0
  {
    match Search(v, counts, target, Start(v, start), None, fuel)
    case Err(e) => Err(e)
    case Ok(Unfinished(_)) => Ok(OutOfFuel)
    case Ok(Stopped(s, last, accepted)) =>
      if v.Tenfold? && last.None? then Err(NameError("unsmeared"))
      else
        assert v.Tenfold? && s.thickness >= 0.0 ==> Report(v, s) == last.value.0;
        Ok(Calibrated(Report(v, s), s.divs, accepted))
  }

  /** The thickness reported is the last one the loop evaluated, cut to 0 below
      1e-6 cm by the halving searches and replaced by 0 when the single-detector
      search went below zero; an accepted thickness had its rate within tolerance
      below target. */
  lemma CalibrateReportsLastEvaluated(v: Variant, counts: real -> Result<real>, target: real, start: real, fuel: nat)
    requires Calibrate(v, counts, target, start, fuel).Ok? && Calibrate(v, counts, target, start, fuel).value.Calibrated?
    ensures var r := Calibrate(v, counts, target, start, fuel).value;
      var run := Search(v, counts, target, Start(v, start), None, fuel).value;
      && run.Stopped?
      && (run.last.Some? ==> counts(run.last.value.0) == Ok(run.last.value.1))
      && (run.last.Some? && !v.Tenfold? ==>
            r.thickness == (if run.last.value.0 < 0.000001 then 0.0 else run.last.value.0))
      && (run.last.None? ==> !v.Tenfold? && r.thickness == (if start - Start(v, start).step < 0.000001 then 0.0 else start - Start(v, start).step))
      && (v.Tenfold? ==> run.last.Some? && r.thickness == (if run.state.thickness < 0.0 then 0.0 else run.last.value.0))
      && (r.accepted ==> run.last.Some? && Accepted(run.last.value.1, target, Tolerance(v)))
  {
  }

  /** A halving search from zero thickness enters the loop with a zero step, so
      `count_edge` raises once the rate is known. */
  lemma HalvingFromZeroFails(v: Variant, counts: real -> Result<real>, target: real, fuel: nat)
    requires !v.Tenfold? && fuel > 0 && counts(0.0).Ok?
    ensures Calibrate(v, counts, target, 0.0, fuel) == Err(ZeroStep(v))
  {
  }

  /** The single-detector search from a thickness that is not positive never
      evaluates the detector, and fails saving the arrays it never made. */
  lemma TenfoldFromNothingFails(counts: real -> Result<real>, target: real, start: real, fuel: nat)
    requires start <= 0.0
    ensures Calibrate(Tenfold, counts, target, start, fuel) == Err(NameError("unsmeared"))
  {
  }

  /** A search whose rate is always within tolerance below target stops after its
      first evaluation, with the step taken and then undone. */
  lemma FirstAcceptedStops(v: Variant, counts: real -> Result<real>, target: real, start: real, fuel: nat)
    requires fuel > 0 && Running(v, Start(v, start)) && start != 0.0
    requires counts(start).Ok? && Accepted(counts(start).value, target, Tolerance(v))
    ensures Search(v, counts, target, Start(v, start), None, fuel).Ok?
    ensures var run := Search(v, counts, target, Start(v, start), None, fuel).value;
      run.Stopped? && run.accepted && run.last == Some((start, counts(start).value))
  {
    var s := Start(v, start);
    assert s.step != 0.0;
  }

  // ---------------------------------------------------------------- the rates

  /** `calc_target_cps(dead_time)` and the scripts' target: `-ln(0.95) / dead_time`,
      the rate below which pile-up is absent with 95 % confidence. */
  function TargetRate(m: Transcendentals, deadTime: real): real
    requires deadTime != 0.0
  {
    -1.0 * m.ln(0.95) / deadTime
  }

  /** The target rate is positive for a positive dead time, and falls as the dead
      time grows. */
  lemma TargetRatePositive(m: Transcendentals, deadTime: real, longer: real)
    requires ExpLaws(m) && LogLaws(m)
    requires 0.0 < deadTime <= longer
    ensures 0.0 < TargetRate(m, longer) <= TargetRate(m, deadTime)
  {
    var l := m.ln(0.95);
    assert m.exp(l) == 0.95 < 1.0 == m.exp(0.0);
    assert l < 0.0;
    var a := -1.0 * l;
    QuotientFalls(a, deadTime, longer);
  }

  /** A positive amount shared more ways gives each less. */
  lemma QuotientFalls(a: real, d: real, l: real)
    requires 0.0 < a && 0.0 < d <= l
    ensures 0.0 < a / l <= a / d
  {
    var x, y := a / l, a / d;
    assert x * l == a && y * d == a;
    TimesPositive(x, 0.0, l);
    assert 0.0 < x;
    TimesPositive(y, x, d);
    TimesPositive(d, l, x);
  }

  /** `np.sum(np.diff(edges) * (res @ flare * SINGLE_DET_AREA))`: the rate as the
      bin-width-weighted sum of the dispersed response applied to the flare. */
  function BinnedCounts(res: Matrix, flare: Vector, edges: Vector): (r: Result<real>)
    requires Rectangular(res)
    ensures Width(res) == |flare| && |Diff(edges)| == |res| ==>
      r == Ok(Instruments.SingleDetArea * Dot(Diff(edges), MatVec(res, flare)))
    ensures Width(res) != |flare| ==> r == Err(VectorStack.CoreMismatch)
  {
    match VectorStack.MatMulArrays(VectorStack.Mat(res), VectorStack.Vec(flare))
    case Err(e) => Err(e)
    case Ok(spectrum) =>
      assert spectrum == VectorStack.Vec(MatVec(res, flare)) by { Masking.MatrixTimesVector(res, flare); }
      var perKev := Scale(Instruments.SingleDetArea, spectrum.entries);
      match VectorStack.BroadcastTimes(Diff(edges), VectorStack.Vec(perKev))
      case Err(e) => Err(e)
      case Ok(weighted) =>
        Masking.WeightedSum(Instruments.SingleDetArea, Diff(edges), spectrum.entries, weighted);
        Ok(Masking.Total(weighted))
  }

  /** `E_MIN, E_MAX = 8, 100` keV of the single-detector search, where the
      search over the whole range keeps `eng > -1`. */
  const SingleDetectorWindow: Masking.Window := Masking.Open(8.0, 100.0)
  const WholeRange: Masking.Window := Masking.Above(-1.0)

  /** `np.trapz(x=eng[restrict], y=counts_per_kev[restrict])` with `eng > -1`: on
      energies that are not negative the whole dispersed spectrum is integrated. */
  lemma WholeRangeRate(res: Matrix, flare: Vector, energies: Vector)
    requires Rectangular(res) && Width(res) == |flare| && |res| == |energies|
    requires forall i :: 0 <= i < |energies| ==> energies[i] >= 0.0
    ensures Masking.TrapzCounts(WholeRange, Instruments.SingleDetArea, res, flare, energies)
      == Ok(Masking.Trapz(Scale(Instruments.SingleDetArea, MatVec(res, flare)), energies))
  {
    Masking.AboveMinusOneKeepsAll(energies, energies);
    Masking.AboveMinusOneKeepsAll(energies, Scale(Instruments.SingleDetArea, MatVec(res, flare)));
  }

  /** The single-detector rate integrates over exactly the energies strictly between
      8 and 100 keV. */
  lemma SingleDetectorRateWindow(res: Matrix, flare: Vector, energies: Vector)
    requires Rectangular(res) && Width(res) == |flare| && |res| == |energies|
    ensures var mask := Masking.Mask(SingleDetectorWindow, energies);
      && Masking.TrapzCounts(SingleDetectorWindow, Instruments.FullArea / 4.0, res, flare, energies)
         == Ok(Masking.Trapz(Masking.Pick(Scale(Instruments.FullArea / 4.0, MatVec(res, flare)), mask), Masking.Pick(energies, mask)))
      && forall e :: e in Masking.Pick(energies, mask) <==> e in energies && 8.0 < e < 100.0
  {
    Masking.PickKeepsWindow(SingleDetectorWindow, energies);
  }

  // ---------------------------------------------------------------- one evaluation

  /** What `relevant_to_sims` hands back: the stack with its new thickness, the
      undispersed response, the effective area and the dispersed response. */
  datatype Evaluation = Evaluation(stack: MatrixStack.Stack, unsmeared: Matrix, effectiveArea: Vector, smeared: Matrix)

  /** `relevant_to_sims(ds, dim, fspec, t)`: set the outermost material's thickness,
      respond without dispersion, weigh by `FULL_AREA / 4` at every energy, and
      disperse.  The save file name is left out. */
  function RelevantToSims(m: Transcendentals, stack: MatrixStack.Stack, dim: nat, ks: seq<int>,
                          spread: Result<Matrix>, t: real): (r: Result<Evaluation>)
    requires spread.Ok? ==> Rectangular(spread.value)
    ensures stack.layers == [] ==> r == Err(IndexError)
    ensures r.Ok? ==>
      && |r.value.stack.layers| == |stack.layers|
      && r.value.stack.layers[0].material.thickness == t
      && r.value.stack.layers[0].material.diameter == stack.layers[0].material.diameter
      && r.value.stack.layers[0].material.massDensity == stack.layers[0].material.massDensity
      && r.value.stack.layers[0].interpolated == stack.layers[0].interpolated
      && r.value.stack.layers[1..] == stack.layers[1..]
    ensures r.Ok? ==> MatrixStack.DetectorResponse(m, r.value.stack, dim, ks, spread, false) == Ok(r.value.unsmeared)
    ensures r.Ok? ==> |r.value.effectiveArea| == |r.value.unsmeared|
    ensures r.Ok? ==> forall i :: 0 <= i < |r.value.unsmeared| ==>
      r.value.effectiveArea[i] == Instruments.FullArea / 4.0 * Sum(r.value.unsmeared[i])
    ensures r.Ok? ==> MatrixStack.Dispatch(spread, r.value.unsmeared, true) == Ok(r.value.smeared)
  {
    if stack.layers == [] then Err(IndexError)
    else
      var first := stack.layers[0];
      var thinner := first.(material := first.material.(thickness := t));
      var s := stack.(layers := [thinner] + stack.layers[1..]);
      assert s.layers[1..] == stack.layers[1..];
      assert s.layers[0] == thinner && |s.layers| == |stack.layers|;
      match MatrixStack.DetectorResponse(m, s, dim, ks, spread, false)
      case Err(e) => Err(e)
      case Ok(unsmeared) =>
        var area := Constant(dim, Instruments.FullArea / 4.0);
        if |unsmeared| > 0 && Width(unsmeared) != dim then Err(VectorStack.CoreMismatch)
        else
          var effective := MatVec(unsmeared, area);
          match MatrixStack.Dispatch(spread, unsmeared, true)
          case Err(e) => Err(e)
          case Ok(smeared) =>
            assert forall i :: 0 <= i < |unsmeared| ==> effective[i] == Instruments.FullArea / 4.0 * Sum(unsmeared[i]) by {
              forall i | 0 <= i < |unsmeared| ensures effective[i] == Instruments.FullArea / 4.0 * Sum(unsmeared[i]) {
                Masking.DotOfConstant(Instruments.FullArea / 4.0, unsmeared[i]);
              }
            }
            Ok(Evaluation(s, unsmeared, effective, smeared))
  }
}
