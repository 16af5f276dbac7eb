/** Tabulated mass attenuation coefficients per element and mechanism, the log-log
    linear interpolators built from them, and the sum-over-elements interpolation
    (adetsim's `AttenuationType` and `AttenuationData`). */
module Attenuation {
  import opened Outcomes
  import opened Linear
  import opened RealMath
  import Text

  // ---------------------------------------------------------------- mechanism codes

  const Photoelectric: int := 1
  const Rayleigh: int := 2
  const Compton: int := 3

  /** `AttenuationType.ALL`. */
  const All: seq<int> := [Photoelectric, Rayleigh, Compton]

  /** `AttenuationType.named()`: each code paired with its name, in the order of `All`. */
  function Named(): map<int, string> {
    map[All[0] := "photoelectric", All[1] := "rayleigh", All[2] := "compton"]
  }

  /** Exactly the codes of `All` are named, each with a different name. */
  lemma NamedCoversAll()
    ensures forall k :: k in Named() <==> k in All
    ensures Named()[Photoelectric] == "photoelectric"
    ensures Named()[Rayleigh] == "rayleigh"
    ensures Named()[Compton] == "compton"
    ensures forall a, b :: a in Named() && b in Named() && a != b ==> Named()[a] != Named()[b]
  {
  }

  // ---------------------------------------------------------------- interp1d

  predicate StrictlyIncreasing(xs: Vector) {
    forall i, j :: 0 <= i < j < |xs| ==> xs[i] < xs[j]
  }

  /** `scipy.interpolate.interp1d(x=xs, y=ys, fill_value="extrapolate")` (kind 'linear'). */
  datatype Interp1d = Interp1d(xs: Vector, ys: Vector)

  /** The interpolators the model evaluates: at least two points on a strictly
      increasing grid. */
  predicate Usable(f: Interp1d) {
    |f.xs| == |f.ys| && |f.xs| >= 2 && StrictlyIncreasing(f.xs)
  }

  /** `np.searchsorted(xs, x)` (side 'left') on a sorted grid: the first index whose
      value is at least `x`. */
  function SearchSortedLeft(xs: Vector, x: real): (i: nat)
    ensures i <= |xs|
    ensures forall j :: 0 <= j < i ==> xs[j] < x
    ensures i < |xs| ==> x <= xs[i]
  {
    if |xs| == 0 || x <= xs[0] then 0 else 1 + SearchSortedLeft(xs[1..], x)
  }

  /** The straight line through points `k` and `k + 1`, evaluated at `x`. */
  function Segment(f: Interp1d, k: nat, x: real): real
    requires Usable(f) && k + 1 < |f.xs|
  {
    f.ys[k] + (f.ys[k + 1] - f.ys[k]) / (f.xs[k + 1] - f.xs[k]) * (x - f.xs[k])
  }

  /** Evaluation of a linear `interp1d` with extrapolation: the segment is chosen by
      `searchsorted` clipped to `[1, n - 1]`.  Defined as 0 on an interpolator that is
      not `Usable`.  SciPy differs there: it refuses fewer than two points or grids of
      unequal length (ValueError), sorts a grid of distinct points that is out of order
      before interpolating, and gives inf or NaN on repeated points. */
  function Evaluate(f: Interp1d, x: real): real {
    if !Usable(f) then 0.0
    else
      var i := SearchSortedLeft(f.xs, x);
      var hi := if i < 1 then 1 else if i > |f.xs| - 1 then |f.xs| - 1 else i;
      Segment(f, hi - 1, x)
  }

  /** Between two grid points the interpolant is the line through them. */
  lemma EvaluateInSegment(f: Interp1d, k: nat, x: real)
    requires Usable(f) && k + 1 < |f.xs|
    requires f.xs[k] < x <= f.xs[k + 1]
    ensures Evaluate(f, x) == Segment(f, k, x)
  {
    var i := SearchSortedLeft(f.xs, x);
    assert i == k + 1;
  }

  /** Below the grid the first segment is extended. */
  lemma EvaluateBelow(f: Interp1d, x: real)
    requires Usable(f) && x <= f.xs[0]
    ensures Evaluate(f, x) == Segment(f, 0, x)
  {
  }

  /** Above the grid the last segment is extended. */
  lemma EvaluateAbove(f: Interp1d, x: real)
    requires Usable(f) && f.xs[|f.xs| - 1] < x
    ensures Evaluate(f, x) == Segment(f, |f.xs| - 2, x)
  {
    var i := SearchSortedLeft(f.xs, x);
    assert i == |f.xs|;
  }

  /** The interpolant passes through every tabulated point. */
  lemma EvaluateAtGridPoint(f: Interp1d, k: nat)
    requires Usable(f) && k < |f.xs|
    ensures Evaluate(f, f.xs[k]) == f.ys[k]
  {
    if k == 0 {
      EvaluateBelow(f, f.xs[0]);
    } else {
      EvaluateInSegment(f, k - 1, f.xs[k]);
      LineReachesEnd(f.ys[k - 1], f.ys[k], f.xs[k - 1], f.xs[k]);
    }
  }

  /** The line from `(x0, y0)` with slope `(y1 - y0) / (x1 - x0)` reaches `y1` at `x1`. */
  lemma LineReachesEnd(y0: real, y1: real, x0: real, x1: real)
    requires x0 < x1
    ensures y0 + (y1 - y0) / (x1 - x0) * (x1 - x0) == y1
  {
    var d := x1 - x0;
    assert (y1 - y0) / d * d == y1 - y0;
  }

  // ---------------------------------------------------------------- tables and setup

  /** One element's table: energies and the three coefficient columns. */
  datatype Table = Table(energy: Vector, photoelectric: Vector, rayleigh: Vector, compton: Vector)

  function Coefficients(t: Table, code: int): Vector
    requires code in All
  {
    if code == Photoelectric then t.photoelectric
    else if code == Rayleigh then t.rayleigh
    else t.compton
  }

  /** The fields `__init__` reads from one element's dictionary, in its order; a
      missing key raises KeyError. */
  function ReadTable(data: map<string, Vector>): (r: Result<Table>)
    ensures r.Ok? <==> "energy" in data && "photoelectric" in data && "rayleigh" in data && "compton" in data
    ensures r.Ok? ==> r.value == Table(data["energy"], data["photoelectric"], data["rayleigh"], data["compton"])
    ensures r.Err? ==> r.error.KeyError?
  {
    if "energy" !in data then Err(KeyError("energy"))
    else if "photoelectric" !in data then Err(KeyError("photoelectric"))
    else if "rayleigh" !in data then Err(KeyError("rayleigh"))
    else if "compton" !in data then Err(KeyError("compton"))
    else Ok(Table(data["energy"], data["photoelectric"], data["rayleigh"], data["compton"]))
  }

  /** Read every element in dictionary order, stopping at the first failure. */
  function ReadTables(coefficients: seq<(string, map<string, Vector>)>): (r: Result<seq<Table>>)
    ensures r.Ok? ==> |r.value| == |coefficients|
    ensures r.Ok? ==> forall e :: 0 <= e < |coefficients| ==> ReadTable(coefficients[e].1) == Ok(r.value[e])
    ensures r.Err? ==> exists e :: 0 <= e < |coefficients| && ReadTable(coefficients[e].1).Err?
  {
    if |coefficients| == 0 then Ok([])
    else
      match ReadTable(coefficients[0].1)
      case Err(error) => Err(error)
      case Ok(t) =>
        match ReadTables(coefficients[1..])
        case Err(error) =>
          var e :| 0 <= e < |coefficients[1..]| && ReadTable(coefficients[1..][e].1).Err?;
          assert coefficients[1..][e] == coefficients[e + 1];
          Err(error)
        case Ok(ts) =>
          assert forall e :: 0 < e < |coefficients| ==> coefficients[e] == coefficients[1..][e - 1];
          Ok([t] + ts)
  }

  /** The construction errors of a linear `interp1d`. */
  function InterpError(xs: Vector, ys: Vector): (e: Option<Error>)
    ensures e.None? <==> |xs| == |ys| && |xs| >= 2
  {
    if |xs| != |ys| then Some(ValueError("x and y arrays must be equal in length along interpolation axis."))
    else if |xs| < 2 then Some(ValueError("x and y arrays must have at least 2 entries"))
    else None
  }

  /** Natural logarithm of every entry. */
  function Logs(m: Transcendentals, v: Vector): (w: Vector)
    ensures |w| == |v| && forall i :: 0 <= i < |v| ==> w[i] == m.ln(v[i])
  {
    seq(|v|, i requires 0 <= i < |v| => m.ln(v[i]))
  }

  /** The interpolator `setup_interpolators` builds for one element and mechanism. */
  function LogLogInterpolator(m: Transcendentals, t: Table, code: int): Interp1d
    requires code in All
  {
    Interp1d(Logs(m, t.energy), Logs(m, Coefficients(t, code)))
  }

  /** Whether every coefficient column of one element can be interpolated. */
  predicate TableInterpolable(t: Table) {
    forall code :: code in All ==> InterpError(t.energy, Coefficients(t, code)).None?
  }

  /** Whether every element's three coefficient columns can be interpolated. */
  predicate Interpolable(tables: seq<Table>) {
    forall e :: 0 <= e < |tables| ==> TableInterpolable(tables[e])
  }

  /** The first construction error met by `setup_interpolators`, which visits the
      elements in order and, within one element, the mechanisms in code order. */
  function FirstInterpError(tables: seq<Table>): (e: Option<Error>)
    ensures e.None? <==> Interpolable(tables)
    ensures e.Some? ==> e.value.ValueError?
  {
    if |tables| == 0 then None
    else
      var t := tables[0];
      InterpolableFirst(tables);
      if InterpError(t.energy, t.photoelectric).Some? then InterpError(t.energy, t.photoelectric)
      else if InterpError(t.energy, t.rayleigh).Some? then InterpError(t.energy, t.rayleigh)
      else if InterpError(t.energy, t.compton).Some? then InterpError(t.energy, t.compton)
      else FirstInterpError(tables[1..])
  }

  /** A non-empty list of tables is interpolable when its first table gives every
      mechanism an interpolator and the rest is interpolable. */
  lemma InterpolableFirst(tables: seq<Table>)
    requires |tables| > 0
    ensures Interpolable(tables) <==>
      && InterpError(tables[0].energy, tables[0].photoelectric).None?
      && InterpError(tables[0].energy, tables[0].rayleigh).None?
      && InterpError(tables[0].energy, tables[0].compton).None?
      && Interpolable(tables[1..])
  {
    TableInterpolableFields(tables[0]);
    assert forall e :: 0 < e < |tables| ==> tables[e] == tables[1..][e - 1];
  }

  /** One element is interpolable when each of its three columns is. */
  lemma TableInterpolableFields(t: Table)
    ensures TableInterpolable(t) <==>
      && InterpError(t.energy, t.photoelectric).None?
      && InterpError(t.energy, t.rayleigh).None?
      && InterpError(t.energy, t.compton).None?
  {
    assert Coefficients(t, Photoelectric) == t.photoelectric;
    assert Coefficients(t, Rayleigh) == t.rayleigh;
    assert Coefficients(t, Compton) == t.compton;
    assert Photoelectric in All && Rayleigh in All && Compton in All;
    forall code | code in All {
      InAll(code);
    }
  }

  /** The codes of `All` are the three mechanisms. */
  lemma InAll(code: int)
    requires code in All
    ensures code == Photoelectric || code == Rayleigh || code == Compton
  {
  }

  /** The loaded attenuation data of one material. */
  datatype AttenuationData = AttenuationData(
    names: seq<string>,
    tables: seq<Table>,
    interpolators: map<int, seq<Interp1d>>)

  /** `setup_interpolators`: per mechanism, one interpolator per element in element order. */
  function SetupInterpolators(m: Transcendentals, tables: seq<Table>): map<int, seq<Interp1d>> {
    map code | code in All :: seq(|tables|, e requires 0 <= e < |tables| => LogLogInterpolator(m, tables[e], code))
  }

  /** `AttenuationData(coefficients)` followed by `setup_interpolators()`. */
  function FromCoefficients(m: Transcendentals, coefficients: seq<(string, map<string, Vector>)>): (r: Result<AttenuationData>)
    ensures r.Ok? ==> |r.value.tables| == |coefficients| && r.value.names == seq(|coefficients|, e requires 0 <= e < |coefficients| => coefficients[e].0)
    ensures r.Ok? ==> forall code :: code in All ==> code in r.value.interpolators && |r.value.interpolators[code]| == |coefficients|
    ensures r.Ok? ==> forall code, e :: code in All && 0 <= e < |coefficients| ==>
      r.value.interpolators[code][e] == LogLogInterpolator(m, r.value.tables[e], code)
    ensures r.Ok? ==> forall e :: 0 <= e < |coefficients| ==> ReadTable(coefficients[e].1) == Ok(r.value.tables[e])
    ensures r.Err? <==> ReadTables(coefficients).Err? || !Interpolable(ReadTables(coefficients).value)
  {
    match ReadTables(coefficients)
    case Err(error) => Err(error)
    case Ok(tables) =>
      match FirstInterpError(tables)
      case Some(error) => Err(error)
      case None =>
        Ok(AttenuationData(
          seq(|coefficients|, e requires 0 <= e < |coefficients| => coefficients[e].0),
          tables,
          SetupInterpolators(m, tables)))
  }

  /** Data whose interpolators can all be evaluated. */
  predicate Evaluable(data: AttenuationData) {
    forall code :: code in data.interpolators ==>
      forall e :: 0 <= e < |data.interpolators[code]| ==> Usable(data.interpolators[code][e])
  }

  // ---------------------------------------------------------------- log_interpolate

  /** A natural logarithm that may be minus infinity (`np.log(0)`). */
  datatype LogValue = NegInfinity | Finite(value: real)

  function ExpOf(m: Transcendentals, v: LogValue): real {
    if v.NegInfinity? then 0.0 else m.exp(v.value)
  }

  /** The sum over interpolators of `exp(f(x))`. */
  function SumExp(m: Transcendentals, fs: seq<Interp1d>, x: real): (s: real)
    ensures ExpLaws(m) && |fs| > 0 ==> s > 0.0
  {
    if |fs| == 0 then 0.0 else m.exp(Evaluate(fs[0], x)) + SumExp(m, fs[1..], x)
  }

  /** `log_interpolate(att_type, x)` at one log-energy: the log of the sum over
      elements of the exponentiated interpolants; an unknown mechanism raises KeyError. */
  function LogInterpolate(m: Transcendentals, data: AttenuationData, code: int, x: real): (r: Result<LogValue>)
    ensures r.Err? <==> code !in data.interpolators
    ensures r.Ok? && ExpLaws(m) && LogLaws(m) ==> ExpOf(m, r.value) == SumExp(m, data.interpolators[code], x)
    ensures r.Ok? ==> (r.value.NegInfinity? <==> |data.interpolators[code]| == 0)
  {
    if code !in data.interpolators then Err(KeyError(Text.IntToString(code)))
    else
      var fs := data.interpolators[code];
      if |fs| == 0 then Ok(NegInfinity) else Ok(Finite(m.ln(SumExp(m, fs, x))))
  }

  /** With a single element the interpolation is that element's own interpolant. */
  lemma LogInterpolateOneElement(m: Transcendentals, data: AttenuationData, code: int, x: real)
    requires ExpLaws(m) && LogLaws(m)
    requires code in data.interpolators && |data.interpolators[code]| == 1
    ensures LogInterpolate(m, data, code, x) == Ok(Finite(Evaluate(data.interpolators[code][0], x)))
  {
    var fs := data.interpolators[code];
    assert SumExp(m, fs, x) == m.exp(Evaluate(fs[0], x));
  }

  /** A single-element material reproduces its table exactly at the tabulated
      energies: `exp(log_interpolate(k, ln E_i)) == μ_i`. */
  lemma TableReproduced(m: Transcendentals, data: AttenuationData, code: int, i: nat)
    requires ExpLaws(m) && LogLaws(m)
    requires code in All && |data.tables| == 1
    requires data.interpolators == SetupInterpolators(m, data.tables)
    requires Usable(data.interpolators[code][0])
    requires i < |data.tables[0].energy| && 0.0 < data.tables[0].energy[i]
    requires |Coefficients(data.tables[0], code)| == |data.tables[0].energy|
    requires 0.0 < Coefficients(data.tables[0], code)[i]
    ensures LogInterpolate(m, data, code, m.ln(data.tables[0].energy[i])).Ok?
    ensures ExpOf(m, LogInterpolate(m, data, code, m.ln(data.tables[0].energy[i])).value)
      == Coefficients(data.tables[0], code)[i]
  {
    var f := data.interpolators[code][0];
    assert f == LogLogInterpolator(m, data.tables[0], code);
    LogInterpolateOneElement(m, data, code, m.ln(data.tables[0].energy[i]));
    EvaluateAtGridPoint(f, i);
  }
}
