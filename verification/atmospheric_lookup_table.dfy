/** The atmospheric lookup table built from an NRLMSIS run: one row per altitude,
    NaNs zeroed, SI units turned into CGS, the density columns of the species NIST
    does not index removed, and after each remaining density column the abundance
    of that species, its share of the summed densities at that altitude. */
module AtmosphereTable {
  import opened Outcomes
  import opened Linear
  import opened Dicts
  import Text

  // ---------------------------------------------------------------- numbers

  /** A table entry: a real number or NaN.  NaN also stands for the infinities a
      NumPy division by zero yields. */
  datatype Num = Real(x: real) | NaN

  function Plus(a: Num, b: Num): Num {
    if a.Real? && b.Real? then Real(a.x + b.x) else NaN
  }

  function Times(c: real, a: Num): Num {
    if a.Real? then Real(c * a.x) else NaN
  }

  function Over(a: Num, b: Num): Num {
    if a.Real? && b.Real? && b.x != 0.0 then Real(a.x / b.x) else NaN
  }

  predicate AllReal(v: seq<Num>) {
    forall i :: 0 <= i < |v| ==> v[i].Real?
  }

  function Reals(v: seq<Num>): (r: Vector)
    requires AllReal(v)
    ensures |r| == |v| && forall i :: 0 <= i < |v| ==> r[i] == v[i].x
  {
    seq(|v|, i requires 0 <= i < |v| => v[i].x)
  }

  function Lift(v: Vector): (r: seq<Num>)
    ensures |r| == |v| && forall i :: 0 <= i < |v| ==> r[i] == Real(v[i])
  {
    seq(|v|, i requires 0 <= i < |v| => Real(v[i]))
  }

  /** `np.sum`: NaN as soon as one entry is, otherwise the sum of the entries. */
  function Total(v: seq<Num>): (t: Num)
    ensures t.Real? <==> AllReal(v)
    ensures t.Real? ==> t.x == Sum(Reals(v))
    decreases |v|
  {
    if |v| == 0 then Real(0.0)
    else
      var rest := Total(v[1..]);
      assert AllReal(v) <==> v[0].Real? && AllReal(v[1..]) by {
        if v[0].Real? && AllReal(v[1..]) {
          forall i | 0 < i < |v| ensures v[i].Real? { assert v[i] == v[1..][i - 1]; }
        }
      }
      assert AllReal(v) ==> Reals(v)[1..] == Reals(v[1..]);
      Plus(v[0], rest)
  }

  // ---------------------------------------------------------------- column names

  /** The species NIST indexes, in table order; anomalous oxygen and NO are not among
      them. */
  const AcceptedElements: seq<string> := ["N2", "O2", "O", "He", "H", "Ar", "N"]

  /** Each name followed by the suffix. */
  function Suffixed(names: seq<string>, suffix: string): (r: seq<string>)
    ensures |r| == |names| && forall i :: 0 <= i < |names| ==> r[i] == names[i] + suffix
  {
    seq(|names|, i requires 0 <= i < |names| => names[i] + suffix)
  }

  const DensityCols: seq<string> := Suffixed(AcceptedElements, "den")
  const AbundanceCols: seq<string> := Suffixed(AcceptedElements, "abund")

  /** The columns of an NRLMSIS run, in its output order. */
  const MsisColumns: seq<string> :=
    ["total mass density"] + DensityCols + Suffixed(["Anomalous O", "NO"], "den") + ["Temperature"]

  /** The density and abundance columns spelt out; the abundance name of each density
      column is its name with `den` removed and `abund` appended. */
  lemma ColumnNames()
    ensures DensityCols == ["N2den", "O2den", "Oden", "Heden", "Hden", "Arden", "Nden"]
    ensures AbundanceCols == ["N2abund", "O2abund", "Oabund", "Heabund", "Habund", "Arabund", "Nabund"]
    ensures forall j :: 0 <= j < |DensityCols| ==> AbundanceName(DensityCols[j]) == AbundanceCols[j]
  {
    DensityNames();
    AbundanceNames();
    forall j | 0 <= j < |DensityCols| ensures AbundanceName(DensityCols[j]) == AbundanceCols[j] {
      assert |AcceptedElements[j]| <= 2 by { ShortElements(); }
      RemoveTrailingDen(AcceptedElements[j]);
    }
  }

  lemma ShortElements()
    ensures forall j :: 0 <= j < |AcceptedElements| ==> |AcceptedElements[j]| <= 2
  {
  }

  lemma DensityNames()
    ensures DensityCols == ["N2den", "O2den", "Oden", "Heden", "Hden", "Arden", "Nden"]
  {
    assert DensityCols[0] == "N2den";
    assert DensityCols[1] == "O2den";
    assert DensityCols[2] == "Oden";
    assert DensityCols[3] == "Heden";
    assert DensityCols[4] == "Hden";
    assert DensityCols[5] == "Arden";
    assert DensityCols[6] == "Nden";
  }

  lemma AbundanceNames()
    ensures AbundanceCols == ["N2abund", "O2abund", "Oabund", "Heabund", "Habund", "Arabund", "Nabund"]
  {
    assert AbundanceCols[0] == "N2abund";
    assert AbundanceCols[1] == "O2abund";
    assert AbundanceCols[2] == "Oabund";
    assert AbundanceCols[3] == "Heabund";
    assert AbundanceCols[4] == "Habund";
    assert AbundanceCols[5] == "Arabund";
    assert AbundanceCols[6] == "Nabund";
  }

  lemma DistinctDensityCols()
    ensures forall i, j :: 0 <= i < j < |DensityCols| ==> DensityCols[i] != DensityCols[j]
  {
    DensityNames();
  }

  /** `c.replace('den', '') + 'abund'`. */
  function AbundanceName(densityName: string): string {
    Text.RemoveAll(densityName, "den") + "abund"
  }

  /** Removing `den` from a name that only ends in it leaves the name. */
  lemma RemoveTrailingDen(e: string)
    requires |e| <= 2
    ensures Text.RemoveAll(e + "den", "den") == e
  {
    var s := e + "den";
    if |e| == 0 {
      assert s[..3] == "den";
      assert Text.RemoveAll(s, "den") == Text.RemoveAll("", "den");
    } else if |e| == 1 {
      assert s[..3] != "den" by { assert s[1] == 'd' && s[2] == 'e'; assert "den"[1] == 'e'; }
      assert s[1..] == "den";
      assert Text.RemoveAll(s[1..], "den") == "";
    } else {
      assert s[..3] != "den" by { assert s[2] == 'd'; assert "den"[2] == 'n'; }
      assert s[1..][..3] != "den" by { assert s[1..][1] == 'd'; assert "den"[1] == 'e'; }
      assert s[1..][1..] == "den";
      assert Text.RemoveAll(s[1..][1..], "den") == "";
      assert Text.RemoveAll(s[1..], "den") == [s[1]];
      assert [s[0]] + [s[1]] == e;
    }
  }

  /** `c[-3:] == 'den'`. */
  predicate EndsInDen(c: string) {
    |c| >= 3 && c[|c| - 3..] == "den"
  }

  lemma EndsInDenOfSuffixed(e: string)
    ensures EndsInDen(e + "den")
  {
    assert (e + "den")[|e|..] == "den";
  }

  /** The run's columns by position. */
  lemma MsisIndex()
    ensures |MsisColumns| == 11
    ensures MsisColumns[0] == "total mass density" && MsisColumns[10] == "Temperature"
    ensures forall j :: 1 <= j <= 7 ==> MsisColumns[j] == DensityCols[j - 1]
    ensures MsisColumns[8] == "Anomalous Oden" && MsisColumns[9] == "NOden"
  {
    var others := Suffixed(["Anomalous O", "NO"], "den");
    assert others[0] == "Anomalous Oden" && others[1] == "NOden";
  }

  /** Which run columns the conversion scales, and by how much. */
  lemma MsisColumnKinds()
    ensures |MsisColumns| == 11
    ensures MsisColumns[0] == "total mass density" && !EndsInDen(MsisColumns[0])
    ensures forall j :: 1 <= j <= 9 ==> EndsInDen(MsisColumns[j]) && MsisColumns[j] != "total mass density"
    ensures MsisColumns[10] == "Temperature" && !EndsInDen(MsisColumns[10])
    ensures forall j :: 1 <= j <= 7 ==> MsisColumns[j] == DensityCols[j - 1]
    ensures MsisColumns[8] !in DensityCols && MsisColumns[9] !in DensityCols
  {
    MsisIndex();
    PlainNames();
    forall j | 1 <= j <= 9 ensures EndsInDen(MsisColumns[j]) {
      if j <= 7 {
        EndsInDenOfSuffixed(AcceptedElements[j - 1]);
      } else if j == 8 {
        EndsInDenOfSuffixed("Anomalous O");
        assert "Anomalous O" + "den" == "Anomalous Oden";
      } else {
        EndsInDenOfSuffixed("NO");
        assert "NO" + "den" == "NOden";
      }
    }
    DensityNames();
  }

  /** The columns that are not densities. */
  lemma PlainNames()
    ensures !EndsInDen("total mass density") && !EndsInDen("Temperature") && !EndsInDen("altitude")
  {
    assert "total mass density"[15] == 'i';
    assert "Temperature"[8] == 'u';
    assert "altitude"[5] == 'u';
  }

  // ---------------------------------------------------------------- building the table

  /** `output[np.isnan(output)] = 0`. */
  function ZeroNaN(output: seq<seq<Num>>): (r: seq<seq<Num>>)
    ensures |r| == |output|
    ensures forall i :: 0 <= i < |output| ==> |r[i]| == |output[i]| && AllReal(r[i])
    ensures forall i, j :: 0 <= i < |output| && 0 <= j < |output[i]| && output[i][j].Real? ==> r[i][j] == output[i][j]
    ensures forall i, j :: 0 <= i < |output| && 0 <= j < |output[i]| && output[i][j].NaN? ==> r[i][j] == Real(0.0)
  {
    seq(|output|, i requires 0 <= i < |output| =>
      seq(|output[i]|, j requires 0 <= j < |output[i]| => if output[i][j].NaN? then Real(0.0) else output[i][j]))
  }

  /** The mass density goes from kg/m³ to g/cm³, number densities from m⁻³ to cm⁻³. */
  const MassDensityScale: real := 0.001
  const NumberDensityScale: real := 0.000001

  /** The unit conversion of one column: the mass density first, then every column
      named `...den`. */
  function ToCgs(name: string, values: seq<Num>): (r: seq<Num>)
    ensures |r| == |values|
  {
    if name == "total mass density" then ScaleAll(MassDensityScale, values)
    else if EndsInDen(name) then ScaleAll(NumberDensityScale, values)
    else values
  }

  /** A quantity converted to another unit: every entry times the factor. */
  function ScaleAll(c: real, values: seq<Num>): (r: seq<Num>)
    ensures |r| == |values| && forall i :: 0 <= i < |values| ==> r[i] == Times(c, values[i])
  {
    seq(|values|, i requires 0 <= i < |values| => Times(c, values[i]))
  }

  /** Every row holds one value per column of the run. */
  predicate Shaped(output: seq<seq<Num>>) {
    forall i :: 0 <= i < |output| ==> |output[i]| == |MsisColumns|
  }

  const ShapeMismatch: Error := ValueError("Arguments \"names\" and \"dtype\" must match number of columns")

  /** The `j`-th column of the run's output. */
  function ColumnOf(output: seq<seq<Num>>, j: nat): (c: seq<Num>)
    requires Shaped(output) && j < |MsisColumns|
    ensures |c| == |output|
  {
    seq(|output|, i requires 0 <= i < |output| => output[i][j])
  }

  /** `_convert_msis_output_to_qtable`: one column per run column, converted to CGS. */
  function FromMsis(output: seq<seq<Num>>): (r: Result<Dict<seq<Num>>>)
    ensures r.Err? <==> !Shaped(output)
    ensures r.Err? ==> r.error == ShapeMismatch
    ensures r.Ok? ==> Keys(r.value) == MsisColumns
    ensures r.Ok? ==> forall j :: 0 <= j < |MsisColumns| ==> r.value[j].1 == ToCgs(MsisColumns[j], ColumnOf(output, j))
  {
    if !Shaped(output) then Err(ShapeMismatch)
    else
      var columns := seq(|MsisColumns|, j requires 0 <= j < |MsisColumns| =>
        (MsisColumns[j], ToCgs(MsisColumns[j], ColumnOf(output, j))));
      assert Keys(columns) == MsisColumns;
      Ok(columns)
  }

  /** The converted run: the mass density scaled by 10⁻³, the number densities by
      10⁻⁶, the temperature kept; one value per altitude. */
  lemma FromMsisUnits(output: seq<seq<Num>>, j: nat, i: nat)
    requires Shaped(output) && j < |MsisColumns| && i < |output| && output[i][j].Real?
    ensures var c := FromMsis(output).value[j].1;
      && |c| == |output|
      && c[i] == Real((if j == 0 then MassDensityScale else if j <= 9 then NumberDensityScale else 1.0) * output[i][j].x)
  {
    MsisColumnKinds();
  }

  /** A density column of a species NIST does not index. */
  predicate Dropped(name: string) {
    EndsInDen(name) && name !in DensityCols
  }

  /** The loop removing every density column outside `DENSITY_COLS`, all others kept
      in order. */
  function Filter(t: Dict<seq<Num>>): (r: Dict<seq<Num>>)
    ensures |r| <= |t|
    ensures forall c :: c in r <==> c in t && !Dropped(c.0)
    decreases |t|
  {
    if |t| == 0 then []
    else
      var n := |t| - 1;
      var front := Filter(t[..n]);
      assert forall c :: c in t <==> c in t[..n] || c == t[n] by { assert t == t[..n] + [t[n]]; }
      if Dropped(t[n].0) then front else front + [t[n]]
  }

  // ---------------------------------------------------------------- abundances

  /** `list.index`: the first position of the name, or the ValueError a missing one
      raises. */
  function IndexOf(names: seq<string>, name: string): (r: Result<nat>)
    ensures r.Err? <==> name !in names
    ensures r.Err? ==> r.error == ValueError("'" + name + "' is not in list")
    ensures r.Ok? ==> r.value < |names| && names[r.value] == name && name !in names[..r.value]
    decreases |names|
  {
    if |names| == 0 then Err(ValueError("'" + name + "' is not in list"))
    else if names[0] == name then Ok(0)
    else
      match IndexOf(names[1..], name)
      case Err(e) => assert name !in names; Err(e)
      case Ok(i) =>
        assert names[..i + 1] == [names[0]] + names[1..][..i];
        Ok(i + 1)
  }

  /** The first density column the table lacks, if any. */
  function FirstMissing(names: seq<string>, wanted: seq<string>): (r: Option<string>)
    ensures r.Some? ==> r.value in wanted && r.value !in names
    ensures r.None? <==> forall j :: 0 <= j < |wanted| ==> wanted[j] in names
    decreases |wanted|
  {
    if |wanted| == 0 then None
    else if wanted[0] !in names then Some(wanted[0])
    else
      var rest := FirstMissing(names, wanted[1..]);
      assert forall j :: 0 < j < |wanted| ==> wanted[j] == wanted[1..][j - 1];
      rest
  }

  /** Every column holds one value per altitude. */
  predicate Uniform(t: Dict<seq<Num>>, rows: nat) {
    forall i :: 0 <= i < |t| ==> |t[i].1| == rows
  }

  /** The densities of the accepted species at one altitude, in `DENSITY_COLS` order. */
  function DensitiesAt(t: Dict<seq<Num>>, rows: nat, r: nat): (ds: seq<Num>)
    requires Uniform(t, rows) && r < rows
    requires forall j :: 0 <= j < |DensityCols| ==> DensityCols[j] in Keys(t)
    ensures |ds| == |DensityCols|
  {
    seq(|DensityCols|, j requires 0 <= j < |DensityCols| =>
      GetOfUniform(t, rows, DensityCols[j]); Get(t, DensityCols[j])[r])
  }

  /** Looking a column up in a uniform table gives one value per row. */
  lemma GetOfUniform(t: Dict<seq<Num>>, rows: nat, key: string)
    requires Uniform(t, rows) && key in Keys(t)
    ensures |Get(t, key)| == rows
    decreases |t|
  {
    if t[0].0 != key {
      assert key in Keys(t[1..]) by {
        var i :| 0 <= i < |t| && Keys(t)[i] == key;
        assert Keys(t[1..])[i - 1] == key;
      }
      GetOfUniform(t[1..], rows, key);
    }
  }

  /** `densities / totals` at one altitude: each species' share of the sum. */
  function Shares(ds: seq<Num>): (r: seq<Num>)
    ensures |r| == |ds|
  {
    var total := Total(ds);
    seq(|ds|, j requires 0 <= j < |ds| => Over(ds[j], total))
  }

  /** With real, non-negative densities of positive sum the shares lie in [0, 1] and
      sum to one; with a zero sum every share is NaN (`0 / 0`). */
  lemma SharesSumToOne(ds: seq<Num>)
    requires AllReal(ds) && forall j :: 0 <= j < |ds| ==> ds[j].x >= 0.0
    ensures Total(ds).x > 0.0 ==>
      && AllReal(Shares(ds))
      && (forall j :: 0 <= j < |ds| ==> 0.0 <= Shares(ds)[j].x <= 1.0)
      && Sum(Reals(Shares(ds))) == 1.0
    ensures Total(ds).x == 0.0 ==> forall j :: 0 <= j < |ds| ==> Shares(ds)[j] == NaN
  {
    var total := Total(ds).x;
    var v := Reals(ds);
    if total > 0.0 {
      var sh := Shares(ds);
      assert forall j :: 0 <= j < |ds| ==> sh[j] == Real(v[j] / total);
      forall j | 0 <= j < |ds| ensures 0.0 <= sh[j].x <= 1.0 {
        NonNegativeBelowSum(v, j);
        FractionBounds(v[j], total);
      }
      ScaledFractions(v, total, Reals(sh));
      assert Sum(v) == total;
      SumOfFractions(v, Reals(sh));
    }
  }

  lemma FractionBounds(a: real, b: real)
    requires 0.0 <= a <= b && b > 0.0
    ensures 0.0 <= a / b <= 1.0
  {
  }

  lemma ScaledFractions(v: Vector, total: real, w: Vector)
    requires total != 0.0 && |w| == |v| && forall j :: 0 <= j < |v| ==> w[j] == v[j] / total
    ensures w == Scale(1.0 / total, v)
  {
    forall j | 0 <= j < |v| ensures w[j] == Scale(1.0 / total, v)[j] {
      FractionAsScale(v[j], total);
    }
  }

  /** Dividing every entry by the sum gives entries summing to one. */
  lemma SumOfFractions(v: Vector, w: Vector)
    requires Sum(v) != 0.0 && w == Scale(1.0 / Sum(v), v)
    ensures Sum(w) == 1.0
  {
    SumOfScale(1.0 / Sum(v), v);
    InverseTimes(Sum(v));
  }

  lemma InverseTimes(b: real)
    requires b != 0.0
    ensures (1.0 / b) * b == 1.0
  {
  }

  lemma FractionAsScale(a: real, b: real)
    requires b != 0.0
    ensures a / b == (1.0 / b) * a
  {
  }

  /** An entry of a non-negative vector lies between zero and the sum. */
  lemma {:induction false} NonNegativeBelowSum(v: Vector, j: nat)
    requires j < |v| && forall i :: 0 <= i < |v| ==> v[i] >= 0.0
    ensures 0.0 <= v[j] <= Sum(v)
    decreases |v|
  {
    SumNonNegative(v[1..]);
    if j > 0 {
      assert v[1..][j - 1] == v[j];
      NonNegativeBelowSum(v[1..], j - 1);
    }
  }

  lemma {:induction false} SumNonNegative(v: Vector)
    requires forall i :: 0 <= i < |v| ==> v[i] >= 0.0
    ensures Sum(v) >= 0.0
    decreases |v|
  {
    if |v| > 0 {
      assert forall i :: 0 <= i < |v| - 1 ==> v[1..][i] == v[i + 1];
      SumNonNegative(v[1..]);
    }
  }

  /** The abundance column of a density column: its name and, per altitude, the
      species' share. */
  function Abundance(t: Dict<seq<Num>>, rows: nat, d: string): (c: (string, seq<Num>))
    requires Uniform(t, rows) && d in DensityCols
    requires forall j :: 0 <= j < |DensityCols| ==> DensityCols[j] in Keys(t)
  {
    var j := IndexIn(DensityCols, d);
    (AbundanceName(d), seq(rows, r requires 0 <= r < rows => Shares(DensitiesAt(t, rows, r))[j]))
  }

  /** The position of a name known to be present. */
  function IndexIn(names: seq<string>, name: string): (j: nat)
    requires name in names
    ensures j < |names| && names[j] == name && name !in names[..j]
  {
    IndexOf(names, name).value
  }

  /** The columns up to `t[..n]` with each density column's abundance right after its
      first occurrence. */
  function Interleave(t: Dict<seq<Num>>, rows: nat, n: nat): (r: Dict<seq<Num>>)
    requires n <= |t| && Uniform(t, rows)
    requires forall j :: 0 <= j < |DensityCols| ==> DensityCols[j] in Keys(t)
    decreases n
  {
    if n == 0 then [] else Interleave(t, rows, n - 1) + [t[n - 1]] + After(t, rows, n - 1)
  }

  /** What follows the `i`-th column: the abundance column if it is the first
      occurrence of a density column, nothing otherwise. */
  function After(t: Dict<seq<Num>>, rows: nat, i: nat): (r: Dict<seq<Num>>)
    requires i < |t| && Uniform(t, rows)
    requires forall j :: 0 <= j < |DensityCols| ==> DensityCols[j] in Keys(t)
  {
    var name := t[i].0;
    if name in DensityCols && name !in Keys(t)[..i] then [Abundance(t, rows, name)] else []
  }

  /** An earlier stage of the interleaving is a prefix of a later one. */
  lemma {:induction false} InterleavePrefix(t: Dict<seq<Num>>, rows: nat, m: nat, n: nat)
    requires m <= n <= |t| && Uniform(t, rows)
    requires forall j :: 0 <= j < |DensityCols| ==> DensityCols[j] in Keys(t)
    ensures Interleave(t, rows, m) <= Interleave(t, rows, n)
    decreases n - m
  {
    if m < n {
      InterleavePrefix(t, rows, m, n - 1);
      PrefixOfExtension(Interleave(t, rows, m), Interleave(t, rows, n - 1), [t[n - 1]], After(t, rows, n - 1));
      assert Interleave(t, rows, n) == Interleave(t, rows, n - 1) + [t[n - 1]] + After(t, rows, n - 1);
    }
  }

  lemma PrefixOfExtension<T>(a: seq<T>, b: seq<T>, x: seq<T>, y: seq<T>)
    requires a <= b
    ensures a <= b + x + y
  {
    assert (b + x + y)[..|a|] == b[..|a|];
  }

  /** `_compute_abundances(data)`: for a table with one value per altitude in every
      column, the ValueError of the first density column it lacks, or the duplicate
      error when an abundance column already exists, or the table with the abundance
      columns inserted. */
  function ComputeAbundances(t: Dict<seq<Num>>, rows: nat): (r: Result<Dict<seq<Num>>>)
    requires Uniform(t, rows)
    ensures FirstMissing(Keys(t), DensityCols).Some? ==>
      r == Err(ValueError("'" + FirstMissing(Keys(t), DensityCols).value + "' is not in list"))
    ensures r.Err? <==> FirstMissing(Keys(t), DensityCols).Some? || exists j :: 0 <= j < |AbundanceCols| && AbundanceCols[j] in Keys(t)
  {
    match FirstMissing(Keys(t), DensityCols)
    case Some(d) => Err(ValueError("'" + d + "' is not in list"))
    case None =>
      if exists j :: 0 <= j < |AbundanceCols| && AbundanceCols[j] in Keys(t) then Err(DuplicateColumn)
      else Ok(Interleave(t, rows, |t|))
  }

  const DuplicateColumn: Error := ValueError("Duplicate column names")

  /** In the table with abundances every column keeps its relative place: the
      `i`-th column sits after the interleaving of the columns before it. */
  lemma KeptAt(t: Dict<seq<Num>>, rows: nat, i: nat)
    requires i < |t| && Uniform(t, rows)
    requires forall j :: 0 <= j < |DensityCols| ==> DensityCols[j] in Keys(t)
    ensures |Interleave(t, rows, i)| < |Interleave(t, rows, |t|)|
    ensures Interleave(t, rows, |t|)[|Interleave(t, rows, i)|] == t[i]
  {
    InterleavePrefix(t, rows, i + 1, |t|);
    assert Interleave(t, rows, i + 1) == Interleave(t, rows, i) + [t[i]] + After(t, rows, i);
  }

  /** The first occurrence of each density column is followed directly by its
      abundance column: named with `den` replaced by `abund`, holding the species'
      share of the summed densities at every altitude. */
  lemma AbundanceAt(t: Dict<seq<Num>>, rows: nat, j: nat)
    requires j < |DensityCols| && Uniform(t, rows)
    requires forall j :: 0 <= j < |DensityCols| ==> DensityCols[j] in Keys(t)
    ensures var p := IndexIn(Keys(t), DensityCols[j]);
      var q := |Interleave(t, rows, p)|;
      && q + 1 < |Interleave(t, rows, |t|)| && Interleave(t, rows, |t|)[q] == t[p]
      && Interleave(t, rows, |t|)[q + 1] == (AbundanceCols[j], seq(rows, k requires 0 <= k < rows => Shares(DensitiesAt(t, rows, k))[j]))
  {
    var d := DensityCols[j];
    var p := IndexIn(Keys(t), d);
    assert t[p].0 == d;
    InterleavePrefix(t, rows, p + 1, |t|);
    assert After(t, rows, p) == [Abundance(t, rows, d)];
    assert Interleave(t, rows, p + 1) == Interleave(t, rows, p) + [t[p]] + [Abundance(t, rows, d)];
    DistinctDensityCols();
    assert IndexIn(DensityCols, d) == j;
    ColumnNames();
  }

  /** The interleaving adds nothing but abundance columns. */
  lemma {:induction false} InterleaveMembers(t: Dict<seq<Num>>, rows: nat, n: nat)
    requires n <= |t| && Uniform(t, rows)
    requires forall j :: 0 <= j < |DensityCols| ==> DensityCols[j] in Keys(t)
    ensures forall c :: c in Interleave(t, rows, n) ==> c in t || c.0 in AbundanceCols
    decreases n
  {
    if n > 0 {
      InterleaveMembers(t, rows, n - 1);
      var name := t[n - 1].0;
      if name in DensityCols && name !in Keys(t)[..n - 1] {
        ColumnNames();
        assert Abundance(t, rows, name).0 in AbundanceCols;
      }
    }
  }

  // ---------------------------------------------------------------- the table

  /** `np.arange(start, stop, step)` over the reals: `ceil((stop - start) / step)`
      values, none when that is not positive, a zero step raising. */
  function Arange(start: real, stop: real, step: real): (r: Result<Vector>)
    ensures step == 0.0 <==> r.Err?
    ensures r.Err? ==> r.error == ZeroDivisionError
    ensures r.Ok? ==> |r.value| == ArangeLength(start, stop, step)
    ensures r.Ok? ==> forall i :: 0 <= i < |r.value| ==> r.value[i] == start + i as real * step
  {
    if step == 0.0 then Err(ZeroDivisionError)
    else Ok(seq(ArangeLength(start, stop, step), i => start + i as real * step))
  }

  function ArangeLength(start: real, stop: real, step: real): nat
    requires step != 0.0
  {
    var c := -((start - stop) / step).Floor;
    if c > 0 then c else 0
  }

  /** With a positive step every value lies below the stop, and the next one would
      not: the grid runs from the start up to the last step before the stop. */
  lemma ArangeStopsBefore(start: real, stop: real, step: real)
    requires step > 0.0 && start < stop
    ensures var g := Arange(start, stop, step).value;
      && |g| > 0 && g[0] == start
      && (forall i :: 0 <= i < |g| ==> g[i] < stop)
      && start + |g| as real * step >= stop
  {
    var q := (stop - start) / step;
    var n := ArangeLength(start, stop, step);
    assert (start - stop) / step == -q;
    CeilingBounds(q);
    var g := Arange(start, stop, step).value;
    forall i | 0 <= i < |g| ensures g[i] < stop {
      assert (i as real) < q;
      BelowQuotient(i as real, stop - start, step);
    }
    AboveQuotient(n as real, stop - start, step);
  }

  /** `-floor(-q)` is the least integer at or above `q`. */
  lemma CeilingBounds(q: real)
    requires q > 0.0
    ensures var c := -(-q).Floor; c > 0 && q <= c as real < q + 1.0
  {
  }

  lemma BelowQuotient(x: real, span: real, step: real)
    requires step > 0.0 && x < span / step
    ensures x * step < span
  {
    assert x * step < (span / step) * step;
  }

  lemma AboveQuotient(x: real, span: real, step: real)
    requires step > 0.0 && x >= span / step
    ensures x * step >= span
  {
    assert x * step >= (span / step) * step;
  }

  /** `compute_lookup_table`: the run's output at the altitudes (one row per
      altitude), NaNs zeroed, converted to CGS, the altitude column added, the
      density columns outside `DENSITY_COLS` removed, then the abundances. */
  function CompileTable(altitudes: Vector, output: seq<seq<Num>>): (r: Result<Dict<seq<Num>>>)
    requires |output| == |altitudes|
    ensures !Shaped(output) <==> r.Err?
    ensures r.Err? ==> r.error == ShapeMismatch
  {
    match FromMsis(ZeroNaN(output))
    case Err(e) => Err(e)
    case Ok(t) =>
      var kept := Filter(Put(t, "altitude", Lift(altitudes)));
      Prepared(t, altitudes);
      ComputeAbundances(kept, |altitudes|)
  }

  /** An abundance column name never ends in `den`. */
  lemma AbundanceNotDensity(e: string)
    ensures !EndsInDen(e + "abund")
  {
    var a := e + "abund";
    assert a[|a| - 3] == 'u';
    assert a[|a| - 3..][0] == a[|a| - 3];
    assert "den"[0] == 'd';
  }

  /** The filtered table holds every density column NIST indexes, and no abundance
      column yet. */
  lemma Prepared(t: Dict<seq<Num>>, altitudes: Vector)
    requires Keys(t) == MsisColumns && Uniform(t, |altitudes|)
    ensures var kept := Filter(Put(t, "altitude", Lift(altitudes)));
      && Uniform(kept, |altitudes|)
      && FirstMissing(Keys(kept), DensityCols).None?
      && (forall j :: 0 <= j < |AbundanceCols| ==> AbundanceCols[j] !in Keys(kept))
      && ComputeAbundances(kept, |altitudes|).Ok?
  {
    var withAltitude := Put(t, "altitude", Lift(altitudes));
    var kept := Filter(withAltitude);
    AltitudeAppended(t, altitudes);
    forall i | 0 <= i < |kept| ensures |kept[i].1| == |altitudes| {
      assert kept[i] in withAltitude;
    }
    KeptDensities(t, withAltitude);
    NoAbundanceYet(t, withAltitude);
  }

  /** The run has no altitude column, so `add_column` appends one. */
  lemma AltitudeAppended(t: Dict<seq<Num>>, altitudes: Vector)
    requires Keys(t) == MsisColumns
    ensures Put(t, "altitude", Lift(altitudes)) == t + [("altitude", Lift(altitudes))]
  {
    MsisColumnKinds();
    PlainNames();
    assert "altitude"[7] == 'e' && "Temperature"[10] == 'e' && "total mass density"[17] == 'y';
    assert "altitude" !in Keys(t) by {
      forall k | 0 <= k < |t| ensures Keys(t)[k] != "altitude" {
        if 1 <= k <= 9 {
          assert EndsInDen(Keys(t)[k]);
        }
      }
    }
  }

  /** Every density column NIST indexes survives the filter. */
  lemma KeptDensities(t: Dict<seq<Num>>, withAltitude: Dict<seq<Num>>)
    requires Keys(t) == MsisColumns && t <= withAltitude
    ensures forall j :: 0 <= j < |DensityCols| ==> DensityCols[j] in Keys(Filter(withAltitude))
  {
    var kept := Filter(withAltitude);
    MsisColumnKinds();
    forall j | 0 <= j < |DensityCols| ensures DensityCols[j] in Keys(kept) {
      assert withAltitude[j + 1] == t[j + 1];
      assert t[j + 1].0 == DensityCols[j];
      assert withAltitude[j + 1] in kept;
      var i :| 0 <= i < |kept| && kept[i] == withAltitude[j + 1];
      assert Keys(kept)[i] == DensityCols[j];
    }
  }

  /** No abundance column is among the run's columns and the altitude. */
  lemma NoAbundanceYet(t: Dict<seq<Num>>, withAltitude: Dict<seq<Num>>)
    requires Keys(t) == MsisColumns && |withAltitude| == |t| + 1 && t <= withAltitude
    requires withAltitude[|t|].0 == "altitude"
    ensures forall j :: 0 <= j < |AbundanceCols| ==> AbundanceCols[j] !in Keys(Filter(withAltitude))
  {
    assert "altitude"[7] == 'e' && "Temperature"[10] == 'e' && "total mass density"[17] == 'y';
    forall j | 0 <= j < |AbundanceCols| ensures AbundanceCols[j] !in Keys(Filter(withAltitude)) {
      var a := AbundanceCols[j];
      assert a == AcceptedElements[j] + "abund";
      AbundanceNotDensity(AcceptedElements[j]);
      assert a[|a| - 1] == 'd';
      NotAKey(t, withAltitude, a);
    }
  }

  /** Filtering adds no column name. */
  lemma FilterKeepsOut(t: Dict<seq<Num>>, a: string)
    requires forall k :: 0 <= k < |t| ==> t[k].0 != a
    ensures a !in Keys(Filter(t))
  {
    var kept := Filter(t);
    forall i | 0 <= i < |kept| ensures Keys(kept)[i] != a {
      assert kept[i] in t;
    }
  }

  lemma NotARunColumn(a: string, k: nat)
    requires k < |MsisColumns|
    requires !EndsInDen(a) && a != "Temperature" && a != "total mass density"
    ensures MsisColumns[k] != a
  {
    MsisColumnKinds();
  }

  /** A name that is no density name, nor any other name of the run or the altitude,
      is not a column of the filtered table. */
  lemma NotAKey(t: Dict<seq<Num>>, withAltitude: Dict<seq<Num>>, a: string)
    requires Keys(t) == MsisColumns && |withAltitude| == |t| + 1 && t <= withAltitude
    requires withAltitude[|t|].0 == "altitude"
    requires !EndsInDen(a) && a != "altitude" && a != "Temperature" && a != "total mass density"
    ensures a !in Keys(Filter(withAltitude))
  {
    forall k | 0 <= k < |withAltitude| ensures withAltitude[k].0 != a {
      if k < |t| {
        assert withAltitude[k] == t[k];
        assert t[k].0 == Keys(t)[k];
        NotARunColumn(a, k);
      } else {
        assert k == |t|;
      }
    }
    FilterKeepsOut(withAltitude, a);
  }

  /** For a run with one value per column at every altitude the table compiles: each
      density column NIST indexes is followed by its abundance column, and the
      density columns of anomalous oxygen and NO are gone. */
  lemma CompiledTable(altitudes: Vector, output: seq<seq<Num>>)
    requires |output| == |altitudes| && Shaped(output)
    ensures CompileTable(altitudes, output).Ok?
    ensures var r := CompileTable(altitudes, output).value;
      && "Anomalous Oden" !in Keys(r) && "NOden" !in Keys(r)
      && forall j :: 0 <= j < |DensityCols| ==> Adjacent(r, DensityCols[j], AbundanceCols[j])
  {
    var t := FromMsis(ZeroNaN(output)).value;
    var kept := Filter(Put(t, "altitude", Lift(altitudes)));
    Prepared(t, altitudes);
    assert CompileTable(altitudes, output) == Ok(Interleave(kept, |altitudes|, |kept|));
    InterleavePairs(kept, |altitudes|);
    ExtraDropped();
    DroppedAbsent(kept, |altitudes|, "Anomalous Oden");
    DroppedAbsent(kept, |altitudes|, "NOden");
  }

  /** Some column named `a` is directly followed by one named `b`. */
  predicate Adjacent(r: Dict<seq<Num>>, a: string, b: string) {
    exists q :: 0 <= q < |r| - 1 && r[q].0 == a && r[q + 1].0 == b
  }

  /** In the interleaving each density column is followed by its abundance column. */
  lemma InterleavePairs(kept: Dict<seq<Num>>, rows: nat)
    requires Uniform(kept, rows)
    requires forall j :: 0 <= j < |DensityCols| ==> DensityCols[j] in Keys(kept)
    ensures var r := Interleave(kept, rows, |kept|);
      forall j :: 0 <= j < |DensityCols| ==> Adjacent(r, DensityCols[j], AbundanceCols[j])
  {
    var r := Interleave(kept, rows, |kept|);
    forall j | 0 <= j < |DensityCols|
      ensures Adjacent(r, DensityCols[j], AbundanceCols[j])
    {
      AbundanceAt(kept, rows, j);
      var p := IndexIn(Keys(kept), DensityCols[j]);
      var q := |Interleave(kept, rows, p)|;
      assert r[q] == kept[p] && r[q + 1].0 == AbundanceCols[j];
      assert kept[p].0 == DensityCols[j];
      assert 0 <= q < |r| - 1 && r[q].0 == DensityCols[j] && r[q + 1].0 == AbundanceCols[j];
      assert Adjacent(r, DensityCols[j], AbundanceCols[j]);
    }
  }

  /** The run's columns of anomalous oxygen and NO are density columns outside
      `DENSITY_COLS`, and no abundance column is named like them. */
  lemma ExtraDropped()
    ensures Dropped("Anomalous Oden") && Dropped("NOden")
    ensures "Anomalous Oden" !in AbundanceCols && "NOden" !in AbundanceCols
  {
    MsisColumnKinds();
    MsisIndex();
    AbundanceNames();
  }

  /** A name that no column of the filtered table carries and that is not an
      abundance name is absent after the abundances are inserted. */
  lemma DroppedAbsent(t: Dict<seq<Num>>, rows: nat, x: string)
    requires Uniform(t, rows)
    requires forall j :: 0 <= j < |DensityCols| ==> DensityCols[j] in Keys(t)
    requires forall c :: c in t ==> c.0 != x
    requires x !in AbundanceCols
    ensures x !in Keys(Interleave(t, rows, |t|))
  {
    var r := Interleave(t, rows, |t|);
    InterleaveMembers(t, rows, |t|);
    forall i | 0 <= i < |r| ensures r[i].0 != x {
      assert r[i] in r;
    }
  }
}
