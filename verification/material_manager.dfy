/** Fetching the NIST XCOM attenuation data of an element or a compound: names are
    title-cased and checked against the table of elements, a compound's
    coefficients are weighted by each element's mass fraction, and the XCOM text
    reply is decoded into columns with coinciding energies pulled apart. */
module MaterialManager {
  import opened Outcomes
  import opened Linear
  import opened Dicts
  import Text
  import Nudging

  /** The four arrays kept for an element: energies in MeV and the three mass
      attenuation coefficients in cm²/g. */
  datatype ElementData = ElementData(energy: Vector, photoelectric: Vector, compton: Vector, rayleigh: Vector)

  /** `mcon.elements` (name to atomic number) and `mcon.atomic_masses` (indexed by
      atomic number). */
  datatype Constants = Constants(elements: map<string, nat>, atomicMasses: seq<real>)

  function UnknownElement(name: string): Error {
    ValueError("no data is available for " + name + " from NIST")
  }

  // ---------------------------------------------------------------- elements

  /** `fetch_element(name)`: title-case, refuse a name the table lacks before any
      download, then read the element's data (`download` standing for the cache,
      the request and the file). */
  function FetchElement(k: Constants, download: string -> Result<ElementData>, name: string): (r: Result<ElementData>)
    ensures Text.Title(name) !in k.elements ==> r == Err(UnknownElement(Text.Title(name)))
    ensures Text.Title(name) in k.elements ==> r == download(Text.Title(name))
  {
    var t := Text.Title(name);
    if t !in k.elements then Err(UnknownElement(t)) else download(t)
  }

  /** The case of the name given does not matter: `ce`, `CE` and `Ce` fetch alike. */
  lemma FetchIgnoresCase(k: Constants, download: string -> Result<ElementData>, name: string)
    ensures FetchElement(k, download, Text.Title(name)) == FetchElement(k, download, name)
  {
    Text.TitleIdempotent(name, false);
  }

  // ---------------------------------------------------------------- compounds

  /** The mass `num * atomic_mass` of a known element. */
  function MassOf(k: Constants, name: string, num: real): real {
    if name in k.elements && k.elements[name] < |k.atomicMasses| then num * k.atomicMasses[k.elements[name]] else 0.0
  }

  /** The first loop of `fetch_compound` over the formula's items: fetch each
      (title-cased) element, then record its mass `num * atomic_mass`. */
  function Gather(k: Constants, download: string -> Result<ElementData>, formula: seq<(string, real)>)
    : (r: Result<(Dict<real>, Dict<ElementData>)>)
    ensures r.Ok? ==> Keys(r.value.0) == Keys(r.value.1)
    decreases |formula|
  {
    if |formula| == 0 then Ok(([], []))
    else
      var n := |formula| - 1;
      match Gather(k, download, formula[..n])
      case Err(e) => Err(e)
      case Ok((masses, coeffs)) =>
        var t := Text.Title(formula[n].0);
        match FetchElement(k, download, t)
        case Err(e) => Err(e)
        case Ok(data) =>
          Text.TitleIdempotent(formula[n].0, false);
          var z := k.elements[t];
          if z >= |k.atomicMasses| then Err(IndexError)
          else
            var ms := Put(masses, t, MassOf(k, t, formula[n].1));
            var cs := Put(coeffs, t, data);
            assert Keys(ms) == Keys(cs);
            Ok((ms, cs))
  }

  /** Each coefficient scaled by the mass fraction `m`; the energies left alone. */
  function Scaled(data: ElementData, m: real): (r: ElementData)
    ensures r.energy == data.energy
    ensures r.photoelectric == Scale(m, data.photoelectric) && r.compton == Scale(m, data.compton)
    ensures r.rayleigh == Scale(m, data.rayleigh)
  {
    ElementData(data.energy, Scale(m, data.photoelectric), Scale(m, data.compton), Scale(m, data.rayleigh))
  }

  /** The second loop: each element's entry under `f'{elt}_{m:0.2f}'`, with `format`
      the two-decimal formatting. */
  function Weighted(masses: Dict<real>, coeffs: Dict<ElementData>, total: real, format: real -> string)
    : (r: Dict<ElementData>)
    requires Keys(masses) == Keys(coeffs) && total != 0.0
    decreases |masses|
  {
    if |masses| == 0 then []
    else
      var n := |masses| - 1;
      assert Keys(masses[..n]) == Keys(coeffs[..n]);
      var (elt, mass) := masses[n];
      var m := mass / total;
      assert elt in Keys(coeffs) by { assert Keys(coeffs)[n] == elt; }
      Put(Weighted(masses[..n], coeffs[..n], total, format), elt + "_" + format(m), Scaled(Get(coeffs, elt), m))
  }

  /** `fetch_compound(formula)`. */
  function FetchCompound(k: Constants, download: string -> Result<ElementData>, formula: seq<(string, real)>,
                         format: real -> string): (r: Result<Dict<ElementData>>)
    ensures formula == [] ==> r == Ok([])
    ensures Gather(k, download, formula).Err? ==> r == Err(Gather(k, download, formula).error)
    ensures
      (&& Gather(k, download, formula).Ok? && Gather(k, download, formula).value.0 != []
       && Sum(Values(Gather(k, download, formula).value.0)) == 0.0) ==> r == Err(ZeroDivisionError)
  {
    match Gather(k, download, formula)
    case Err(e) => Err(e)
    case Ok((masses, coeffs)) =>
      var total := Sum(Values(masses));
      if masses == [] then Ok([])
      else if total == 0.0 then Err(ZeroDivisionError)
      else Ok(Weighted(masses, coeffs, total, format))
  }

  /** `masses[i] / total` for every element. */
  function Fractions(masses: Dict<real>): (fs: Vector)
    requires Sum(Values(masses)) != 0.0
    ensures |fs| == |masses|
  {
    var total := Sum(Values(masses));
    seq(|masses|, i requires 0 <= i < |masses| => masses[i].1 / total)
  }

  /** The mass fractions sum to one. */
  lemma FractionsSumToOne(masses: Dict<real>)
    requires Sum(Values(masses)) != 0.0
    ensures Sum(Fractions(masses)) == 1.0
  {
    var total := Sum(Values(masses));
    forall i | 0 <= i < |masses| ensures Fractions(masses)[i] == Scale(1.0 / total, Values(masses))[i] {
      assert masses[i].1 / total == (1.0 / total) * masses[i].1;
    }
    assert Fractions(masses) == Scale(1.0 / total, Values(masses));
    SumOfScale(1.0 / total, Values(masses));
  }

  /** The formula's element names, title-cased, are distinct and known, their
      atomic numbers index the mass table, and their data loads. */
  predicate Plain(k: Constants, download: string -> Result<ElementData>, formula: seq<(string, real)>) {
    && (forall i, j :: 0 <= i < j < |formula| ==> Text.Title(formula[i].0) != Text.Title(formula[j].0))
    && (forall i :: 0 <= i < |formula| ==>
          && Text.Title(formula[i].0) in k.elements && k.elements[Text.Title(formula[i].0)] < |k.atomicMasses|
          && download(Text.Title(formula[i].0)).Ok?)
  }

  /** The dictionaries hold, in the formula's order, each element's mass and data
      under its title-cased name. */
  predicate Recorded(k: Constants, download: string -> Result<ElementData>, formula: seq<(string, real)>,
                     masses: Dict<real>, coeffs: Dict<ElementData>)
  {
    && |masses| == |formula| == |coeffs|
    && forall i :: 0 <= i < |formula| ==>
         && masses[i] == (Text.Title(formula[i].0), MassOf(k, Text.Title(formula[i].0), formula[i].1))
         && download(Text.Title(formula[i].0)).Ok?
         && coeffs[i] == (Text.Title(formula[i].0), download(Text.Title(formula[i].0)).value)
  }

  /** For a plain formula the first loop records every element in order. */
  lemma {:induction false} GatherOfPlain(k: Constants, download: string -> Result<ElementData>, formula: seq<(string, real)>)
    requires Plain(k, download, formula)
    ensures Gather(k, download, formula).Ok?
    ensures Recorded(k, download, formula, Gather(k, download, formula).value.0, Gather(k, download, formula).value.1)
    decreases |formula|
  {
    if |formula| > 0 {
      var n := |formula| - 1;
      var front := formula[..n];
      assert Plain(k, download, front);
      GatherOfPlain(k, download, front);
      var (masses, coeffs) := Gather(k, download, front).value;
      var t := Text.Title(formula[n].0);
      assert t !in Keys(masses) by {
        forall i | 0 <= i < |masses| ensures Keys(masses)[i] != t {
          assert masses[i].0 == Text.Title(formula[i].0);
        }
      }
      GatherStep(k, download, front, formula[n], masses, coeffs);
      assert front + [formula[n]] == formula;
      RecordedStep(k, download, front, formula[n], masses, coeffs);
    }
  }

  /** One step of the first loop with an element not seen before: both entries go
      last. */
  lemma GatherStep(k: Constants, download: string -> Result<ElementData>, front: seq<(string, real)>,
                   last: (string, real), masses: Dict<real>, coeffs: Dict<ElementData>)
    requires Gather(k, download, front) == Ok((masses, coeffs))
    requires var t := Text.Title(last.0);
      t !in Keys(masses) && t in k.elements && k.elements[t] < |k.atomicMasses| && download(t).Ok?
    ensures var t := Text.Title(last.0);
      Gather(k, download, front + [last]) ==
        Ok((masses + [(t, MassOf(k, t, last.1))], coeffs + [(t, download(t).value)]))
  {
    var formula := front + [last];
    var n := |front|;
    assert formula[..n] == front && formula[n] == last;
    var t := Text.Title(last.0);
    Text.TitleIdempotent(last.0, false);
    assert t !in Keys(coeffs);
  }

  /** Recording one more element extends the record. */
  lemma RecordedStep(k: Constants, download: string -> Result<ElementData>, front: seq<(string, real)>,
                     last: (string, real), masses: Dict<real>, coeffs: Dict<ElementData>)
    requires Recorded(k, download, front, masses, coeffs) && download(Text.Title(last.0)).Ok?
    ensures var t := Text.Title(last.0);
      Recorded(k, download, front + [last], masses + [(t, MassOf(k, t, last.1))], coeffs + [(t, download(t).value)])
  {
    var formula := front + [last];
    forall i | 0 <= i < |front| ensures formula[i] == front[i] {}
  }

  /** The entries of the second loop for distinct keys: each element under its key,
      with its data scaled by its fraction. */
  predicate Entries(masses: Dict<real>, coeffs: Dict<ElementData>, total: real, format: real -> string, r: Dict<ElementData>)
    requires |masses| == |coeffs| && total != 0.0
  {
    && |r| == |masses|
    && forall i :: 0 <= i < |masses| ==>
         r[i] == (masses[i].0 + "_" + format(masses[i].1 / total), Scaled(coeffs[i].1, masses[i].1 / total))
  }

  /** The keys the second loop writes never collide. */
  predicate KeysApart(masses: Dict<real>, total: real, format: real -> string) {
    total != 0.0 &&
    forall i, j :: 0 <= i < j < |masses| ==>
      masses[i].0 + "_" + format(masses[i].1 / total) != masses[j].0 + "_" + format(masses[j].1 / total)
  }

  /** With element names and written keys that never collide, the second loop
      writes one entry per element, in order. */
  lemma {:induction false} WeightedOfDistinct(masses: Dict<real>, coeffs: Dict<ElementData>, total: real, format: real -> string)
    requires Keys(masses) == Keys(coeffs) && DistinctKeys(coeffs) && total != 0.0
    requires KeysApart(masses, total, format)
    ensures Entries(masses, coeffs, total, format, Weighted(masses, coeffs, total, format))
    decreases |masses|
  {
    if |masses| > 0 {
      var n := |masses| - 1;
      var ms, cs := masses[..n], coeffs[..n];
      assert Keys(ms) == Keys(cs);
      assert KeysApart(ms, total, format);
      WeightedOfDistinct(ms, cs, total, format);
      var front := Weighted(ms, cs, total, format);
      var key := masses[n].0 + "_" + format(masses[n].1 / total);
      var m := masses[n].1 / total;
      assert key !in Keys(front) by {
        forall i | 0 <= i < |front| ensures Keys(front)[i] != key {
          assert front[i].0 == ms[i].0 + "_" + format(ms[i].1 / total);
        }
      }
      assert masses[n].0 == coeffs[n].0 by { assert Keys(masses)[n] == Keys(coeffs)[n]; }
      GetOfDistinct(coeffs, n);
      WeightedLast(masses, coeffs, total, format);
      assert Weighted(masses, coeffs, total, format) == front + [(key, Scaled(coeffs[n].1, m))];
    }
  }

  /** The second loop's last step writes the last element's entry. */
  lemma WeightedLast(masses: Dict<real>, coeffs: Dict<ElementData>, total: real, format: real -> string)
    requires Keys(masses) == Keys(coeffs) && total != 0.0 && |masses| > 0
    ensures var n := |masses| - 1;
      var m := masses[n].1 / total;
      Keys(masses[..n]) == Keys(coeffs[..n]) && masses[n].0 in Keys(coeffs) &&
      Weighted(masses, coeffs, total, format) ==
        Put(Weighted(masses[..n], coeffs[..n], total, format), masses[n].0 + "_" + format(m), Scaled(Get(coeffs, masses[n].0), m))
  {
    var n := |masses| - 1;
    assert Keys(masses[..n]) == Keys(coeffs[..n]);
    assert Keys(coeffs)[n] == masses[n].0;
  }

  /** `fetch_compound` on a plain formula with a formatting that keeps the keys
      apart: one entry per element, in order, keyed by its name and mass fraction
      `n_i A_i / Σ n_j A_j`, holding its coefficients scaled by that fraction and
      its energies as they were; the fractions sum to one. */
  lemma CompoundOfPlain(k: Constants, download: string -> Result<ElementData>, formula: seq<(string, real)>,
                        format: real -> string)
    requires Plain(k, download, formula) && |formula| > 0
    requires Gather(k, download, formula).Ok? && Sum(Values(Gather(k, download, formula).value.0)) != 0.0
    requires KeysApart(Gather(k, download, formula).value.0, Sum(Values(Gather(k, download, formula).value.0)), format)
    ensures var masses := Gather(k, download, formula).value.0;
      var fs := Fractions(masses);
      var r := FetchCompound(k, download, formula, format);
      && Sum(fs) == 1.0
      && r.Ok? && |r.value| == |formula| == |fs|
      && forall i :: 0 <= i < |formula| ==>
           && fs[i] == MassOf(k, Text.Title(formula[i].0), formula[i].1) / Sum(Values(masses))
           && r.value[i] == (Text.Title(formula[i].0) + "_" + format(fs[i]),
                             Scaled(download(Text.Title(formula[i].0)).value, fs[i]))
  {
    GatherOfPlain(k, download, formula);
    var (masses, coeffs) := Gather(k, download, formula).value;
    FractionsSumToOne(masses);
    var total := Sum(Values(masses));
    WeightedOfDistinct(masses, coeffs, total, format);
    assert DistinctKeys(coeffs) by {
      forall i, j | 0 <= i < j < |coeffs| ensures coeffs[i].0 != coeffs[j].0 {
        assert coeffs[i].0 == Text.Title(formula[i].0) && coeffs[j].0 == Text.Title(formula[j].0);
      }
    }
  }

  // ---------------------------------------------------------------- the XCOM reply

  /** The trailing run of non-empty lines: everything after the last empty one. */
  function TrailingRun(lines: seq<string>): (run: seq<string>)
    ensures |run| <= |lines| && run == lines[|lines| - |run|..]
    ensures forall i :: 0 <= i < |run| ==> run[i] != ""
    ensures |run| < |lines| ==> lines[|lines| - |run| - 1] == ""
    decreases |lines|
  {
    if |lines| == 0 || lines[|lines| - 1] == "" then []
    else
      var n := |lines| - 1;
      var front := TrailingRun(lines[..n]);
      assert lines[..n][n - |front|..] == front;
      assert lines[n - |front|..] == front + [lines[n]];
      front + [lines[n]]
  }

  /** `[float(x) for x in d.strip().split()]`: the first token that is not a number
      raises. */
  function ParseLine(tokens: seq<string>): (r: Result<Vector>)
    ensures r.Ok? ==> |r.value| == |tokens| && forall i :: 0 <= i < |tokens| ==> Text.ParseFloat(tokens[i]) == Ok(r.value[i])
    ensures r.Err? ==> r.error.ValueError?
    decreases |tokens|
  {
    if |tokens| == 0 then Ok([])
    else
      match Text.ParseFloat(tokens[0])
      case Err(e) => Err(e)
      case Ok(x) =>
        match ParseLine(tokens[1..])
        case Err(e) => Err(e)
        case Ok(xs) =>
          ParsedCons(Text.ParseFloat, tokens, x, xs);
          Ok([x] + xs)
  }

  /** Parsing the first token and then the rest parses every token. */
  lemma ParsedCons(parse: string -> Result<real>, tokens: seq<string>, x: real, xs: Vector)
    requires |tokens| > 0 && parse(tokens[0]) == Ok(x) && |xs| == |tokens| - 1
    requires forall i :: 0 <= i < |xs| ==> parse(tokens[1..][i]) == Ok(xs[i])
    ensures forall i :: 0 <= i < |tokens| ==> parse(tokens[i]) == Ok(([x] + xs)[i])
  {
    forall i | 0 < i < |tokens| ensures parse(tokens[i]) == Ok(([x] + xs)[i]) {
      assert tokens[i] == tokens[1..][i - 1];
    }
  }

  /** One line of the reply as numbers. */
  function ParseRow(line: string): (r: Result<Vector>)
    ensures r.Err? ==> r.error.ValueError?
  {
    ParseLine(Text.Tokens(Text.Strip(line)))
  }

  /** The rows of the run, parsed from the last line backwards as the loop walks
      them, and put back in their original order. */
  function ParseRows(run: seq<string>): (r: Result<seq<Vector>>)
    ensures r.Ok? ==> |r.value| == |run|
    ensures r.Err? ==> r.error.ValueError?
    decreases |run|
  {
    if |run| == 0 then Ok([])
    else
      var n := |run| - 1;
      match ParseRow(run[n])
      case Err(e) => Err(e)
      case Ok(row) =>
        match ParseRows(run[..n])
        case Err(e) => Err(e)
        case Ok(rows) => Ok(rows + [row])
  }

  /** Unpacking the transposed table into four columns needs at least one row and
      four numbers on every row. */
  const Unpackable: Error := ValueError("cannot unpack the reply into energy, rayleigh, compton, photoelectric")

  function Column(rows: seq<Vector>, j: nat): (c: Vector)
    requires forall i :: 0 <= i < |rows| ==> j < |rows[i]|
    ensures |c| == |rows| && forall i :: 0 <= i < |rows| ==> c[i] == rows[i][j]
  {
    seq(|rows|, i requires 0 <= i < |rows| => rows[i][j])
  }

  /** The step that pulls close energies apart, in MeV. */
  const Eps: real := 0.0000000001

  /** The lines of the reply that hold the table: the trailing run of non-empty
      lines before the final one. */
  function TableLines(txt: string): (run: seq<string>) {
    var lines := Text.Split(txt, '\n');
    TrailingRun(lines[..|lines| - 1])
  }

  /** At least one row, and four numbers on every row. */
  predicate FourColumns(rows: seq<Vector>) {
    |rows| > 0 && forall i :: 0 <= i < |rows| ==> |rows[i]| == 4
  }

  /** The four columns of a table of four numbers a row, the energies pulled apart. */
  function Columns(rows: seq<Vector>): (r: ElementData)
    requires FourColumns(rows)
    ensures |r.energy| == |rows|
    ensures r.rayleigh == Column(rows, 1) && r.compton == Column(rows, 2) && r.photoelectric == Column(rows, 3)
    ensures r.energy == [rows[0][0]] + Nudging.Nudged(Nudging.Within(Eps), Eps, rows[0][0], Column(rows, 0)[1..])
  {
    var energy := Column(rows, 0);
    ElementData([energy[0]] + Nudging.Nudged(Nudging.Within(Eps), Eps, energy[0], energy[1..]),
                Column(rows, 3), Column(rows, 2), Column(rows, 1))
  }

  /** `decode_nist_response(txt)`: the lines before the final one are read from the
      end up to the first empty line; each holds energy, Rayleigh, Compton and
      photoelectric; energies closer than `Eps` to the (already moved) one before are
      raised by `Eps`. */
  function DecodeNistResponse(txt: string): (r: Result<ElementData>)
    ensures ParseRows(TableLines(txt)).Err? ==> r == Err(ParseRows(TableLines(txt)).error)
    ensures ParseRows(TableLines(txt)).Ok? && !FourColumns(ParseRows(TableLines(txt)).value) ==> r == Err(Unpackable)
    ensures ParseRows(TableLines(txt)).Ok? && FourColumns(ParseRows(TableLines(txt)).value) ==>
      r == Ok(Columns(ParseRows(TableLines(txt)).value))
    ensures r.Err? ==> r.error.ValueError?
  {
    match ParseRows(TableLines(txt))
    case Err(e) => Err(e)
    case Ok(rows) => if FourColumns(rows) then Ok(Columns(rows)) else Err(Unpackable)
  }

  /** Lines free of line breaks. */
  predicate Unbroken(lines: seq<string>) {
    forall i :: 0 <= i < |lines| ==> '\n' !in lines[i]
  }

  lemma UnbrokenConcat(a: seq<string>, b: seq<string>)
    requires Unbroken(a) && Unbroken(b)
    ensures Unbroken(a + b)
  {
    forall i | 0 <= i < |a + b| ensures '\n' !in (a + b)[i] {
      if i < |a| { assert (a + b)[i] == a[i]; } else { assert (a + b)[i] == b[i - |a|]; }
    }
  }

  /** Whatever precedes the last empty line of the reply — the page's header and
      notes — is ignored: the decoder reads exactly the table after it. */
  lemma ReadsOnlyTheTable(header: seq<string>, table: seq<string>, last: string)
    requires Unbroken(header) && Unbroken(table) && '\n' !in last
    requires forall i :: 0 <= i < |table| ==> table[i] != ""
    ensures TableLines(Text.Join(header + [""] + table + [last], '\n')) == table
  {
    var body := header + [""] + table;
    var parts := body + [last];
    UnbrokenConcat(header, [""]);
    UnbrokenConcat(header + [""], table);
    UnbrokenConcat(body, [last]);
    Text.SplitJoin(parts, '\n');
    assert parts[..|parts| - 1] == body;
    TableRun(header + [""], table);
  }

  /** The trailing run of lines ending in a run of non-empty lines after an empty one
      is that run. */
  lemma {:induction false} TableRun(front: seq<string>, table: seq<string>)
    requires |front| > 0 && front[|front| - 1] == ""
    requires forall i :: 0 <= i < |table| ==> table[i] != ""
    ensures TrailingRun(front + table) == table
    decreases |table|
  {
    if |table| == 0 {
      assert front + table == front;
    } else {
      var n := |table| - 1;
      assert (front + table)[..|front + table| - 1] == front + table[..n];
      TableRun(front, table[..n]);
      assert table[..n] + [table[n]] == table;
    }
  }
}
