/** The scripts that turn NIST XCOM attenuation tables into the files the simulator
    reads.  XCOM writes the energy in MeV followed by the Rayleigh, Compton and
    photoelectric coefficients; the simulator wants the energy in keV followed by
    the photoelectric, Rayleigh and Compton coefficients, and no two neighbouring
    energies equal.  `clean_format_xcom.py` and `att-data/full_clean.py` do all of
    it for a directory of tables, `cleaner.py` only the unit and column change on one
    file, and `second_clean.py` only the separation of repeated energies.

    A file is its parsed numbers, one row per line, together with the separator it
    was written with; turning text into numbers and back is not modelled. */
module XcomCleaning {
  import opened Outcomes
  import opened Linear
  import Nudging

  type Table = seq<seq<real>>

  /** What `eng[i] += 1e-8` adds to a repeated energy. */
  const Nudge: real := 0.00000001

  /** `last_e = -1`: the value the first energy is compared with. */
  const Before: real := -1.0

  /** MeV to keV. */
  const KevPerMev: real := 1000.0

  // ---------------------------------------------------------------- reading a table

  /** `np.loadtxt` skips blank lines: the rows that hold at least one number. */
  function NonBlank(rows: Table): (t: Table)
    ensures forall i :: 0 <= i < |t| ==> |t[i]| > 0
    ensures |t| <= |rows|
  {
    if |rows| == 0 then []
    else if |rows[0]| == 0 then NonBlank(rows[1..])
    else [rows[0]] + NonBlank(rows[1..])
  }

  /** The rows read are exactly the rows of the file that are not blank. */
  lemma {:induction false} NonBlankMembers(rows: Table)
    ensures forall row :: row in NonBlank(rows) <==> row in rows && |row| > 0
  {
    if |rows| > 0 {
      NonBlankMembers(rows[1..]);
      assert rows == [rows[0]] + rows[1..];
    }
  }

  /** The four names `np.loadtxt(..., unpack=True)` is unpacked into: four numbers
      when the squeezed array is one-dimensional, four columns when it is a table. */
  datatype Unpacked =
    | Scalars(first: real, second: real, third: real, fourth: real)
    | Columns(a: Vector, b: Vector, c: Vector, d: Vector)

  const ColumnCountChanged: Error := ValueError("the number of columns changed")

  /** Unpacking `k` values into four names. */
  function UnpackError(k: nat): Error {
    if k < 4 then ValueError("not enough values to unpack") else ValueError("too many values to unpack")
  }

  /** `a, b, c, d = np.loadtxt(f, unpack=True)` on the rows that hold numbers. */
  function Load(rows: Table): Result<Unpacked> {
    Unpack(NonBlank(rows))
  }

  /** Unpacking the array read from the non-blank rows `t`.  Ragged rows are
      refused.  The array is squeezed: a single row or a single column becomes
      one-dimensional and must then hold four numbers, a single number cannot be
      unpacked at all, and otherwise the transposed table must have four rows, that
      is the file four columns.  An empty file gives an empty array, which has too
      few values. */
  function Unpack(t: Table): (r: Result<Unpacked>)
    ensures !Rectangular(t) ==> r == Err(ColumnCountChanged)
    ensures Rectangular(t) && |t| == 0 ==> r == Err(UnpackError(0))
    ensures Rectangular(t) && |t| == 1 && Width(t) == 1 ==> r == Err(TypeError)
    ensures r.Ok? <==> Rectangular(t) && (if |t| == 1 then Width(t) == 4 else if Width(t) == 1 then |t| == 4 else |t| >= 2 && Width(t) == 4)
    ensures r.Ok? && r.value.Columns? ==> |r.value.a| == |r.value.b| == |r.value.c| == |r.value.d| == |t|
    ensures r.Ok? && r.value.Columns? ==> |t| >= 2 && t == Rows(r.value.a, r.value.b, r.value.c, r.value.d)
    ensures r.Ok? && r.value.Scalars? ==> (|t| == 1 && Width(t) == 4) || (|t| == 4 && Width(t) == 1)
  {
    if !Rectangular(t) then Err(ColumnCountChanged)
    else if |t| == 0 then Err(UnpackError(0))
    else
      var n, w := |t|, Width(t);
      if n == 1 && w == 1 then Err(TypeError)
      else if n == 1 then
        if w == 4 then Ok(Scalars(t[0][0], t[0][1], t[0][2], t[0][3])) else Err(UnpackError(w))
      else if w == 1 then
        if n == 4 then Ok(Scalars(t[0][0], t[1][0], t[2][0], t[3][0])) else Err(UnpackError(n))
      else if w == 4 then
        var u := Columns(Column(t, 0), Column(t, 1), Column(t, 2), Column(t, 3));
        RowsOfColumns(t);
        Ok(u)
      else Err(UnpackError(w))
  }

  /** The four numbers unpacked from a squeezed array are its entries in order:
      along the single row, or down the single column. */
  lemma UnpackScalars(t: Table)
    requires Unpack(t).Ok? && Unpack(t).value.Scalars?
    ensures var u := Unpack(t).value;
      var four := [u.first, u.second, u.third, u.fourth];
      || (|t| == 1 && t[0] == four)
      || (|t| == 4 && forall i :: 0 <= i < 4 ==> t[i] == [four[i]])
  {
    var u := Unpack(t).value;
    var four := [u.first, u.second, u.third, u.fourth];
    if |t| == 1 {
      assert t[0] == [t[0][0], t[0][1], t[0][2], t[0][3]];
    } else {
      forall i | 0 <= i < 4 ensures t[i] == [four[i]] {
        assert t[i] == [t[i][0]];
      }
    }
  }

  // ---------------------------------------------------------------- writing a table

  /** `np.array([a, b, c, d]).transpose()`: row `i` holds the `i`-th entry of each. */
  function Rows(a: Vector, b: Vector, c: Vector, d: Vector): (t: Table)
    requires |a| == |b| == |c| == |d|
    ensures IsMatrix(t, |a|, 4)
    ensures forall i :: 0 <= i < |a| ==> t[i] == [a[i], b[i], c[i], d[i]]
  {
    seq(|a|, i requires 0 <= i < |a| => [a[i], b[i], c[i], d[i]])
  }

  /** A four-column table is the transpose of its columns. */
  lemma RowsOfColumns(t: Table)
    requires IsMatrix(t, |t|, 4)
    ensures t == Rows(Column(t, 0), Column(t, 1), Column(t, 2), Column(t, 3))
  {
    var u := Rows(Column(t, 0), Column(t, 1), Column(t, 2), Column(t, 3));
    forall i | 0 <= i < |t| ensures u[i] == t[i] {
      assert t[i] == [t[i][0], t[i][1], t[i][2], t[i][3]];
    }
  }

  /** Reading back what was written: four columns of at least two entries come back
      as those columns, and a single row comes back as its four numbers. */
  lemma LoadRows(a: Vector, b: Vector, c: Vector, d: Vector)
    requires |a| == |b| == |c| == |d| >= 1
    ensures |a| >= 2 ==> Load(Rows(a, b, c, d)) == Ok(Columns(a, b, c, d))
    ensures |a| == 1 ==> Load(Rows(a, b, c, d)) == Ok(Scalars(a[0], b[0], c[0], d[0]))
  {
    var t := Rows(a, b, c, d);
    NonBlankKeeps(t);
    assert Width(t) == 4;
    if |a| >= 2 {
      var u := Load(t).value;
      assert Rows(u.a, u.b, u.c, u.d) == t;
      RowsInjective(u.a, u.b, u.c, u.d, a, b, c, d);
    }
  }

  /** A table without blank rows is read as it is. */
  lemma {:induction false} NonBlankKeeps(rows: Table)
    requires forall i :: 0 <= i < |rows| ==> |rows[i]| > 0
    ensures NonBlank(rows) == rows
  {
    if |rows| > 0 {
      NonBlankKeeps(rows[1..]);
    }
  }

  lemma RowsInjective(a: Vector, b: Vector, c: Vector, d: Vector, a': Vector, b': Vector, c': Vector, d': Vector)
    requires |a| == |b| == |c| == |d| && |a'| == |b'| == |c'| == |d'|
    requires Rows(a, b, c, d) == Rows(a', b', c', d')
    ensures a == a' && b == b' && c == c' && d == d'
  {
    var t := Rows(a, b, c, d);
    assert |a| == |t| == |a'|;
    forall i | 0 <= i < |a| ensures a[i] == a'[i] && b[i] == b'[i] && c[i] == c'[i] && d[i] == d'[i] {
      assert t[i] == [a[i], b[i], c[i], d[i]] == [a'[i], b'[i], c'[i], d'[i]];
    }
  }

  /** `np.savetxt` of a one-dimensional array: one number per line. */
  function OnePerLine(v: Vector): (t: Table)
    ensures IsMatrix(t, |v|, 1) && forall i :: 0 <= i < |v| ==> t[i][0] == v[i]
  {
    seq(|v|, i requires 0 <= i < |v| => [v[i]])
  }

  // ---------------------------------------------------------------- the transforms

  /** The duplicate-energy loop of the cleaning scripts, as written: walking the
      energies in place, an energy equal to the last processed one is raised by
      `1e-8`, and the processed value becomes the one the next is compared with. */
  method SeparateRepeats(energies: Vector) returns (eng: Vector)
    ensures |eng| == |energies|
    ensures |eng| > 0 ==> eng[0] == (if energies[0] == Before then energies[0] + Nudge else energies[0])
    ensures forall i :: 0 < i < |eng| ==> eng[i] == (if energies[i] == eng[i - 1] then energies[i] + Nudge else energies[i])
    ensures eng == Nudging.Nudged(Nudging.Equal, Nudge, Before, energies)
  {
    eng := energies;
    var last := Before;
    var i := 0;
    while i < |eng|
      invariant 0 <= i <= |eng| == |energies|
      invariant i > 0 ==> eng[0] == (if energies[0] == Before then energies[0] + Nudge else energies[0])
      invariant forall k :: 0 < k < i ==> eng[k] == (if energies[k] == eng[k - 1] then energies[k] + Nudge else energies[k])
      invariant forall k :: i <= k < |eng| ==> eng[k] == energies[k]
      invariant last == if i == 0 then Before else eng[i - 1]
    {
      if eng[i] == last {
        eng := eng[i := eng[i] + Nudge];
      }
      last := eng[i];
      i := i + 1;
    }
    Nudging.NudgedUnique(Nudging.Equal, Nudge, Before, energies, eng);
  }

  /** The cleaning of one XCOM table (`clean_format_xcom.py` and `full_clean.py`):
      read (energy, Rayleigh, Compton, photoelectric), take the energy to keV,
      separate repeated energies, and write (energy, photoelectric, Rayleigh,
      Compton).  A single data row is read as four numbers, and indexing the
      energy then fails. */
  function Clean(rows: Table): (r: Result<Table>)
    ensures Load(rows).Err? ==> r == Err(Load(rows).error)
    ensures Load(rows).Ok? && Load(rows).value.Scalars? ==> r == Err(IndexError)
    ensures r.Ok? <==> Load(rows).Ok? && Load(rows).value.Columns?
  {
    match Load(rows)
    case Err(e) => Err(e)
    case Ok(u) =>
      if u.Scalars? then Err(IndexError)
      else Ok(Rows(Nudging.Nudged(Nudging.Equal, Nudge, Before, Scale(KevPerMev, u.a)), u.d, u.b, u.c))
  }

  /** What the cleaning writes, row by row against the rows it read: one row out
      per row in, the coefficients reordered, each energy in keV, nudged by at most
      `1e-8`, and no energy equal to the one before it. */
  lemma CleanedRows(rows: Table)
    requires Clean(rows).Ok?
    ensures var t, out := NonBlank(rows), Clean(rows).value;
      && IsMatrix(out, |t|, 4)
      && (forall i :: 0 <= i < |t| ==> out[i][1] == t[i][3] && out[i][2] == t[i][1] && out[i][3] == t[i][2])
      && (forall i :: 0 <= i < |t| ==> out[i][0] == KevPerMev * t[i][0] || out[i][0] == KevPerMev * t[i][0] + Nudge)
      && out[0][0] != Before
      && (forall i :: 0 < i < |t| ==> out[i][0] != out[i - 1][0])
  {
    var u := Load(rows).value;
    CleanedColumns(u.a, u.b, u.c, u.d);
  }

  /** The same, stated on the columns read. */
  lemma CleanedColumns(a: Vector, b: Vector, c: Vector, d: Vector)
    requires |a| == |b| == |c| == |d| >= 1
    ensures var t := Rows(a, b, c, d);
      var out := Rows(Nudging.Nudged(Nudging.Equal, Nudge, Before, Scale(KevPerMev, a)), d, b, c);
      && IsMatrix(out, |t|, 4)
      && (forall i :: 0 <= i < |t| ==> out[i][1] == t[i][3] && out[i][2] == t[i][1] && out[i][3] == t[i][2])
      && (forall i :: 0 <= i < |t| ==> out[i][0] == KevPerMev * t[i][0] || out[i][0] == KevPerMev * t[i][0] + Nudge)
      && out[0][0] != Before
      && (forall i :: 0 < i < |t| ==> out[i][0] != out[i - 1][0])
  {
    var kev := Scale(KevPerMev, a);
    var eng := Nudging.Nudged(Nudging.Equal, Nudge, Before, kev);
    var t := Rows(a, b, c, d);
    var out := Rows(eng, d, b, c);
    Nudging.EqualNeverRepeats(Nudge, Before, kev);
    NudgeBounds(kev);
    forall i | 0 <= i < |t|
      ensures out[i][0] == KevPerMev * t[i][0] || out[i][0] == KevPerMev * t[i][0] + Nudge
    {
      assert t[i][0] == a[i] && out[i][0] == eng[i] && kev[i] == KevPerMev * a[i];
    }
  }

  /** Each separated energy is the input or the input plus the nudge. */
  lemma NudgeBounds(xs: Vector)
    ensures var r := Nudging.Nudged(Nudging.Equal, Nudge, Before, xs);
      forall i :: 0 <= i < |xs| ==> r[i] == xs[i] || r[i] == xs[i] + Nudge
  {
    var r := Nudging.Nudged(Nudging.Equal, Nudge, Before, xs);
    forall i | 0 <= i < |xs| ensures r[i] == xs[i] || r[i] == xs[i] + Nudge {
      if i > 0 {
        assert r[i] == (if xs[i] == r[i - 1] then xs[i] + Nudge else xs[i]);
      }
    }
  }

  /** Three rows of one energy `a` MeV come out at `1000a`, `1000a + 1e-8` and
      `1000a` keV: neighbours differ, but the energies need not increase. */
  lemma CleanTriple(a: real, ray: real, com: real, phot: real)
    requires KevPerMev * a != Before
    ensures Clean(Rows([a, a, a], [ray, ray, ray], [com, com, com], [phot, phot, phot]))
      == Ok(Rows([KevPerMev * a, KevPerMev * a + Nudge, KevPerMev * a], [phot, phot, phot], [ray, ray, ray], [com, com, com]))
  {
    LoadRows([a, a, a], [ray, ray, ray], [com, com, com], [phot, phot, phot]);
    assert Scale(KevPerMev, [a, a, a]) == [KevPerMev * a, KevPerMev * a, KevPerMev * a];
    Nudging.TripleExample(KevPerMev * a, Nudge, Before);
  }

  /** `second_clean.py` on a table already in simulator order: read (energy,
      photoelectric, Rayleigh, Compton), separate repeated energies, and write the
      columns back in the same order. */
  function SecondClean(rows: Table): (r: Result<Table>)
    ensures Load(rows).Err? ==> r == Err(Load(rows).error)
    ensures Load(rows).Ok? && Load(rows).value.Scalars? ==> r == Err(IndexError)
    ensures r.Ok? <==> Load(rows).Ok? && Load(rows).value.Columns?
  {
    match Load(rows)
    case Err(e) => Err(e)
    case Ok(u) =>
      if u.Scalars? then Err(IndexError)
      else Ok(Rows(Nudging.Nudged(Nudging.Equal, Nudge, Before, u.a), u.b, u.c, u.d))
  }

  /** What the second cleaning writes: one row out per row in, the coefficients as
      they were, and no energy equal to the one before it. */
  lemma SecondCleanedRows(rows: Table)
    requires SecondClean(rows).Ok?
    ensures var t, out := NonBlank(rows), SecondClean(rows).value;
      && IsMatrix(out, |t|, 4)
      && (forall i :: 0 <= i < |t| ==> out[i][1..] == t[i][1..])
      && (forall i :: 0 < i < |t| ==> out[i][0] != out[i - 1][0])
  {
    var t, out := NonBlank(rows), SecondClean(rows).value;
    var u := Load(rows).value;
    var eng := Nudging.Nudged(Nudging.Equal, Nudge, Before, u.a);
    assert t == Rows(u.a, u.b, u.c, u.d);
    assert out == Rows(eng, u.b, u.c, u.d);
    Nudging.EqualNeverRepeats(Nudge, Before, u.a);
    forall i | 0 <= i < |t| ensures out[i][1..] == t[i][1..] {
      assert out[i][1..] == [u.b[i], u.c[i], u.d[i]] == t[i][1..];
    }
  }

  /** A table the cleaning wrote has no repeated energies left, so running
      `second_clean.py` over it changes nothing. */
  lemma SecondCleanAfterClean(rows: Table)
    requires Clean(rows).Ok?
    ensures SecondClean(Clean(rows).value) == Clean(rows)
  {
    var out := Clean(rows).value;
    var u := Load(rows).value;
    var eng := Nudging.Nudged(Nudging.Equal, Nudge, Before, Scale(KevPerMev, u.a));
    assert out == Rows(eng, u.d, u.b, u.c);
    LoadRows(eng, u.d, u.b, u.c);
    Nudging.EqualNeverRepeats(Nudge, Before, Scale(KevPerMev, u.a));
    Nudging.NudgedUnchanged(Nudge, Before, eng);
  }

  /** `cleaner.py`: read (energy, Rayleigh, Compton, photoelectric), take the energy
      to keV and write (energy, photoelectric, Rayleigh, Compton), repeats and all.
      Four numbers read from a single row come out one per line. */
  function Cleaner(rows: Table): (r: Result<Table>)
    ensures Load(rows).Err? ==> r == Err(Load(rows).error)
    ensures r.Ok? <==> Load(rows).Ok?
  {
    match Load(rows)
    case Err(e) => Err(e)
    case Ok(u) =>
      if u.Scalars? then Ok(OnePerLine([KevPerMev * u.first, u.fourth, u.second, u.third]))
      else Ok(Rows(Scale(KevPerMev, u.a), u.d, u.b, u.c))
  }

  /** What `cleaner.py` writes: for a table, each row with its energy in keV and its
      coefficients reordered; for four numbers, the same four one per line. */
  lemma CleanerRows(rows: Table)
    requires Cleaner(rows).Ok?
    ensures var t, out, u := NonBlank(rows), Cleaner(rows).value, Load(rows).value;
      && (u.Columns? ==>
            && IsMatrix(out, |t|, 4)
            && forall i :: 0 <= i < |t| ==> out[i] == [KevPerMev * t[i][0], t[i][3], t[i][1], t[i][2]])
      && (u.Scalars? ==> out == [[KevPerMev * u.first], [u.fourth], [u.second], [u.third]])
  {
    var u := Load(rows).value;
    if u.Columns? {
      CleanerColumns(u.a, u.b, u.c, u.d);
    }
  }

  /** The same, stated on the columns read. */
  lemma CleanerColumns(a: Vector, b: Vector, c: Vector, d: Vector)
    requires |a| == |b| == |c| == |d|
    ensures var t, out := Rows(a, b, c, d), Rows(Scale(KevPerMev, a), d, b, c);
      && IsMatrix(out, |t|, 4)
      && forall i :: 0 <= i < |t| ==> out[i] == [KevPerMev * t[i][0], t[i][3], t[i][1], t[i][2]]
  {
    var t, out := Rows(a, b, c, d), Rows(Scale(KevPerMev, a), d, b, c);
    forall i | 0 <= i < |t| ensures out[i] == [KevPerMev * t[i][0], t[i][3], t[i][1], t[i][2]] {
      assert t[i] == [a[i], b[i], c[i], d[i]];
    }
  }

  /** The full cleaning is `cleaner.py` followed by `second_clean.py`. */
  lemma CleanIsCleanerThenSecondClean(rows: Table)
    requires Load(rows).Ok? && Load(rows).value.Columns?
    ensures Cleaner(rows).Ok? && SecondClean(Cleaner(rows).value) == Clean(rows)
  {
    var u := Load(rows).value;
    var kev := Scale(KevPerMev, u.a);
    LoadRows(kev, u.d, u.b, u.c);
  }

  // ---------------------------------------------------------------- the scripts

  /** How a file's numbers are separated: `np.savetxt` writes spaces unless told
      otherwise, and `cleaner.py` asks for tabs. */
  datatype Separator = Space | Tab

  datatype File = File(separator: Separator, rows: Table)

  /** Files by path. */
  type Files = map<string, File>

  const CannotConvert: Error := ValueError("could not convert string to float")

  /** `np.loadtxt(f, delimiter='\t')`: numbers separated by spaces are one field
      that is not a number, unless a line holds a single number. */
  function ReadTabs(f: File): (r: Result<Table>)
    ensures r.Ok? <==> f.separator == Tab || forall i :: 0 <= i < |f.rows| ==> |f.rows[i]| <= 1
    ensures r.Ok? ==> r.value == f.rows
  {
    if f.separator == Tab || forall i :: 0 <= i < |f.rows| ==> |f.rows[i]| <= 1 then Ok(f.rows)
    else Err(CannotConvert)
  }

  function NoSuchFile(path: string): Error {
    OSError("No such file or directory: " + path)
  }

  /** `second_clean.py FILE`: the file is cleaned in place; every other file stays as
      it was. */
  function SecondCleanScript(argv: seq<string>, files: Files): (r: Result<Files>)
    ensures |argv| < 2 ==> r == Err(IndexError)
    ensures |argv| >= 2 && argv[1] !in files ==> r == Err(NoSuchFile(argv[1]))
    ensures r.Ok? <==> |argv| >= 2 && argv[1] in files && SecondClean(files[argv[1]].rows).Ok?
    ensures r.Ok? ==>
      && r.value.Keys == files.Keys
      && r.value[argv[1]] == File(Space, SecondClean(files[argv[1]].rows).value)
      && forall p :: p in files && p != argv[1] ==> r.value[p] == files[p]
  {
    if |argv| < 2 then Err(IndexError)
    else if argv[1] !in files then Err(NoSuchFile(argv[1]))
    else
      match SecondClean(files[argv[1]].rows)
      case Err(e) => Err(e)
      case Ok(out) => Ok(files[argv[1] := File(Space, out)])
  }

  /** `cleaner.py FILE`: the tab-separated file is converted in place and stays
      tab-separated; every other file stays as it was. */
  function CleanerScript(argv: seq<string>, files: Files): (r: Result<Files>)
    ensures |argv| < 2 ==> r == Err(IndexError)
    ensures |argv| >= 2 && argv[1] !in files ==> r == Err(NoSuchFile(argv[1]))
    ensures |argv| >= 2 && argv[1] in files && ReadTabs(files[argv[1]]).Err? ==> r == Err(CannotConvert)
    ensures r.Ok? <==> |argv| >= 2 && argv[1] in files && ReadTabs(files[argv[1]]).Ok? && Cleaner(files[argv[1]].rows).Ok?
    ensures r.Ok? ==>
      && r.value.Keys == files.Keys
      && r.value[argv[1]] == File(Tab, Cleaner(files[argv[1]].rows).value)
      && forall p :: p in files && p != argv[1] ==> r.value[p] == files[p]
  {
    if |argv| < 2 then Err(IndexError)
    else if argv[1] !in files then Err(NoSuchFile(argv[1]))
    else
      match ReadTabs(files[argv[1]])
      case Err(e) => Err(e)
      case Ok(rows) =>
        match Cleaner(rows)
        case Err(e) => Err(e)
        case Ok(out) => Ok(files[argv[1] := File(Tab, out)])
  }

  /** An entry of the raw-data directory, in `os.listdir` order. */
  datatype Entry = DataFile(rows: Table) | Directory

  /** How far a directory run got: the files written, in order, and the exception
      that ended it early, if one did. */
  datatype Run = Run(written: seq<(string, Table)>, stop: Option<Error>)

  function AlreadyThere(name: string): Error {
    OSError("File " + name + " exists already. Delete it and try again (make sure you're in the right directory")
  }

  const IsADirectory: Error := OSError("Is a directory")

  /** `os.path.join(directory, name)` for a relative name. */
  function Join(directory: string, name: string): string {
    if |directory| == 0 || directory[|directory| - 1] == '/' then directory + name else directory + "/" + name
  }

  /** The cleaning of one listed entry: a sub-directory cannot be read. */
  function CleanEntry(entry: Entry): (r: Result<Table>)
    ensures entry.Directory? ==> r == Err(IsADirectory)
    ensures entry.DataFile? ==> r == Clean(entry.rows)
  {
    match entry
    case Directory => Err(IsADirectory)
    case DataFile(rows) => Clean(rows)
  }

  /** Whether the loop gets past a listed entry: no file of that name in the working
      directory, the entry cleans, and the output directory exists to write into. */
  predicate Passes(entry: (string, Entry), workingDir: set<string>, outExists: bool) {
    entry.0 !in workingDir && CleanEntry(entry.1).Ok? && outExists
  }

  /** The loop over `os.listdir(raw_data_dir)`: for each name, a file of that name in
      the working directory raises OSError, then the table is cleaned and saved
      under the output directory.  The first failure ends the run, after the files
      before it were written. */
  function CleanEach(listing: seq<(string, Entry)>, workingDir: set<string>, outDir: string, outExists: bool): (r: Run)
    ensures |r.written| <= |listing|
    ensures r.stop.None? <==> |r.written| == |listing|
    decreases |listing|
  {
    if |listing| == 0 then Run([], None)
    else
      var (name, entry) := listing[0];
      if name in workingDir then Run([], Some(AlreadyThere(name)))
      else
        match CleanEntry(entry)
        case Err(e) => Run([], Some(e))
        case Ok(out) =>
          if !outExists then Run([], Some(NoSuchFile(Join(outDir, name))))
          else
            var rest := CleanEach(listing[1..], workingDir, outDir, outExists);
            Run([(Join(outDir, name), out)] + rest.written, rest.stop)
  }

  /** The reason the loop gives for not getting past an entry, in the order the
      source checks: the name taken, the table not cleaning, the directory missing. */
  function Refusal(entry: (string, Entry), workingDir: set<string>, outDir: string): Error {
    if entry.0 in workingDir then AlreadyThere(entry.0)
    else if CleanEntry(entry.1).Err? then CleanEntry(entry.1).error
    else NoSuchFile(Join(outDir, entry.0))
  }

  /** A run writes exactly the entries before the first one it cannot get past,
      each cleaned, under its own name in the output directory, and stops with that
      entry's refusal. */
  lemma {:induction false} CleanEachStopsAtFirstFailure(listing: seq<(string, Entry)>, workingDir: set<string>, outDir: string, outExists: bool)
    ensures var r := CleanEach(listing, workingDir, outDir, outExists);
      && (forall i :: 0 <= i < |r.written| ==>
            && Passes(listing[i], workingDir, outExists)
            && r.written[i] == (Join(outDir, listing[i].0), CleanEntry(listing[i].1).value))
      && (r.stop.Some? ==>
            && !Passes(listing[|r.written|], workingDir, outExists)
            && r.stop.value == Refusal(listing[|r.written|], workingDir, outDir))
    decreases |listing|
  {
    if |listing| > 0 && Passes(listing[0], workingDir, outExists) {
      var rest := listing[1..];
      CleanEachStopsAtFirstFailure(rest, workingDir, outDir, outExists);
      var r := CleanEach(listing, workingDir, outDir, outExists);
      var r' := CleanEach(rest, workingDir, outDir, outExists);
      assert r.written == [(Join(outDir, listing[0].0), CleanEntry(listing[0].1).value)] + r'.written;
      forall i | 0 < i < |r.written| ensures listing[i] == rest[i - 1] && r.written[i] == r'.written[i - 1] { }
    }
  }

  /** `clean_format_xcom.py RAW OUT`: without both arguments it prints its usage and
      exits with status -1 having written nothing; a missing raw directory cannot be
      listed; otherwise every listed table is cleaned into `OUT`. */
  function CleanFormatXcom(argv: seq<string>, directories: map<string, seq<(string, Entry)>>,
                           workingDir: set<string>): (r: Run)
    ensures |argv| < 3 ==> r == Run([], Some(SystemExit(-1)))
    ensures |argv| >= 3 && argv[1] !in directories ==> r == Run([], Some(NoSuchFile(argv[1])))
    ensures |argv| >= 3 && argv[1] in directories ==>
      r == CleanEach(directories[argv[1]], workingDir, argv[2], argv[2] in directories)
  {
    if |argv| < 3 then Run([], Some(SystemExit(-1)))
    else if argv[1] !in directories then Run([], Some(NoSuchFile(argv[1])))
    else CleanEach(directories[argv[1]], workingDir, argv[2], argv[2] in directories)
  }

  /** `att-data/full_clean.py`: the same loop from `nist` into `cleaned`. */
  function FullClean(directories: map<string, seq<(string, Entry)>>, workingDir: set<string>): (r: Run)
    ensures "nist" !in directories ==> r == Run([], Some(NoSuchFile("nist")))
    ensures "nist" in directories ==> r == CleanFormatXcom(["full_clean.py", "nist", "cleaned"], directories, workingDir)
  {
    if "nist" !in directories then Run([], Some(NoSuchFile("nist")))
    else CleanEach(directories["nist"], workingDir, "cleaned", "cleaned" in directories)
  }

  /** A run over tables that all clean, none shadowed by a file in the working
      directory, into an existing directory writes every one of them, in listing
      order, each under its own name. */
  lemma {:induction false} CleanEachWritesAll(listing: seq<(string, Entry)>, workingDir: set<string>, outDir: string)
    requires forall i :: 0 <= i < |listing| ==> listing[i].0 !in workingDir && CleanEntry(listing[i].1).Ok?
    ensures var r := CleanEach(listing, workingDir, outDir, true);
      && r.stop.None?
      && forall i :: 0 <= i < |listing| ==> r.written[i] == (Join(outDir, listing[i].0), CleanEntry(listing[i].1).value)
    decreases |listing|
  {
    if |listing| > 0 {
      var rest := listing[1..];
      assert forall i :: 0 <= i < |rest| ==> rest[i] == listing[i + 1];
      CleanEachWritesAll(rest, workingDir, outDir);
      var r := CleanEach(listing, workingDir, outDir, true);
      var r' := CleanEach(rest, workingDir, outDir, true);
      assert Passes(listing[0], workingDir, true);
      assert r.written == [(Join(outDir, listing[0].0), CleanEntry(listing[0].1).value)] + r'.written;
    }
  }
}
