/** The layer-by-layer atmospheric attenuator of `adetsim/atmoatt`: the lookup table
    row nearest an altitude, the elemental composition of a row (molecules counted
    per atom, shares normalised), the layer built at an altitude, and the walk from
    the top of the atmosphere down in which each layer attenuates what the layer
    above let through. */
module AtmosphericAttenuator {
  import opened Outcomes
  import opened Linear
  import opened Dicts
  import Text
  import opened AtmosphereTable
  import RealMath
  import FlareSpectrum
  import VectorStack
  import BinnedMaterial
  import Dispersion

  // ---------------------------------------------------------------- the nearest row

  function Distance(a: real, q: real): real {
    if a >= q then a - q else q - a
  }

  /** `i` is the first index among the first `n` whose altitude is closest to `q`. */
  predicate FirstNearest(alts: Vector, q: real, n: nat, i: nat)
    requires n <= |alts|
  {
    && i < n
    && (forall k :: 0 <= k < n ==> Distance(alts[i], q) <= Distance(alts[k], q))
    && (forall k :: 0 <= k < i ==> Distance(alts[i], q) < Distance(alts[k], q))
  }

  /** The first nearest altitude among the first `n`. */
  function NearestIn(alts: Vector, q: real, n: nat): (i: nat)
    requires 0 < n <= |alts|
    ensures FirstNearest(alts, q, n, i)
  {
    if n == 1 then 0
    else
      var b := NearestIn(alts, q, n - 1);
      if Distance(alts[n - 1], q) < Distance(alts[b], q) then n - 1 else b
  }

  /** There is only one first nearest index. */
  lemma FirstNearestUnique(alts: Vector, q: real, i: nat, j: nat)
    requires FirstNearest(alts, q, |alts|, i) && FirstNearest(alts, q, |alts|, j)
    ensures i == j
  {
    assert Distance(alts[i], q) <= Distance(alts[j], q) && Distance(alts[j], q) <= Distance(alts[i], q);
  }

  /** `diffs.min()` of an empty table. */
  const EmptyMinimum: Error := ValueError("zero-size array to reduction operation minimum which has no identity")

  /** The index `_get_altitude_table_row` picks: the first one minimising
      `|altitude - q|`.  An empty column has no minimum; a NaN altitude makes the
      minimum NaN, which no difference equals, so there is no first match. */
  function RowIndex(alts: seq<Num>, q: real): (r: Result<nat>)
    ensures r.Ok? <==> |alts| > 0 && AllReal(alts)
    ensures |alts| == 0 ==> r == Err(EmptyMinimum)
    ensures |alts| > 0 && !AllReal(alts) ==> r == Err(IndexError)
    ensures r.Ok? ==> FirstNearest(Reals(alts), q, |alts|, r.value)
  {
    if |alts| == 0 then Err(EmptyMinimum)
    else if !AllReal(alts) then Err(IndexError)
    else NearestIndex(Reals(alts), q)
  }

  function NearestIndex(alts: Vector, q: real): (r: Result<nat>)
    requires |alts| > 0
    ensures r.Ok? && FirstNearest(alts, q, |alts|, r.value)
  {
    Ok(NearestIn(alts, q, |alts|))
  }

  /** An altitude present in the table is found exactly, at its first occurrence. */
  lemma NearestOfPresent(alts: Vector, q: real, k: nat)
    requires k < |alts| && alts[k] == q && q !in alts[..k]
    ensures NearestIn(alts, q, |alts|) == k
  {
    var i := NearestIn(alts, q, |alts|);
    assert Distance(alts[k], q) == 0.0;
    assert Distance(alts[i], q) <= Distance(alts[k], q);
    assert forall t :: 0 <= t < k ==> alts[..k][t] == alts[t];
  }

  // ---------------------------------------------------------------- composition

  /** The digit character of a number below ten. */
  function DigitChar(d: nat): char
    requires d < 10
  {
    ('0' as int + d) as char
  }

  /** A column name minus `abund`: with a trailing digit that digit is the atom count
      and the element the rest, otherwise the count is one.  An empty remainder has no
      last character. */
  function ParseColumn(column: string): (r: Result<(string, nat)>)
    ensures var e := Text.RemoveAll(column, "abund");
      && (r.Err? <==> e == [])
      && (r.Err? ==> r.error == IndexError)
      && (r.Ok? ==> r.value.1 < 10 && e == r.value.0 + (if Text.IsDigit(e[|e| - 1]) then [DigitChar(r.value.1)] else []))
      && (r.Ok? && !Text.IsDigit(e[|e| - 1]) ==> r.value.1 == 1)
  {
    var e := Text.RemoveAll(column, "abund");
    if e == [] then Err(IndexError)
    else
      var last := e[|e| - 1];
      if Text.IsDigit(last) then
        var d := last as int - '0' as int;
        assert DigitChar(d) == last;
        Ok((e[..|e| - 1], d))
      else Ok((e, 1))
  }

  /** Every column name of the row leaves a non-empty element name. */
  predicate Parses(row: seq<(string, Num)>) {
    forall k :: 0 <= k < |row| ==> ParseColumn(row[k].0).Ok?
  }

  function Element(column: string): string
    requires ParseColumn(column).Ok?
  {
    ParseColumn(column).value.0
  }

  /** What the entry adds to its element: the atom count times the abundance. */
  function Share(entry: (string, Num)): Num
    requires ParseColumn(entry.0).Ok?
  {
    Times(ParseColumn(entry.0).value.1 as real, entry.1)
  }

  /** Reference definition: the sum of the shares of every entry of `row` whose
      element is `e`. */
  function Contribution(row: seq<(string, Num)>, e: string): Num
    requires Parses(row)
    decreases |row|
  {
    if |row| == 0 then Real(0.0)
    else
      var n := |row| - 1;
      var front := Contribution(row[..n], e);
      if Element(row[n].0) == e then Plus(front, Share(row[n])) else front
  }

  /** The first loop of `_compute_layer_composition`: a dictionary from element to
      the summed shares, elements in order of first appearance. */
  function Accumulate(row: seq<(string, Num)>): (r: Result<Dict<Num>>)
    ensures r.Err? <==> !Parses(row)
    ensures r.Err? ==> r.error == IndexError
    decreases |row|
  {
    if |row| == 0 then Ok([])
    else
      var n := |row| - 1;
      assert Parses(row) <==> Parses(row[..n]) && ParseColumn(row[n].0).Ok? by {
        assert forall k :: 0 <= k < n ==> row[..n][k] == row[k];
      }
      match Accumulate(row[..n])
      case Err(e) => Err(e)
      case Ok(comp) =>
        match ParseColumn(row[n].0)
        case Err(e) => Err(e)
        case Ok(parsed) =>
          var element := parsed.0;
          var add := Times(parsed.1 as real, row[n].1);
          if element in Keys(comp) then Ok(Put(comp, element, Plus(Get(comp, element), add)))
          else Ok(Put(comp, element, add))
  }

  /** Some entry of the row names element `e`. */
  ghost predicate Named(row: seq<(string, Num)>, e: string)
    requires Parses(row)
  {
    exists k :: 0 <= k < |row| && Element(row[k].0) == e
  }

  /** `comp` has one entry per element named in the row, holding that element's
      contribution. */
  ghost predicate Faithful(row: seq<(string, Num)>, comp: Dict<Num>)
    requires Parses(row)
  {
    && DistinctKeys(comp)
    && (forall e :: e in Keys(comp) <==> Named(row, e))
    && (forall i :: 0 <= i < |comp| ==> comp[i].1 == Contribution(row, comp[i].0))
  }

  /** The accumulated dictionary has one entry per element named in the row, holding
      that element's contribution. */
  lemma {:induction false} AccumulateContributions(row: seq<(string, Num)>)
    requires Parses(row)
    ensures Accumulate(row).Ok? && Faithful(row, Accumulate(row).value)
    decreases |row|
  {
    if |row| > 0 {
      var n := |row| - 1;
      var front := row[..n];
      assert forall k :: 0 <= k < n ==> front[k] == row[k];
      AccumulateContributions(front);
      var comp := Accumulate(front).value;
      NamedSnoc(row);
      if Element(row[n].0) in Keys(comp) {
        MergeKeepsFaithful(row, comp);
      } else {
        AppendKeepsFaithful(row, comp);
      }
    }
  }

  lemma NamedSnoc(row: seq<(string, Num)>)
    requires Parses(row) && |row| > 0
    ensures Parses(row[..|row| - 1])
    ensures forall e :: Named(row, e) <==> Named(row[..|row| - 1], e) || Element(row[|row| - 1].0) == e
  {
    var n := |row| - 1;
    assert forall k :: 0 <= k < n ==> row[..n][k] == row[k];
    forall e ensures Named(row, e) <==> Named(row[..n], e) || Element(row[n].0) == e {
      if Named(row, e) {
        var k :| 0 <= k < |row| && Element(row[k].0) == e;
        if k < n {
          assert Element(row[..n][k].0) == e;
        }
      }
      if Named(row[..n], e) {
        var k :| 0 <= k < n && Element(row[..n][k].0) == e;
        assert Element(row[k].0) == e;
      }
    }
  }

  /** Meeting an element already present adds the share to its entry. */
  lemma MergeKeepsFaithful(row: seq<(string, Num)>, comp: Dict<Num>)
    requires Parses(row) && |row| > 0
    requires Parses(row[..|row| - 1]) && Accumulate(row[..|row| - 1]) == Ok(comp)
    requires Faithful(row[..|row| - 1], comp)
    requires forall e :: Named(row, e) <==> Named(row[..|row| - 1], e) || Element(row[|row| - 1].0) == e
    requires Element(row[|row| - 1].0) in Keys(comp)
    ensures Accumulate(row).Ok? && Faithful(row, Accumulate(row).value)
  {
    var n := |row| - 1;
    var element := Element(row[n].0);
    var j :| 0 <= j < |comp| && Keys(comp)[j] == element;
    GetOfDistinct(comp, j);
    var r := Put(comp, element, Plus(comp[j].1, Share(row[n])));
    assert Accumulate(row) == Ok(r);
    MergedValues(row, comp, j, r);
    assert Keys(r) == Keys(comp);
    assert DistinctKeys(r) by {
      forall i, k | 0 <= i < k < |r| ensures r[i].0 != r[k].0 {
        assert Keys(r)[i] == Keys(comp)[i] && Keys(r)[k] == Keys(comp)[k];
      }
    }
  }

  lemma MergedValues(row: seq<(string, Num)>, comp: Dict<Num>, j: nat, r: Dict<Num>)
    requires Parses(row) && |row| > 0 && Parses(row[..|row| - 1])
    requires forall i :: 0 <= i < |comp| ==> comp[i].1 == Contribution(row[..|row| - 1], comp[i].0)
    requires j < |comp| && comp[j].0 == Element(row[|row| - 1].0)
    requires r == Put(comp, comp[j].0, Plus(comp[j].1, Share(row[|row| - 1])))
    ensures forall i :: 0 <= i < |r| ==> r[i].1 == Contribution(row, r[i].0)
  {
    assert comp[j].0 in Keys(comp) by { assert Keys(comp)[j] == comp[j].0; }
    forall i | 0 <= i < |r| ensures r[i].1 == Contribution(row, r[i].0) {
      assert r[i].0 == comp[i].0;
    }
  }

  /** Meeting a new element appends its share. */
  lemma AppendKeepsFaithful(row: seq<(string, Num)>, comp: Dict<Num>)
    requires Parses(row) && |row| > 0
    requires Parses(row[..|row| - 1]) && Accumulate(row[..|row| - 1]) == Ok(comp)
    requires Faithful(row[..|row| - 1], comp)
    requires forall e :: Named(row, e) <==> Named(row[..|row| - 1], e) || Element(row[|row| - 1].0) == e
    requires Element(row[|row| - 1].0) !in Keys(comp)
    ensures Accumulate(row).Ok? && Faithful(row, Accumulate(row).value)
  {
    var n := |row| - 1;
    var element := Element(row[n].0);
    var r := comp + [(element, Share(row[n]))];
    assert Accumulate(row) == Ok(r);
    assert !Named(row[..n], element);
    AppendedValues(row, comp, r);
    AppendedKeys(comp, element, Share(row[n]));
  }

  /** Appending a new key keeps the keys distinct. */
  lemma AppendedKeys(comp: Dict<Num>, element: string, x: Num)
    requires DistinctKeys(comp) && element !in Keys(comp)
    ensures DistinctKeys(comp + [(element, x)])
    ensures forall e :: e in Keys(comp + [(element, x)]) <==> e in Keys(comp) || e == element
  {
    var r := comp + [(element, x)];
    assert Keys(r) == Keys(comp) + [element];
    forall i, k | 0 <= i < k < |r| ensures r[i].0 != r[k].0 {
      assert Keys(comp)[i] == r[i].0;
      if k < |comp| {
        assert Keys(comp)[k] == r[k].0;
      }
    }
  }

  lemma AppendedValues(row: seq<(string, Num)>, comp: Dict<Num>, r: Dict<Num>)
    requires Parses(row) && |row| > 0 && Parses(row[..|row| - 1])
    requires forall i :: 0 <= i < |comp| ==> comp[i].1 == Contribution(row[..|row| - 1], comp[i].0)
    requires forall i :: 0 <= i < |comp| ==> comp[i].0 != Element(row[|row| - 1].0)
    requires !Named(row[..|row| - 1], Element(row[|row| - 1].0))
    requires r == comp + [(Element(row[|row| - 1].0), Share(row[|row| - 1]))]
    ensures forall i :: 0 <= i < |r| ==> r[i].1 == Contribution(row, r[i].0)
  {
    var n := |row| - 1;
    ContributionAbsent(row[..n], Element(row[n].0));
    PlusZero(Share(row[n]));
    var e := Element(row[n].0);
    assert Contribution(row, e) == Plus(Contribution(row[..n], e), Share(row[n]));
    forall i | 0 <= i < |r| ensures r[i].1 == Contribution(row, r[i].0) {
      if i < |comp| {
        assert r[i] == comp[i];
        assert Contribution(row, comp[i].0) == Contribution(row[..n], comp[i].0);
      } else {
        assert r[i] == (e, Share(row[n]));
      }
    }
  }

  /** An element no entry names contributes nothing. */
  lemma {:induction false} ContributionAbsent(row: seq<(string, Num)>, e: string)
    requires Parses(row) && !Named(row, e)
    ensures Contribution(row, e) == Real(0.0)
    decreases |row|
  {
    if |row| > 0 {
      var n := |row| - 1;
      assert forall k :: 0 <= k < n ==> row[..n][k] == row[k];
      assert !Named(row[..n], e) by {
        forall k | 0 <= k < n ensures Element(row[..n][k].0) != e {
          assert row[..n][k] == row[k];
        }
      }
      ContributionAbsent(row[..n], e);
    }
  }

  lemma PlusZero(a: Num)
    ensures Plus(Real(0.0), a) == a
  {
  }

  /** The entries of a dictionary whose value is not zero (a NaN is not zero), in
      order. */
  function NonZero(comp: Dict<Num>): (r: Dict<Num>)
    ensures |r| <= |comp|
    ensures forall c :: c in r <==> c in comp && c.1 != Real(0.0)
    decreases |comp|
  {
    if |comp| == 0 then []
    else
      var n := |comp| - 1;
      assert forall c :: c in comp <==> c in comp[..n] || c == comp[n] by { assert comp == comp[..n] + [comp[n]]; }
      if comp[n].1 == Real(0.0) then NonZero(comp[..n]) else NonZero(comp[..n]) + [comp[n]]
  }

  function ValuesOf(d: Dict<Num>): (vs: seq<Num>)
    ensures |vs| == |d| && forall i :: 0 <= i < |d| ==> vs[i] == d[i].1
  {
    seq(|d|, i requires 0 <= i < |d| => d[i].1)
  }

  /** Dropping zeros leaves the total unchanged (and a NaN, never dropped, keeps it
      NaN). */
  lemma {:induction false} TotalOfNonZero(comp: Dict<Num>)
    ensures Total(ValuesOf(NonZero(comp))) == Total(ValuesOf(comp))
    decreases |comp|
  {
    if |comp| > 0 {
      var n := |comp| - 1;
      TotalOfNonZero(comp[..n]);
      assert ValuesOf(comp) == ValuesOf(comp[..n]) + [comp[n].1];
      TotalOfSnoc(ValuesOf(comp[..n]), comp[n].1);
      if comp[n].1 != Real(0.0) {
        assert ValuesOf(NonZero(comp)) == ValuesOf(NonZero(comp[..n])) + [comp[n].1];
        TotalOfSnoc(ValuesOf(NonZero(comp[..n])), comp[n].1);
      }
    }
  }

  /** The total of a vector with one more entry. */
  lemma TotalOfSnoc(v: seq<Num>, x: Num)
    ensures Total(v + [x]) == Plus(Total(v), x)
  {
    var w := v + [x];
    assert w[..|v|] == v && w[|v|] == x;
    assert AllReal(w) <==> AllReal(v) && x.Real? by {
      if AllReal(v) && x.Real? {
        forall i | 0 <= i < |w| ensures w[i].Real? {
          if i < |v| { assert w[i] == v[i]; }
        }
      }
      if AllReal(w) {
        forall i | 0 <= i < |v| ensures v[i].Real? {
          assert w[i] == v[i];
        }
        assert w[|v|] == x;
      }
    }
    if AllReal(w) {
      assert Reals(w) == Reals(v) + [x.x];
      SumOfConcat(Reals(v), [x.x]);
    }
  }

  /** The second loop: the non-zero entries, each divided by the total of all. */
  function Normalize(comp: Dict<Num>): (r: Dict<Num>)
    ensures |r| == |NonZero(comp)| && Keys(r) == Keys(NonZero(comp))
  {
    var nz := NonZero(comp);
    var total := Total(ValuesOf(comp));
    seq(|nz|, i requires 0 <= i < |nz| => (nz[i].0, Over(nz[i].1, total)))
  }

  /** The normalised values are the shares of the non-zero abundances. */
  lemma NormalizedShares(comp: Dict<Num>)
    ensures ValuesOf(Normalize(comp)) == Shares(ValuesOf(NonZero(comp)))
  {
    TotalOfNonZero(comp);
  }

  /** With real, non-negative abundances of positive total, the composition keeps
      exactly the elements of non-zero abundance, and their shares lie in [0, 1] and
      sum to one. */
  lemma NormalizeSumsToOne(comp: Dict<Num>)
    requires AllReal(ValuesOf(comp)) && forall i :: 0 <= i < |comp| ==> comp[i].1.x >= 0.0
    requires Total(ValuesOf(comp)).x > 0.0
    ensures var r := Normalize(comp);
      && (forall e :: e in Keys(r) <==> exists i :: 0 <= i < |comp| && comp[i].0 == e && comp[i].1 != Real(0.0))
      && AllReal(ValuesOf(r))
      && (forall i :: 0 <= i < |r| ==> 0.0 <= r[i].1.x <= 1.0)
      && Sum(Reals(ValuesOf(r))) == 1.0
  {
    var nz := NonZero(comp);
    var r := Normalize(comp);
    var vs := ValuesOf(nz);
    TotalOfNonZero(comp);
    forall j | 0 <= j < |vs| ensures vs[j].Real? && vs[j].x >= 0.0 {
      assert nz[j] in nz;
      var i :| 0 <= i < |comp| && comp[i] == nz[j];
      assert ValuesOf(comp)[i] == comp[i].1;
    }
    SharesSumToOne(vs);
    forall e ensures e in Keys(r) <==> exists i :: 0 <= i < |comp| && comp[i].0 == e && comp[i].1 != Real(0.0) {
      if e in Keys(r) {
        var j :| 0 <= j < |r| && Keys(r)[j] == e;
        assert Keys(nz)[j] == e;
        assert nz[j] in nz;
        var i :| 0 <= i < |comp| && comp[i] == nz[j];
        assert comp[i].0 == e && comp[i].1 != Real(0.0);
      }
      if exists i :: 0 <= i < |comp| && comp[i].0 == e && comp[i].1 != Real(0.0) {
        var i :| 0 <= i < |comp| && comp[i].0 == e && comp[i].1 != Real(0.0);
        assert comp[i] in comp;
        assert comp[i] in nz;
        var j :| 0 <= j < |nz| && nz[j] == comp[i];
        assert Keys(r)[j] == e;
      }
    }
    NormalizedShares(comp);
    forall i | 0 <= i < |r| ensures 0.0 <= r[i].1.x <= 1.0 {
      assert ValuesOf(r)[i] == r[i].1;
    }
  }

  /** `_compute_layer_composition(row)` on the row's abundance entries. */
  function Composition(row: seq<(string, Num)>): (r: Result<Dict<Num>>)
    ensures r.Err? <==> !Parses(row)
    ensures r.Err? ==> r.error == IndexError
  {
    match Accumulate(row)
    case Err(e) => Err(e)
    case Ok(comp) => Ok(Normalize(comp))
  }

  /** Removing `abund` from a name that only ends in it leaves the name. */
  lemma RemoveTrailingAbund(e: string)
    requires |e| <= 2 && forall k :: 0 <= k < |e| ==> e[k] != 'a'
    ensures Text.RemoveAll(e + "abund", "abund") == e
  {
    var s := e + "abund";
    assert s[|e|..] == "abund";
    assert Text.RemoveAll("abund", "abund") == "" by {
      assert "abund"[..5] == "abund";
      assert "abund"[5..] == "";
    }
    if |e| == 1 {
      assert s[..5] != "abund" by { assert s[0] == e[0]; assert "abund"[0] == 'a'; }
      assert s[1..] == "abund";
    } else if |e| == 2 {
      assert s[..5] != "abund" by { assert s[0] == e[0]; assert "abund"[0] == 'a'; }
      assert s[1..][..5] != "abund" by { assert s[1..][0] == e[1]; assert "abund"[0] == 'a'; }
      assert s[1..][1..] == "abund";
    }
  }

  /** The abundance columns of the lookup table: `N2abund` and `O2abund` count two
      atoms of nitrogen and oxygen, every other column one atom of its element. */
  lemma AbundanceColumnsParse()
    ensures forall j :: 0 <= j < 7 ==> ParseColumn(AbundanceCols[j]) == Ok(StandardParse[j])
  {
    AbundanceNames();
    forall j | 0 <= j < 7 ensures ParseColumn(AbundanceCols[j]) == Ok(StandardParse[j]) {
      var e := AcceptedElements[j];
      assert AbundanceCols[j] == e + "abund";
      ElementSpelling(j);
      RemoveTrailingAbund(e);
      if j <= 1 {
        assert e[|e| - 1] == '2';
        assert e[..|e| - 1] == StandardParse[j].0;
      } else {
        assert !Text.IsDigit(e[|e| - 1]);
      }
    }
  }

  lemma ElementSpelling(j: nat)
    requires j < 7
    ensures var e := AcceptedElements[j];
      && |e| <= 2 && (forall k :: 0 <= k < |e| ==> e[k] != 'a')
      && (j <= 1 <==> Text.IsDigit(e[|e| - 1]))
      && (j <= 1 ==> e == StandardParse[j].0 + "2")
      && (j > 1 ==> e == StandardParse[j].0)
  {
  }

  /** Element and atom count of each abundance column. */
  const StandardParse: seq<(string, nat)> :=
    [("N", 2), ("O", 2), ("O", 1), ("He", 1), ("H", 1), ("Ar", 1), ("N", 1)]

  /** Column names paired with the row's values. */
  function Pair(names: seq<string>, values: seq<Num>): (row: seq<(string, Num)>)
    requires |names| == |values|
    ensures |row| == |names| && forall k :: 0 <= k < |names| ==> row[k] == (names[k], values[k])
  {
    seq(|names|, k requires 0 <= k < |names| => (names[k], values[k]))
  }

  /** The composition of a table row before normalisation: nitrogen collects twice
      `N2abund` and `Nabund`, oxygen twice `O2abund` and `Oabund`, and helium,
      hydrogen and argon their own column, in that order. */
  lemma StandardComposition(v: seq<Num>)
    requires |v| == 7
    ensures Accumulate(Pair(AbundanceCols, v)) == Ok([
      ("N", Plus(Times(2.0, v[0]), Times(1.0, v[6]))),
      ("O", Plus(Times(2.0, v[1]), Times(1.0, v[2]))),
      ("He", Times(1.0, v[3])),
      ("H", Times(1.0, v[4])),
      ("Ar", Times(1.0, v[5]))])
  {
    var row := Pair(AbundanceCols, v);
    forall k | 0 <= k < 7
      ensures ParseColumn(row[k].0) == Ok(StandardParse[k]) && Share(row[k]) == Times(StandardParse[k].1 as real, v[k])
    {
      StandardEntry(v, row, k);
    }
    StandardFront(row, Times(2.0, v[0]), Times(2.0, v[1]), Times(1.0, v[2]));
    StandardBack(row, Times(2.0, v[0]), Plus(Times(2.0, v[1]), Times(1.0, v[2])),
      Times(1.0, v[3]), Times(1.0, v[4]), Times(1.0, v[5]), Times(1.0, v[6]));
    assert row[..7] == row;
  }

  /** The entry for column `k` of the standard row parses to its element and adds
      the atom count times the abundance. */
  lemma StandardEntry(v: seq<Num>, row: seq<(string, Num)>, k: nat)
    requires |v| == 7 && row == Pair(AbundanceCols, v) && k < 7
    ensures ParseColumn(row[k].0) == Ok(StandardParse[k])
    ensures Share(row[k]) == Times(StandardParse[k].1 as real, v[k])
  {
    AbundanceColumnsParse();
    assert row[k].0 == AbundanceCols[k];
  }

  /** `N2abund`, `O2abund` and `Oabund`: nitrogen, then oxygen collecting the
      second and third entries. */
  lemma StandardFront(row: seq<(string, Num)>, a: Num, b: Num, c: Num)
    requires |row| == 7
    requires ParseColumn(row[0].0).Ok? && Element(row[0].0) == "N" && Share(row[0]) == a
    requires ParseColumn(row[1].0).Ok? && Element(row[1].0) == "O" && Share(row[1]) == b
    requires ParseColumn(row[2].0).Ok? && Element(row[2].0) == "O" && Share(row[2]) == c
    ensures Accumulate(row[..3]) == Ok([("N", a), ("O", Plus(b, c))])
  {
    assert row[..0] == [];
    AccumulateStep(row, 0, [], "N", a);
    assert [] + [("N", a)] == [("N", a)];
    AccumulateStep(row, 1, [("N", a)], "O", b);
    assert [("N", a)] + [("O", b)] == [("N", a), ("O", b)];
    AccumulateMerge(row, 2, [("N", a), ("O", b)], 1, c);
    assert [("N", a), ("O", b)][1 := ("O", Plus(b, c))] == [("N", a), ("O", Plus(b, c))];
  }

  /** `Heabund`, `Habund`, `Arabund` and `Nabund`: three new elements, then
      nitrogen again. */
  lemma StandardBack(row: seq<(string, Num)>, n: Num, o: Num, d: Num, h: Num, g: Num, m: Num)
    requires |row| == 7 && Accumulate(row[..3]) == Ok([("N", n), ("O", o)])
    requires ParseColumn(row[3].0).Ok? && Element(row[3].0) == "He" && Share(row[3]) == d
    requires ParseColumn(row[4].0).Ok? && Element(row[4].0) == "H" && Share(row[4]) == h
    requires ParseColumn(row[5].0).Ok? && Element(row[5].0) == "Ar" && Share(row[5]) == g
    requires ParseColumn(row[6].0).Ok? && Element(row[6].0) == "N" && Share(row[6]) == m
    ensures Accumulate(row[..7]) == Ok([("N", Plus(n, m)), ("O", o), ("He", d), ("H", h), ("Ar", g)])
  {
    var c5 := [("N", n), ("O", o), ("He", d), ("H", h), ("Ar", g)];
    StandardNewElements(row, n, o, d, h, g);
    FiveKeysDistinct(c5);
    AccumulateMerge(row, 6, c5, 0, m);
    assert c5[0 := ("N", Plus(n, m))] == [("N", Plus(n, m)), ("O", o), ("He", d), ("H", h), ("Ar", g)];
  }

  /** `Heabund`, `Habund` and `Arabund`: three new elements. */
  lemma StandardNewElements(row: seq<(string, Num)>, n: Num, o: Num, d: Num, h: Num, g: Num)
    requires |row| == 7 && Accumulate(row[..3]) == Ok([("N", n), ("O", o)])
    requires ParseColumn(row[3].0).Ok? && Element(row[3].0) == "He" && Share(row[3]) == d
    requires ParseColumn(row[4].0).Ok? && Element(row[4].0) == "H" && Share(row[4]) == h
    requires ParseColumn(row[5].0).Ok? && Element(row[5].0) == "Ar" && Share(row[5]) == g
    ensures Accumulate(row[..6]) == Ok([("N", n), ("O", o), ("He", d), ("H", h), ("Ar", g)])
  {
    var c2 := [("N", n), ("O", o)];
    var c3 := c2 + [("He", d)];
    var c4 := c3 + [("H", h)];
    var c5 := c4 + [("Ar", g)];
    assert c5 == [("N", n), ("O", o), ("He", d), ("H", h), ("Ar", g)];
    FiveKeysDistinct(c5);
    assert c5[..2] == c2 && c5[..3] == c3 && c5[..4] == c4;
    AccumulateStep(row, 3, c2, "He", d);
    AccumulateStep(row, 4, c3, "H", h);
    AccumulateStep(row, 5, c4, "Ar", g);
  }

  lemma FiveKeysDistinct(c5: Dict<Num>)
    requires |c5| == 5 && c5[0].0 == "N" && c5[1].0 == "O" && c5[2].0 == "He" && c5[3].0 == "H" && c5[4].0 == "Ar"
    ensures DistinctKeys(c5)
  {
    forall i, j | 0 <= i < j < |c5| ensures c5[i].0 != c5[j].0 {
      assert c5[i].0[0] != c5[j].0[0] || |c5[i].0| != |c5[j].0|;
    }
  }

  /** One step of the accumulation that meets a new element. */
  lemma AccumulateStep(row: seq<(string, Num)>, n: nat, comp: Dict<Num>, element: string, add: Num)
    requires n < |row| && Accumulate(row[..n]) == Ok(comp)
    requires ParseColumn(row[n].0).Ok? && Element(row[n].0) == element && Share(row[n]) == add
    requires forall i :: 0 <= i < |comp| ==> comp[i].0 != element
    ensures Accumulate(row[..n + 1]) == Ok(comp + [(element, add)])
  {
    assert row[..n + 1][..n] == row[..n];
    assert row[..n + 1][n] == row[n];
    assert element !in Keys(comp);
  }

  /** One step of the accumulation that meets the element of entry `j` again. */
  lemma AccumulateMerge(row: seq<(string, Num)>, n: nat, comp: Dict<Num>, j: nat, add: Num)
    requires n < |row| && Accumulate(row[..n]) == Ok(comp)
    requires j < |comp| && DistinctKeys(comp)
    requires ParseColumn(row[n].0).Ok? && Element(row[n].0) == comp[j].0 && Share(row[n]) == add
    ensures Accumulate(row[..n + 1]) == Ok(comp[j := (comp[j].0, Plus(comp[j].1, add))])
  {
    assert row[..n + 1][..n] == row[..n];
    assert row[..n + 1][n] == row[n];
    assert Keys(comp)[j] == comp[j].0;
    GetOfDistinct(comp, j);
    var r := Put(comp, comp[j].0, Plus(comp[j].1, add));
    assert Accumulate(row[..n + 1]) == Ok(r);
    var want := comp[j := (comp[j].0, Plus(comp[j].1, add))];
    assert |r| == |want|;
    forall i | 0 <= i < |comp| ensures r[i] == want[i] {
      if i != j {
        assert comp[i].0 != comp[j].0;
      }
    }
    assert r == want;
  }

  // ---------------------------------------------------------------- the layer

  /** Kilometres to centimetres. */
  const KmToCm: real := 100000.0

  /** A product of possibly NaN values. */
  function Mul(a: Num, b: Num): (r: Num)
    ensures r.Real? <==> a.Real? && b.Real?
    ensures r.Real? ==> r.x == a.x * b.x
  {
    if a.Real? && b.Real? then Real(a.x * b.x) else NaN
  }

  /** `np.diff(altitudes)[0] * thickness_factor` converted from km to cm: the first
      altitude spacing times the factor; with fewer than two altitudes there is no
      first spacing. */
  function LayerThickness(alts: seq<Num>, factor: Num): (r: Result<Num>)
    ensures r.Err? <==> |alts| < 2
    ensures r.Err? ==> r.error == IndexError
    ensures r.Ok? && alts[0].Real? && alts[1].Real? && factor.Real? ==>
      r.value == Real(KmToCm * ((alts[1].x - alts[0].x) * factor.x))
  {
    if |alts| < 2 then Err(IndexError)
    else
      var spacing := if alts[0].Real? && alts[1].Real? then Real(alts[1].x - alts[0].x) else NaN;
      var m := Mul(spacing, factor);
      assert m.Real? ==> Times(KmToCm, m) == Real(KmToCm * m.x);
      Ok(Times(KmToCm, m))
  }

  /** On a table built over an evenly spaced grid of at least two altitudes, a
      layer is the grid step times the factor thick. */
  lemma LayerThicknessOfGrid(start: real, stop: real, step: real, factor: real)
    requires step > 0.0 && start + step < stop
    ensures var g := Arange(start, stop, step).value;
      |g| >= 2 && LayerThickness(Lift(g), Real(factor)) == Ok(Real(KmToCm * (step * factor)))
  {
    var g := Arange(start, stop, step).value;
    ArangeStopsBefore(start, stop, step);
    ScaleOrder(|g| as real, 1.0, step);
    var alts := Lift(g);
    assert alts[0] == Real(g[0]) && alts[1] == Real(g[1]);
    assert alts[1].x - alts[0].x == step;
    ScaleEqual(alts[1].x - alts[0].x, step, factor);
    ScaleEqual((alts[1].x - alts[0].x) * factor, step * factor, KmToCm);
    var r := LayerThickness(alts, Real(factor));
    assert r.Ok? && r.value == Real(KmToCm * ((alts[1].x - alts[0].x) * factor));
    assert r.value == Real(KmToCm * (step * factor));
    assert r == Ok(Real(KmToCm * (step * factor)));
  }

  lemma ScaleEqual(a: real, b: real, c: real)
    requires a == b
    ensures a * c == b * c && c * a == c * b
  {
  }

  /** `thickness / (maximum - minimum)`: the slant path through the atmosphere per
      unit of vertical extent; equal bounds divide by zero. */
  function ThicknessFactor(slant: real, maximum: real, minimum: real): (r: Num)
    ensures maximum != minimum <==> r.Real?
    ensures r.Real? ==> r.x * (maximum - minimum) == slant
  {
    var r := Over(Real(slant), Real(maximum - minimum));
    if maximum != minimum then
      QuotientTimes(slant, maximum - minimum);
      r
    else r
  }

  lemma QuotientTimes(a: real, b: real)
    requires b != 0.0
    ensures (a / b) * b == a
  {
  }

  /** The atmosphere: the altitude range and step (km), the layers' diameter (cm),
      and the lookup table computed over the range. */
  datatype Atmosphere = Atmosphere(minimum: real, maximum: real, step: real, diameter: real, table: Dict<seq<Num>>)

  /** What `_construct_layer` hands to `Material`: the layer's altitude, diameter,
      thickness (cm), mass density (g/cm³) and elemental composition. */
  datatype Layer = Layer(altitude: real, diameter: real, thickness: Num, massDensity: Num, composition: Dict<Num>)

  /** `table[name]`: the column, or a KeyError. */
  function Column(t: Dict<seq<Num>>, name: string): (r: Result<seq<Num>>)
    ensures r.Ok? <==> name in Keys(t)
    ensures r.Err? ==> r.error == KeyError(name)
    ensures r.Ok? ==> exists i :: 0 <= i < |t| && t[i] == (name, r.value)
  {
    if name in Keys(t) then
      GetIsEntry(t, name);
      Ok(Get(t, name))
    else Err(KeyError(name))
  }

  lemma {:induction false} GetIsEntry(t: Dict<seq<Num>>, name: string)
    requires name in Keys(t)
    ensures exists i :: 0 <= i < |t| && t[i] == (name, Get(t, name))
    decreases |t|
  {
    if t[0].0 != name {
      assert name in Keys(t[1..]) by {
        var i :| 0 <= i < |t| && Keys(t)[i] == name;
        assert Keys(t[1..])[i - 1] == name;
      }
      GetIsEntry(t[1..], name);
      var i :| 0 <= i < |t[1..]| && t[1..][i] == (name, Get(t[1..], name));
      assert t[i + 1] == t[1..][i];
    }
  }

  /** `row[name]` of the `i`-th row. */
  function Cell(t: Dict<seq<Num>>, name: string, i: nat): (r: Result<Num>)
    ensures r.Ok? <==> Column(t, name).Ok? && i < |Column(t, name).value|
    ensures r.Ok? ==> r.value == Column(t, name).value[i]
  {
    match Column(t, name)
    case Err(e) => Err(e)
    case Ok(c) => if i < |c| then Ok(c[i]) else Err(IndexError)
  }

  /** `row[ABUNDANCE_COLS]`: the abundance entries of the `i`-th row, the first
      missing column a KeyError. */
  function AbundanceRow(t: Dict<seq<Num>>, i: nat, names: seq<string>): (r: Result<seq<(string, Num)>>)
    ensures r.Ok? <==> forall k :: 0 <= k < |names| ==> Cell(t, names[k], i).Ok?
    ensures r.Ok? ==> |r.value| == |names| && forall k :: 0 <= k < |names| ==> r.value[k] == (names[k], Cell(t, names[k], i).value)
    decreases |names|
  {
    if |names| == 0 then Ok([])
    else
      var n := |names| - 1;
      match AbundanceRow(t, i, names[..n])
      case Err(e) => Err(e)
      case Ok(front) =>
        match Cell(t, names[n], i)
        case Err(e) => Err(e)
        case Ok(x) => Ok(front + [(names[n], x)])
  }

  /** `_construct_layer(altitude, thickness_factor)` up to the material: the nearest
      row's mass density, the layer thickness and the row's elemental composition. */
  function ConstructLayer(atm: Atmosphere, altitude: real, factor: Num): (r: Result<Layer>)
    ensures "altitude" !in Keys(atm.table) ==> r == Err(KeyError("altitude"))
    ensures Column(atm.table, "altitude") == Ok([]) ==> r == Err(EmptyMinimum)
    ensures r.Ok? ==>
      && Column(atm.table, "altitude").Ok?
      && var alts := Column(atm.table, "altitude").value;
      && AllReal(alts) && |alts| >= 2
      && LayerThickness(alts, factor) == Ok(r.value.thickness)
      && exists i :: FirstNearest(Reals(alts), altitude, |alts|, i) && Cell(atm.table, "total mass density", i) == Ok(r.value.massDensity)
  {
    match Column(atm.table, "altitude")
    case Err(e) => Err(e)
    case Ok(alts) =>
      match RowIndex(alts, altitude)
      case Err(e) => Err(e)
      case Ok(i) =>
        match Cell(atm.table, "total mass density", i)
        case Err(e) => Err(e)
        case Ok(rho) =>
          match LayerThickness(alts, factor)
          case Err(e) => Err(e)
          case Ok(thickness) =>
            match AbundanceRow(atm.table, i, AbundanceCols)
            case Err(e) => Err(e)
            case Ok(row) =>
              match Composition(row)
              case Err(e) => Err(e)
              case Ok(c) => Ok(Layer(altitude, atm.diameter, thickness, rho, c))
  }

  // ---------------------------------------------------------------- the walk down

  /** The altitudes `attenuate_spectrum_through_layers` visits: from `current` down
      by `step` while at or above `minimum`. */
  function Descent(current: real, minimum: real, step: real): (r: Vector)
    requires step > 0.0
    ensures |r| > 0 ==> r[0] == current
    ensures forall i :: 0 < i < |r| ==> r[i] == r[i - 1] - step
    ensures forall i :: 0 <= i < |r| ==> r[i] >= minimum
    ensures (if |r| == 0 then current else r[|r| - 1] - step) < minimum
    decreases if current < minimum then 0 else ((current - minimum) / step).Floor + 1
  {
    if current < minimum then []
    else
      DescentShrinks(current - minimum, step);
      [current] + Descent(current - step, minimum, step)
  }

  /** The `i`-th visited altitude is `i` steps below the first. */
  lemma DescentAt(current: real, minimum: real, step: real, i: nat)
    requires step > 0.0 && i < |Descent(current, minimum, step)|
    ensures Descent(current, minimum, step)[i] == current - i as real * step
  {
    DescentStep(Descent(current, minimum, step), current, step, i);
  }

  lemma {:induction false} DescentStep(r: Vector, current: real, step: real, i: nat)
    requires i < |r| && |r| > 0 && r[0] == current
    requires forall k :: 0 < k < |r| ==> r[k] == r[k - 1] - step
    ensures r[i] == current - i as real * step
  {
    if i > 0 {
      DescentStep(r, current, step, i - 1);
      Shift(current, step, i - 1);
    }
  }

  lemma Shift(current: real, step: real, i: nat)
    ensures current - i as real * step - step == current - (i + 1) as real * step
  {
  }

  lemma DescentShrinks(x: real, step: real)
    requires x >= 0.0 && step > 0.0
    ensures (x / step).Floor >= 0
    ensures x - step >= 0.0 ==> ((x - step) / step).Floor < (x / step).Floor
  {
    QuotientLess(x, step);
  }

  lemma QuotientLess(x: real, step: real)
    requires step > 0.0
    ensures (x - step) / step == x / step - 1.0
  {
    var a := x / step;
    var b := (x - step) / step;
    assert a * step == x;
    assert b * step == x - step;
    ZeroProduct(b - (a - 1.0), step);
  }

  lemma ZeroProduct(c: real, s: real)
    requires s > 0.0 && c * s == 0.0
    ensures c == 0.0
  {
    if c > 0.0 {
      PositiveProduct(c, s);
    } else if c < 0.0 {
      PositiveProduct(-c, s);
    }
  }

  lemma PositiveProduct(c: real, s: real)
    requires c > 0.0 && s > 0.0
    ensures c * s > 0.0
  {
  }

  /** The loop visits the maximum first and, with a step dividing the range, the
      minimum last: `(maximum - minimum) / step + 1` layers. */
  lemma DescentCovers(maximum: real, minimum: real, step: real, n: nat)
    requires step > 0.0 && maximum - n as real * step == minimum
    ensures var r := Descent(maximum, minimum, step);
      |r| == n + 1 && r[0] == maximum && r[n] == minimum
  {
    StepsBelow(maximum, minimum, step, n);
    DescentStarts(maximum, minimum, step);
    var r := Descent(maximum, minimum, step);
    DescentAt(maximum, minimum, step, |r| - 1);
    CoverOf(r, maximum, minimum, step, n);
  }

  lemma StepsBelow(maximum: real, minimum: real, step: real, n: nat)
    requires step > 0.0 && maximum - n as real * step == minimum
    ensures maximum >= minimum
  {
    if n > 0 {
      PositiveProduct(n as real, step);
    }
  }

  /** A walk that starts at or above the minimum visits its start. */
  lemma DescentStarts(current: real, minimum: real, step: real)
    requires step > 0.0 && current >= minimum
    ensures |Descent(current, minimum, step)| > 0
  {
  }

  /** A descent whose last altitude is the last one at or above the minimum ends at
      the minimum when that is a whole number of steps down. */
  lemma CoverOf(r: Vector, maximum: real, minimum: real, step: real, n: nat)
    requires step > 0.0 && maximum - n as real * step == minimum
    requires |r| > 0 && r[|r| - 1] == maximum - (|r| - 1) as real * step
    requires r[|r| - 1] >= minimum && r[|r| - 1] - step < minimum
    ensures |r| == n + 1 && r[n] == minimum
  {
    var last := |r| - 1;
    CoverCount(maximum, minimum, step, r[last], last as real, n as real);
  }

  /** The last of the visited altitudes, `l` steps down, is the `k`-th step. */
  lemma CoverCount(maximum: real, minimum: real, step: real, x: real, l: real, k: real)
    requires step > 0.0 && minimum == maximum - k * step
    requires x == maximum - l * step && x >= minimum && x - step < minimum
    ensures l <= k < l + 1.0
  {
    var a, b := l * step, k * step;
    assert a <= b && a + step > b;
    ScaleOrderLe(l, k, step);
    ScaleOrderNext(l, k, step, a, b);
  }

  lemma ScaleOrder(a: real, b: real, step: real)
    requires step > 0.0 && a * step > b * step
    ensures a > b
  {
    assert (a - b) * step > 0.0;
  }

  lemma ScaleOrderNext(a: real, b: real, step: real, p: real, q: real)
    requires step > 0.0 && p == a * step && q == b * step && p + step > q
    ensures a + 1.0 > b
  {
    assert (a + 1.0) * step == p + step;
    ScaleOrder(a + 1.0, b, step);
  }

  lemma ScaleOrderLe(a: real, b: real, step: real)
    requires step > 0.0 && a * step <= b * step
    ensures a <= b
  {
    assert (b - a) * step >= 0.0;
  }

  /** The loop over the visited altitudes: each layer attenuates the previous
      layer's output, the first the incident flare; the outputs are what gets
      pickled.  The first layer that fails ends the walk. */
  function ThroughLayers(visits: Vector, flare: Vector, attenuate: (real, Vector) -> Result<Vector>): (r: Result<seq<Vector>>)
    ensures r.Ok? ==> |r.value| == |visits|
    ensures r.Ok? && |visits| > 0 ==> attenuate(visits[0], flare) == Ok(r.value[0])
    ensures r.Ok? ==> forall i :: 0 < i < |visits| ==> attenuate(visits[i], r.value[i - 1]) == Ok(r.value[i])
    decreases |visits|
  {
    if |visits| == 0 then Ok([])
    else
      var n := |visits| - 1;
      match ThroughLayers(visits[..n], flare, attenuate)
      case Err(e) => Err(e)
      case Ok(outs) =>
        var input := if n == 0 then flare else outs[n - 1];
        match attenuate(visits[n], input)
        case Err(e) => Err(e)
        case Ok(out) =>
          var r := outs + [out];
          forall i | 0 < i < n ensures attenuate(visits[i], r[i - 1]) == Ok(r[i]) {
            assert visits[..n][i] == visits[i];
          }
          Ok(r)
  }

  /** A walk whose first layer fails stops there, with that layer's error. */
  lemma {:induction false} FirstFailureEndsWalk(visits: Vector, flare: Vector, attenuate: (real, Vector) -> Result<Vector>)
    requires |visits| > 0 && attenuate(visits[0], flare).Err?
    ensures ThroughLayers(visits, flare, attenuate) == Err(attenuate(visits[0], flare).error)
    decreases |visits|
  {
    var n := |visits| - 1;
    if n > 0 {
      assert visits[..n][0] == visits[0];
      FirstFailureEndsWalk(visits[..n], flare, attenuate);
    } else {
      assert visits[..n] == [];
    }
  }

  /** `attenuate_spectrum_through_layers`: the factor from the slant path, then the
      walk from the maximum altitude down, each visited altitude's layer built and
      handed to `attenuate` with the spectrum from above. */
  function AttenuateThroughLayers(atm: Atmosphere, slant: real, flare: Vector,
                                  attenuate: (Layer, Vector) -> Result<Vector>): (r: Result<seq<Vector>>)
    requires atm.step > 0.0
    ensures r.Ok? ==> |r.value| == |Descent(atm.maximum, atm.minimum, atm.step)|
  {
    var factor := ThicknessFactor(slant, atm.maximum, atm.minimum);
    ThroughLayers(Descent(atm.maximum, atm.minimum, atm.step), flare, LayerStep(atm, factor, attenuate))
  }

  /** One pass of the loop: the layer at the altitude is built, then attenuates. */
  function LayerStep(atm: Atmosphere, factor: Num, attenuate: (Layer, Vector) -> Result<Vector>): (real, Vector) -> Result<Vector> {
    (altitude, v) => match ConstructLayer(atm, altitude, factor)
                     case Err(e) => Err(e)
                     case Ok(layer) => attenuate(layer, v)
  }

  /** `Layer.attenuate_spectrum` as written: the response of a base `DetectorStack`
      holding the layer's material, applied to the flare. */
  function LayerAttenuateAsWritten(m: RealMath.Transcendentals, material: BinnedMaterial.Material,
                                   detector: Dispersion.Detector, inc: VectorStack.Incident, ks: seq<int>,
                                   spread: Result<Matrix>, disperse: bool): (r: Result<Vector>)
    ensures r == Err(VectorStack.MissingAttenuation)
  {
    match VectorStack.DetectorResponse(m, VectorStack.Base([material], detector), inc, ks, spread, disperse)
    case Err(e) => Err(e)
    case Ok(response) =>
      match FlareSpectrum.Flare(inc.spectrum)
      case Err(e) => Err(e)
      case Ok(flare) => ApplyResponse(response, flare)
  }

  /** `response @ flare`, the attenuated spectrum when the product is a vector. */
  function ApplyResponse(response: VectorStack.Array, flare: Vector): (r: Result<Vector>)
  {
    if !VectorStack.WellFormed(response) then Err(TypeError)
    else
      match VectorStack.MatMulArrays(response, VectorStack.Vec(flare))
      case Err(e) => Err(e)
      case Ok(out) => if out.Vec? then Ok(out.entries) else Err(TypeError)
  }

  /** As written, the walk can never complete a layer: whenever a layer can be built
      at the first visited altitude, the base stack's missing method ends it. */
  lemma AsWrittenStopsAtFirstLayer(atm: Atmosphere, slant: real, flare: Vector,
                                   attenuate: (Layer, Vector) -> Result<Vector>)
    requires atm.step > 0.0 && atm.maximum >= atm.minimum
    requires forall layer, v :: attenuate(layer, v) == Err(VectorStack.MissingAttenuation)
    ensures var r := AttenuateThroughLayers(atm, slant, flare, attenuate);
      && r.Err?
      && (ConstructLayer(atm, atm.maximum, ThicknessFactor(slant, atm.maximum, atm.minimum)).Ok? ==> r == Err(VectorStack.MissingAttenuation))
  {
    var visits := Descent(atm.maximum, atm.minimum, atm.step);
    var factor := ThicknessFactor(slant, atm.maximum, atm.minimum);
    var step := LayerStep(atm, factor, attenuate);
    assert |visits| > 0 && visits[0] == atm.maximum;
    match ConstructLayer(atm, atm.maximum, factor) {
      case Err(e) =>
        assert step(visits[0], flare) == Err(e);
      case Ok(layer) =>
        assert attenuate(layer, flare) == Err(VectorStack.MissingAttenuation);
        assert step(visits[0], flare) == Err(VectorStack.MissingAttenuation);
    }
    FirstFailureEndsWalk(visits, flare, step);
  }

  /** The intended walk: each layer multiplies the flux from above by its
      transmission, bin by bin. */
  function Transmit(transmission: real -> Vector, altitude: real, v: Vector): (r: Result<Vector>)
    ensures r.Ok? <==> |transmission(altitude)| == |v|
    ensures r.Ok? ==> |r.value| == |v| && forall j :: 0 <= j < |v| ==> r.value[j] == transmission(altitude)[j] * v[j]
  {
    if |transmission(altitude)| == |v| then Ok(Hadamard(transmission(altitude), v)) else Err(BadShape)
  }

  /** The layer walk's step for multiplicative layers. */
  function Multiplying(transmission: real -> Vector): (real, Vector) -> Result<Vector> {
    (altitude, v) => Transmit(transmission, altitude, v)
  }

  const BadShape: Error := ValueError("operands could not be broadcast together")

  /** The product of the visited layers' transmissions, bin by bin. */
  function Transmitted(transmission: real -> Vector, visits: Vector, bins: nat): (t: Vector)
    requires forall a :: |transmission(a)| == bins
    ensures |t| == bins
    decreases |visits|
  {
    if |visits| == 0 then Ones(bins)
    else
      var n := |visits| - 1;
      Hadamard(transmission(visits[n]), Transmitted(transmission, visits[..n], bins))
  }

  /** With multiplicative layers the walk ends with the incident flux times the
      product of every visited layer's transmission, and every layer's output is the
      flux times the transmissions down to it. */
  lemma {:induction false} CorrectedWalk(transmission: real -> Vector, visits: Vector, flare: Vector)
    requires forall a :: |transmission(a)| == |flare|
    ensures var r := ThroughLayers(visits, flare, Multiplying(transmission));
      && r.Ok?
      && forall i :: 0 <= i < |visits| ==> r.value[i] == Hadamard(Transmitted(transmission, visits[..i + 1], |flare|), flare)
    decreases |visits|
  {
    var f := Multiplying(transmission);
    var r := ThroughLayers(visits, flare, f);
    if |visits| > 0 {
      var n := |visits| - 1;
      CorrectedWalk(transmission, visits[..n], flare);
      var outs := ThroughLayers(visits[..n], flare, f).value;
      forall i | 0 <= i < n ensures outs[i] == Hadamard(Transmitted(transmission, visits[..i + 1], |flare|), flare) {
        assert visits[..n][..i + 1] == visits[..i + 1];
      }
      var input := if n == 0 then flare else outs[n - 1];
      var before := Transmitted(transmission, visits[..n], |flare|);
      assert input == Hadamard(before, flare) by {
        if n == 0 {
          assert visits[..n] == [];
          HadamardOnes(flare);
        }
      }
      assert visits[..n + 1][..n] == visits[..n];
      assert visits == visits[..n + 1];
      HadamardAssociates(transmission(visits[n]), before, flare);
      assert r.value == outs + [Hadamard(transmission(visits[n]), input)];
    }
  }

  lemma HadamardOnes(v: Vector)
    ensures Hadamard(Ones(|v|), v) == v
  {
  }

  lemma HadamardAssociates(a: Vector, b: Vector, c: Vector)
    requires |a| == |b| == |c|
    ensures Hadamard(a, Hadamard(b, c)) == Hadamard(Hadamard(a, b), c)
  {
    var l, r := Hadamard(a, Hadamard(b, c)), Hadamard(Hadamard(a, b), c);
    forall j | 0 <= j < |a| ensures l[j] == r[j] {
      assert Hadamard(b, c)[j] == b[j] * c[j] && Hadamard(a, b)[j] == a[j] * b[j];
      Associates(a[j], b[j], c[j]);
    }
  }

  lemma Associates(x: real, y: real, z: real)
    ensures x * (y * z) == (x * y) * z
  {
  }
}
