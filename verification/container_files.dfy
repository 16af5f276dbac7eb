/** What the two HaFX simulation containers share: the dictionary of the two
    response matrices, its save guard, and the name of the file a container is saved
    to, from which an old saved file's GOES class is read back. */
module ContainerFiles {
  import opened Outcomes
  import Text

  // ---------------------------------------------------------------- the matrices

  const DispersedKey: string := "dispersed_response_matrix"
  const PureKey: string := "pure_response_matrix"

  /** `self.matrices`, keyed by `MATRIX_KEYS`: each value is None until computed. */
  datatype Matrices<M> = Matrices(dispersed: Option<M>, pure: Option<M>)

  /** `{k: None for k in MATRIX_KEYS}`. */
  function NoMatrices<M>(): (ms: Matrices<M>)
    ensures ms.dispersed.None? && ms.pure.None?
  {
    Matrices(None, None)
  }

  /** The keys of the dictionary, None being a possible key of a Python dict. */
  function Keys<M>(ms: Matrices<M>): set<Option<string>> {
    {Some(DispersedKey), Some(PureKey)}
  }

  const NotComputed: Error := ValueError("Matrices haven't been computed so we can't save them.")
  const NoSpectrum: Error := ValueError("Stored FlareSpectrum is None--simulation probably hasn't run.")

  /** `None in self.matrices` as written: membership among the keys, which are the
      two key strings. */
  predicate SaveGuardAsWritten<M>(ms: Matrices<M>) {
    None in Keys(ms)
  }

  /** The guard never fires, even on matrices that were never computed. */
  lemma SaveGuardNeverFires<M>(ms: Matrices<M>)
    ensures !SaveGuardAsWritten(ms)
    ensures !SaveGuardAsWritten(NoMatrices<M>())
  {
  }

  /** The evident intent, `None in self.matrices.values()`: refuse while either
      matrix is missing. */
  predicate SaveGuard<M>(ms: Matrices<M>) {
    ms.dispersed.None? || ms.pure.None?
  }

  /** The intended guard refuses a container before `simulate` and accepts one with
      both matrices. */
  lemma SaveGuardRefusesUncomputed<M>(ms: Matrices<M>)
    ensures SaveGuard(NoMatrices<M>())
    ensures SaveGuard(ms) <==> !(ms.dispersed.Some? && ms.pure.Some?)
  {
  }

  // ---------------------------------------------------------------- file names

  /** `f"{prefix or 'no_prefix'}_{gc or 'no_goes'}_{al_thick:.3e}cm_hafx"`, with the
      formatted thickness given. */
  function FileName(prefix: Option<string>, goesClass: string, thickText: string): string {
    var p := if prefix.None? || prefix.value == "" then "no_prefix" else prefix.value;
    var g := if goesClass == "" then "no_goes" else goesClass;
    p + "_" + g + "_" + thickText + "cm_hafx"
  }

  /** `filename.split('_')[-3]`: the fallback for saved files without a class. */
  function ClassFromFileName(filename: string): (r: Result<string>)
    ensures r.Err? <==> |Text.Split(filename, '_')| < 3
    ensures r.Err? ==> r.error == IndexError
    ensures r.Ok? ==> '_' !in r.value
  {
    var parts := Text.Split(filename, '_');
    if |parts| < 3 then Err(IndexError) else Ok(parts[|parts| - 3])
  }

  /** Text without the separator splits into itself. */
  lemma SplitOfPlain(s: string)
    requires '_' !in s
    ensures Text.Split(s, '_') == [s]
  {
  }

  /** The split of a generated file name, wherever the file is and whatever
      extension it was given: the class and the thickness are the third- and
      second-last parts. */
  lemma SplitOfFileName(lead: string, p: string, g: string, thickText: string, ext: string)
    requires '_' !in g && '_' !in thickText && '_' !in ext
    ensures var parts := Text.Split(lead + p + "_" + g + "_" + thickText + "cm_hafx" + ext, '_');
      parts == Text.Split(lead + p, '_') + [g, thickText + "cm", "hafx" + ext]
  {
    var x, y := thickText + "cm", "hafx" + ext;
    var t3 := x + ['_'] + y;
    var t2 := g + ['_'] + t3;
    var s := lead + p + "_" + g + "_" + thickText + "cm_hafx" + ext;
    assert s == (lead + p) + ['_'] + t2 by {
      assert "cm_hafx" == "cm" + ['_'] + "hafx";
    }
    SplitOfPlain(x);
    SplitOfPlain(y);
    SplitOfPlain(g);
    assert Text.Split(t3, '_') == [x, y] by { Text.SplitOfConcat(x, y, '_'); }
    assert Text.Split(t2, '_') == [g, x, y] by { Text.SplitOfConcat(g, t3, '_'); }
    Text.SplitOfConcat(lead + p, t2, '_');
  }

  /** Reading the class back from a saved file recovers the class the name was made
      from, when it has no underscore, whatever the directory, prefix, thickness
      text and extension; a file saved without a class reads back as `goes`, from
      `no_goes`. */
  lemma FileNameRoundTrip(lead: string, prefix: Option<string>, goesClass: string, thickText: string, ext: string)
    requires '_' !in goesClass && '_' !in thickText && '_' !in ext
    ensures goesClass != "" ==> ClassFromFileName(lead + FileName(prefix, goesClass, thickText) + ext) == Ok(goesClass)
    ensures goesClass == "" ==> ClassFromFileName(lead + FileName(prefix, goesClass, thickText) + ext) == Ok("goes")
  {
    var p := if prefix.None? || prefix.value == "" then "no_prefix" else prefix.value;
    if goesClass != "" {
      var name := lead + FileName(prefix, goesClass, thickText) + ext;
      assert name == lead + p + "_" + goesClass + "_" + thickText + "cm_hafx" + ext;
      ThirdLast(lead, p, goesClass, thickText, ext);
    } else {
      var name := lead + FileName(prefix, goesClass, thickText) + ext;
      assert name == lead + (p + "_no") + "_" + "goes" + "_" + thickText + "cm_hafx" + ext;
      ThirdLast(lead, p + "_no", "goes", thickText, ext);
    }
  }

  /** The class read back from a name built of these pieces is `g`. */
  lemma ThirdLast(lead: string, p: string, g: string, thickText: string, ext: string)
    requires '_' !in g && '_' !in thickText && '_' !in ext
    ensures ClassFromFileName(lead + p + "_" + g + "_" + thickText + "cm_hafx" + ext) == Ok(g)
  {
    var parts := Text.Split(lead + p + "_" + g + "_" + thickText + "cm_hafx" + ext, '_');
    SplitOfFileName(lead, p, g, thickText, ext);
    var front := Text.Split(lead + p, '_');
    assert parts == front + [g, thickText + "cm", "hafx" + ext];
    assert parts[|parts| - 3] == g;
  }
}
