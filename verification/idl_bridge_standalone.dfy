/** The stand-alone copy of the IDL bridge in `idl-python-bridge/sswidl_bridge.py`.  It
    shares the delimiter, the power law and the table flattening with `IdlBridge`, and
    differs in three places: `f_vth_bridge` takes an energy array and derives the
    start, end and rounded step from it, the script is compiled by its bare name, and
    an empty block between the delimiters is returned rather than rejected. */
module StandaloneIdlBridge {
  import opened Outcomes
  import opened Linear
  import IdlBridge
  import Text

  // ---------------------------------------------------------------- energy arguments

  /** `np.min` of a non-empty array. */
  function Min(xs: Vector): (r: real)
    requires |xs| > 0
    ensures forall i :: 0 <= i < |xs| ==> r <= xs[i]
    ensures exists i :: 0 <= i < |xs| && r == xs[i]
  {
    if |xs| == 1 then xs[0]
    else
      var rest := Min(xs[1..]);
      assert forall i :: 1 <= i < |xs| ==> xs[i] == xs[1..][i - 1];
      if xs[0] <= rest then xs[0] else rest
  }

  /** `np.max` of a non-empty array. */
  function Max(xs: Vector): (r: real)
    requires |xs| > 0
    ensures forall i :: 0 <= i < |xs| ==> xs[i] <= r
    ensures exists i :: 0 <= i < |xs| && r == xs[i]
  {
    if |xs| == 1 then xs[0]
    else
      var rest := Max(xs[1..]);
      assert forall i :: 1 <= i < |xs| ==> xs[i] == xs[1..][i - 1];
      if rest <= xs[0] then xs[0] else rest
  }

  /** The step rounding grain, keV. */
  const Grain: real := 0.01

  /** `de - (de % 0.01)`: Python's `%` takes the sign of the divisor, so the step is
      rounded down to a whole number of grains. */
  function RoundedStep(de: real): real {
    (de / Grain).Floor as real * Grain
  }

  /** The rounded step is a whole multiple of 0.01 within one grain below the raw step. */
  lemma RoundedStepBounds(de: real)
    ensures RoundedStep(de) <= de < RoundedStep(de) + Grain
    ensures (RoundedStep(de) / Grain).Floor as real == RoundedStep(de) / Grain
  {
    var k := (de / Grain).Floor;
    assert k as real <= de / Grain < k as real + 1.0;
    assert RoundedStep(de) == k as real * Grain;
    assert RoundedStep(de) / Grain == k as real;
  }

  /** A step already on the grain is left alone. */
  lemma RoundedStepOfGrain(k: int)
    ensures RoundedStep(k as real * Grain) == k as real * Grain
  {
    assert k as real * Grain / Grain == k as real;
  }

  /** The start, end and step `f_vth_bridge` derives from the energy array, followed by
      the remaining arguments.  An empty array fails in `np.min` with ValueError and a
      one-element array fails reading `energy_array[1]` with IndexError. */
  function FVthArguments(energies: Vector, emissionMeasure: real, plasmaTemperature: real, relativeAbundance: real): (r: Result<seq<real>>)
    ensures r.Err? <==> |energies| < 2
    ensures |energies| == 0 ==> r.Err? && r.error.ValueError?
    ensures |energies| == 1 ==> r == Err(IndexError)
    ensures r.Ok? ==> |r.value| == 6 && r.value[3..] == [emissionMeasure, plasmaTemperature, relativeAbundance]
    ensures r.Ok? ==> (forall i :: 0 <= i < |energies| ==> r.value[0] <= energies[i] <= r.value[1])
    ensures r.Ok? ==> r.value[0] in energies && r.value[1] in energies
  {
    if |energies| == 0 then Err(ValueError("zero-size array to reduction operation minimum which has no identity"))
    else if |energies| == 1 then Err(IndexError)
    else
      Ok([Min(energies), Max(energies), RoundedStep(energies[1] - energies[0]),
          emissionMeasure, plasmaTemperature, relativeAbundance])
  }

  /** On an ascending grid, such as one from `np.arange`, the derived arguments are
      its first and last energies and its first spacing rounded to the grain. */
  lemma FVthArgumentsOfAscending(energies: Vector, em: real, pt: real, ra: real)
    requires |energies| >= 2
    requires forall i, j :: 0 <= i <= j < |energies| ==> energies[i] <= energies[j]
    ensures FVthArguments(energies, em, pt, ra)
      == Ok([energies[0], energies[|energies| - 1], RoundedStep(energies[1] - energies[0]), em, pt, ra])
  {
    assert Min(energies) == energies[0] by {
      assert Min(energies) <= energies[0];
    }
    assert Max(energies) == energies[|energies| - 1] by {
      assert energies[|energies| - 1] <= Max(energies);
    }
  }

  // ---------------------------------------------------------------- running IDL

  /** The text written to IDL: the same five commands as `IdlBridge`, compiling the
      script by its bare name. */
  function CommandScript(scriptName: string, args: seq<string>): string {
    IdlBridge.CommandScript(scriptName, scriptName, args)
  }

  /** The script is its five command lines, the first compiling the bare name. */
  lemma CommandScriptLines(scriptName: string, args: seq<string>)
    requires '\n' !in scriptName
    requires forall i :: 0 <= i < |args| ==> '\n' !in args[i]
    ensures var lines := Text.Split(CommandScript(scriptName, args), '\n');
      && lines == IdlBridge.CommandLines(scriptName, scriptName, args)
      && lines[0] == ".compile " + scriptName
      && lines[2] == scriptName + "(" + Text.Join(args, ',') + ")"
  {
    IdlBridge.CommandScriptLines(scriptName, scriptName, args);
  }

  /** The slicing step of `run_sswidl_script`: the lines between the first delimiter
      line and the next, possibly none; a missing delimiter raises ValueError. */
  function ExtractOutput(lines: seq<string>): (r: Result<seq<string>>)
    ensures r.Err? ==> r.error == IdlBridge.NotInList(IdlBridge.CmdDoneIdentifier)
  {
    IdlBridge.Between(lines)
  }

  /** Both bridges slice the same block out of the same output; they part only when
      the block is empty, which this one returns and the other rejects. */
  lemma ExtractAgrees(lines: seq<string>)
    ensures IdlBridge.ExtractOutput(lines).Ok? ==> ExtractOutput(lines) == IdlBridge.ExtractOutput(lines)
    ensures ExtractOutput(lines).Err? <==> IdlBridge.Between(lines).Err?
    ensures ExtractOutput(lines) == Ok([]) <==>
      IdlBridge.ExtractOutput(lines) == Err(ValueError(IdlBridge.NothingReturned))
  {
    assert IdlBridge.NotInList(IdlBridge.CmdDoneIdentifier) != ValueError(IdlBridge.NothingReturned) by {
      IdlBridge.CmdDoneIdentifierShape();
      var m := "'" + IdlBridge.CmdDoneIdentifier + "' is not in list";
      assert |m| == 47;
      assert |IdlBridge.NothingReturned| > 47;
    }
  }

  /** A framed block comes back whatever its length. */
  lemma ExtractFramed(before: seq<string>, block: seq<string>, after: seq<string>)
    requires forall k :: 0 <= k < |before| ==> before[k] != IdlBridge.CmdDoneIdentifier
    requires forall k :: 0 <= k < |block| ==> block[k] != IdlBridge.CmdDoneIdentifier
    ensures ExtractOutput(before + [IdlBridge.CmdDoneIdentifier] + block + [IdlBridge.CmdDoneIdentifier] + after) == Ok(block)
  {
    IdlBridge.BetweenFramed(before, block, after);
  }

  /** `f_vth_bridge` on an energy array: the script sent to IDL, where `show` is
      Python's `str` of a float. */
  function FVthScript(show: real -> string, energies: Vector, emissionMeasure: real, plasmaTemperature: real, relativeAbundance: real): (r: Result<string>)
    ensures r.Err? <==> |energies| < 2
  {
    match FVthArguments(energies, emissionMeasure, plasmaTemperature, relativeAbundance)
    case Err(e) => Err(e)
    case Ok(args) => Ok(CommandScript("f_vth_bridge", Shown(show, args)))
  }

  /** `[str(a) for a in args]`. */
  function Shown(show: real -> string, args: seq<real>): (r: seq<string>)
    ensures |r| == |args| && forall i :: 0 <= i < |args| ==> r[i] == show(args[i])
  {
    seq(|args|, i requires 0 <= i < |args| => show(args[i]))
  }

  /** The table read back from IDL's standard output: an empty block gives an empty
      array. */
  function FVthResult(stdout: string): (r: Result<Vector>)
    ensures r.Err? ==> r.error.ValueError?
    ensures ExtractOutput(IdlBridge.OutputLines(stdout)) == Ok([]) ==> r == Ok([])
  {
    match ExtractOutput(IdlBridge.OutputLines(stdout))
    case Err(e) => Err(e)
    case Ok(out) => IdlBridge.CleanTableOutput(out)
  }

  /** Whenever the other bridge reads a table, this one reads the same table. */
  lemma FVthResultAgrees(stdout: string)
    requires IdlBridge.FVthResult(stdout).Ok?
    ensures FVthResult(stdout) == IdlBridge.FVthResult(stdout)
  {
    ExtractAgrees(IdlBridge.OutputLines(stdout));
  }
}
