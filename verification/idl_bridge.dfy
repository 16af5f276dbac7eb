/** The text side of the SSW IDL bridge in `sim_src/sswidl_bridge.py`: the power law
    with a pivot, the command script sent to IDL, the slicing of IDL's output between
    two delimiter lines and the flattening of that output into floats.  Running IDL is
    not part of the model: its standard output is an input here. */
module IdlBridge {
  import opened Outcomes
  import opened Linear
  import opened RealMath
  import Text

  /** `s * n`. */
  function Repeat(s: string, n: nat): (r: string)
    ensures |r| == |s| * n
  {
    if n == 0 then "" else s + Repeat(s, n - 1)
  }

  /** The line IDL is told to print before and after the requested output. */
  const CmdDoneIdentifier: string := Repeat("*-*", 10)

  /** The delimiter is ten copies of `*-*`, thirty characters and no newline. */
  lemma CmdDoneIdentifierShape()
    ensures CmdDoneIdentifier == "*-**-**-**-**-**-**-**-**-**-*"
    ensures |CmdDoneIdentifier| == 30 && '\n' !in CmdDoneIdentifier
  {
  }

  // ---------------------------------------------------------------- power law

  /** `power_law_with_pivot`: `reference_flux · (e_pivot / E)^index` at every energy. */
  function PowerLawWithPivot(m: Transcendentals, energies: Vector, referenceFlux: real, index: real, pivot: real): (f: Vector)
    requires forall i :: 0 <= i < |energies| ==> energies[i] != 0.0
    ensures |f| == |energies|
  {
    seq(|energies|, i requires 0 <= i < |energies| => referenceFlux * Pow(m, pivot / energies[i], index))
  }

  /** At the pivot energy the law gives the reference flux, whatever the index. */
  lemma PowerLawAtPivot(m: Transcendentals, energies: Vector, referenceFlux: real, index: real, pivot: real, i: nat)
    requires ExpLaws(m) && LogLaws(m)
    requires forall j :: 0 <= j < |energies| ==> energies[j] != 0.0
    requires i < |energies| && energies[i] == pivot
    ensures PowerLawWithPivot(m, energies, referenceFlux, index, pivot)[i] == referenceFlux
  {
    assert pivot / energies[i] == 1.0;
    PowOfOne(m, index);
  }

  // ---------------------------------------------------------------- the command script

  /** `'print, "<delimiter>"'`. */
  function PrintDelimiter(): string {
    "print, \"" + CmdDoneIdentifier + "\""
  }

  /** The five IDL commands: compile the script, print the delimiter, call the
      function with the comma-joined arguments, print the delimiter, exit. */
  function CommandLines(compileTarget: string, scriptName: string, args: seq<string>): (lines: seq<string>)
    ensures |lines| == 5 && lines[4] == "exit"
    ensures lines[1] == lines[3] == PrintDelimiter()
  {
    [".compile " + compileTarget,
     PrintDelimiter(),
     scriptName + "(" + Text.Join(args, ',') + ")",
     PrintDelimiter(),
     "exit"]
  }

  /** The text written to IDL's standard input (`run_sswidl_script`); arguments are
      given already converted by `str`. */
  function CommandScript(scriptPath: string, scriptName: string, args: seq<string>): string {
    Text.Join(CommandLines(scriptPath, scriptName, args), '\n')
  }

  /** The script is exactly its five command lines, one per line, as long as no
      name or argument contains a newline. */
  lemma CommandScriptLines(scriptPath: string, scriptName: string, args: seq<string>)
    requires '\n' !in scriptPath && '\n' !in scriptName
    requires forall i :: 0 <= i < |args| ==> '\n' !in args[i]
    ensures Text.Split(CommandScript(scriptPath, scriptName, args), '\n') == CommandLines(scriptPath, scriptName, args)
  {
    var lines := CommandLines(scriptPath, scriptName, args);
    CmdDoneIdentifierShape();
    JoinAvoids(args, ',', '\n');
    forall i | 0 <= i < 5 ensures '\n' !in lines[i] {
      NoNewlineInConcat(lines, i, scriptPath, scriptName, Text.Join(args, ','));
    }
    Text.SplitJoin(lines, '\n');
  }

  lemma NoNewlineInConcat(lines: seq<string>, i: nat, path: string, name: string, joined: string)
    requires lines == [".compile " + path, PrintDelimiter(), name + "(" + joined + ")", PrintDelimiter(), "exit"]
    requires i < 5 && '\n' !in path && '\n' !in name && '\n' !in joined && '\n' !in CmdDoneIdentifier
    ensures '\n' !in lines[i]
  {
    if i == 0 {
      assert forall k :: 0 <= k < |".compile "| ==> ".compile "[k] != '\n';
    } else if i == 1 || i == 3 {
      assert forall k :: 0 <= k < |"print, \""| ==> "print, \""[k] != '\n';
    }
  }

  /** Joining with one separator introduces no other character. */
  lemma {:induction false} JoinAvoids(parts: seq<string>, sep: char, c: char)
    requires sep != c && forall i :: 0 <= i < |parts| ==> c !in parts[i]
    ensures c !in Text.Join(parts, sep)
  {
    if |parts| > 1 {
      JoinAvoids(parts[1..], sep, c);
      assert Text.Join(parts, sep) == parts[0] + [sep] + Text.Join(parts[1..], sep);
    }
  }

  // ---------------------------------------------------------------- output slicing

  /** `lines.index(x, start)`: the first index at or after `start` holding `x`. */
  function IndexFrom(lines: seq<string>, x: string, start: nat): (r: Result<nat>)
    ensures r.Ok? ==> start <= r.value < |lines| && lines[r.value] == x
    ensures r.Ok? ==> forall k :: start <= k < r.value ==> lines[k] != x
    ensures r.Err? <==> forall k :: start <= k < |lines| ==> lines[k] != x
    ensures r.Err? ==> r.error == NotInList(x)
    decreases |lines| - start
  {
    if start >= |lines| then Err(NotInList(x))
    else if lines[start] == x then Ok(start)
    else IndexFrom(lines, x, start + 1)
  }

  /** The ValueError `list.index` raises. */
  function NotInList(x: string): Error {
    ValueError("'" + x + "' is not in list")
  }

  /** The message raised when IDL printed nothing between the delimiters. */
  const NothingReturned: string :=
    "Nothing returned from IDL. check that your script isn't broken/missing. it has to be in the same folder as the bridge file"

  /** The lines strictly between the first delimiter line and the next one, before
      the emptiness check. */
  function Between(lines: seq<string>): (r: Result<seq<string>>)
    ensures r.Err? ==> r.error == NotInList(CmdDoneIdentifier)
    ensures r.Ok? ==> forall k :: 0 <= k < |r.value| ==> r.value[k] != CmdDoneIdentifier
  {
    var d := CmdDoneIdentifier;
    match IndexFrom(lines, d, 0)
    case Err(e) => Err(e)
    case Ok(first) =>
      match IndexFrom(lines, d, first + 1)
      case Err(e) => Err(e)
      case Ok(last) =>
        Ok(lines[first + 1..last])
  }

  /** The slicing step of `run_sswidl_script` on IDL's output lines: an empty block
      raises ValueError with the fixed message, and a missing delimiter re-raises
      the ValueError of `list.index`. */
  function ExtractOutput(lines: seq<string>): (r: Result<seq<string>>)
    ensures r.Ok? ==> |r.value| > 0 && Between(lines) == r
    ensures r.Err? ==> r.error.ValueError?
    ensures r.Err? <==> Between(lines).Err? || Between(lines).value == []
  {
    match Between(lines)
    case Err(e) => Err(e)
    case Ok(out) => if |out| == 0 then Err(ValueError(NothingReturned)) else Ok(out)
  }

  /** The output split into lines as `out.split(os.linesep)` does on a POSIX system. */
  function OutputLines(stdout: string): seq<string> {
    Text.Split(stdout, '\n')
  }

  /** Whatever surrounds a block framed by two delimiter lines, the block comes back,
      provided the text before it and the block itself hold no delimiter line. */
  lemma BetweenFramed(before: seq<string>, block: seq<string>, after: seq<string>)
    requires forall k :: 0 <= k < |before| ==> before[k] != CmdDoneIdentifier
    requires forall k :: 0 <= k < |block| ==> block[k] != CmdDoneIdentifier
    ensures Between(before + [CmdDoneIdentifier] + block + [CmdDoneIdentifier] + after) == Ok(block)
  {
    var d := CmdDoneIdentifier;
    var lines := before + [d] + block + [d] + after;
    var first := |before|;
    var last := |before| + 1 + |block|;
    assert lines[first] == d && lines[last] == d;
    IndexFromFirst(lines, d, 0, first);
    IndexFromFirst(lines, d, first + 1, last);
    assert lines[first + 1..last] == block;
  }

  lemma {:induction false} IndexFromFirst(lines: seq<string>, x: string, start: nat, k: nat)
    requires start <= k < |lines| && lines[k] == x
    requires forall j :: start <= j < k ==> lines[j] != x
    ensures IndexFrom(lines, x, start) == Ok(k)
    decreases k - start
  {
    if start < k {
      IndexFromFirst(lines, x, start + 1, k);
    }
  }

  lemma ExtractFramed(before: seq<string>, block: seq<string>, after: seq<string>)
    requires forall k :: 0 <= k < |before| ==> before[k] != CmdDoneIdentifier
    requires forall k :: 0 <= k < |block| ==> block[k] != CmdDoneIdentifier
    ensures var r := ExtractOutput(before + [CmdDoneIdentifier] + block + [CmdDoneIdentifier] + after);
      (|block| > 0 ==> r == Ok(block)) && (|block| == 0 ==> r == Err(ValueError(NothingReturned)))
  {
    BetweenFramed(before, block, after);
  }

  // ---------------------------------------------------------------- clean_table_output

  /** The whitespace-separated tokens of every line, line by line. */
  function LineTokens(lines: seq<string>): seq<string> {
    if |lines| == 0 then [] else Text.Tokens(Text.Strip(lines[0])) + LineTokens(lines[1..])
  }

  /** `parse` applied to every token in order, stopping at the first failure. */
  function ParseAll(tokens: seq<string>, parse: string -> Result<real>): (r: Result<Vector>)
    ensures r.Ok? ==> |r.value| == |tokens|
    ensures r.Ok? ==> forall i :: 0 <= i < |tokens| ==> parse(tokens[i]) == Ok(r.value[i])
    ensures r.Err? ==> exists i :: 0 <= i < |tokens| && parse(tokens[i]) == Err(r.error)
    ensures r.Err? <==> exists i :: 0 <= i < |tokens| && parse(tokens[i]).Err?
  {
    if |tokens| == 0 then Ok([])
    else
      match parse(tokens[0])
      case Err(e) => Err(e)
      case Ok(v) =>
        match ParseAll(tokens[1..], parse)
        case Err(e) =>
          var i :| 0 <= i < |tokens[1..]| && parse(tokens[1..][i]) == Err(e);
          assert tokens[1..][i] == tokens[i + 1];
          Err(e)
        case Ok(vs) =>
          assert forall i :: 0 < i < |tokens| ==> tokens[i] == tokens[1..][i - 1];
          Ok([v] + vs)
  }

  /** `clean_table_output`: `float` of every token of every line. */
  function CleanTableOutput(lines: seq<string>): (r: Result<Vector>)
    ensures r.Ok? ==> |r.value| == |LineTokens(lines)|
    ensures r.Err? ==> r.error.ValueError?
  {
    var r := ParseAll(LineTokens(lines), Text.ParseFloat);
    assert r.Err? ==> r.error.ValueError? by {
      if r.Err? {
        var i :| 0 <= i < |LineTokens(lines)| && Text.ParseFloat(LineTokens(lines)[i]) == Err(r.error);
      }
    }
    r
  }

  lemma {:induction false} LineTokensOfConcat(a: seq<string>, b: seq<string>)
    ensures LineTokens(a + b) == LineTokens(a) + LineTokens(b)
  {
    if |a| > 0 {
      assert (a + b)[1..] == a[1..] + b;
      LineTokensOfConcat(a[1..], b);
    } else {
      assert a + b == b;
    }
  }

  lemma ParseAllOfConcat(a: seq<string>, b: seq<string>, parse: string -> Result<real>)
    requires ParseAll(a, parse).Ok? && ParseAll(b, parse).Ok?
    ensures ParseAll(a + b, parse) == Ok(ParseAll(a, parse).value + ParseAll(b, parse).value)
  {
    var va, vb := ParseAll(a, parse).value, ParseAll(b, parse).value;
    forall i | 0 <= i < |a + b| ensures parse((a + b)[i]) == Ok((va + vb)[i]) {
      if i < |a| {
        assert (a + b)[i] == a[i];
      } else {
        assert (a + b)[i] == b[i - |a|];
      }
    }
    ParseAllOfValues(a + b, va + vb, parse);
  }

  /** Tables are flattened line after line. */
  lemma CleanTableOfConcat(a: seq<string>, b: seq<string>)
    requires CleanTableOutput(a).Ok? && CleanTableOutput(b).Ok?
    ensures CleanTableOutput(a + b) == Ok(CleanTableOutput(a).value + CleanTableOutput(b).value)
  {
    LineTokensOfConcat(a, b);
    ParseAllOfConcat(LineTokens(a), LineTokens(b), Text.ParseFloat);
  }

  /** Parsing tokens that all parse gives their values. */
  lemma {:induction false} ParseAllOfValues(tokens: seq<string>, vs: Vector, parse: string -> Result<real>)
    requires |tokens| == |vs| && forall i :: 0 <= i < |tokens| ==> parse(tokens[i]) == Ok(vs[i])
    ensures ParseAll(tokens, parse) == Ok(vs)
  {
    if |tokens| > 0 {
      assert forall i :: 0 <= i < |tokens| - 1 ==> tokens[1..][i] == tokens[i + 1] && vs[1..][i] == vs[i + 1];
      ParseAllOfValues(tokens[1..], vs[1..], parse);
      assert vs == [vs[0]] + vs[1..];
    }
  }

  /** A line of space-separated natural numbers is read back as those numbers, in order. */
  lemma CleanTableOfLine(ns: seq<nat>)
    requires |ns| > 0
    ensures CleanTableOutput([Text.Join(Numerals(ns), ' ')]) == Ok(Reals(ns))
  {
    var ws := Numerals(ns);
    var line := Text.Join(ws, ' ');
    assert LineTokens([line]) == ws by {
      forall i | 0 <= i < |ws| ensures |ws[i]| > 0 && Text.NoSpace(ws[i]) {
        NumeralNoSpace(ws[i]);
      }
      JoinEnds(ws, ' ');
      Text.StripOfTrimmed(line);
      Text.TokensOfJoin(ws);
      assert [line][1..] == [];
      assert Text.Tokens(Text.Strip(line)) + [] == ws;
    }
    assert ParseAll(ws, Text.ParseFloat) == Ok(Reals(ns)) by {
      forall i | 0 <= i < |ws| ensures Text.ParseFloat(ws[i]) == Ok(Reals(ns)[i]) {
        Text.ParseFloatOfNat(ns[i]);
      }
      ParseAllOfValues(ws, Reals(ns), Text.ParseFloat);
    }
  }

  function Reals(ns: seq<nat>): (v: Vector)
    ensures |v| == |ns| && forall i :: 0 <= i < |ns| ==> v[i] == ns[i] as real
  {
    seq(|ns|, i requires 0 <= i < |ns| => ns[i] as real)
  }

  /** `str(n)` of every number. */
  function Numerals(ns: seq<nat>): (ws: seq<string>)
    ensures |ws| == |ns| && forall i :: 0 <= i < |ns| ==> ws[i] == Text.NatToString(ns[i])
  {
    seq(|ns|, i requires 0 <= i < |ns| => Text.NatToString(ns[i]))
  }

  lemma NumeralNoSpace(w: string)
    requires Text.AllDigits(w)
    ensures Text.NoSpace(w)
  {
    forall k | 0 <= k < |w| ensures !Text.IsSpace(w[k]) {
      assert Text.IsDigit(w[k]);
    }
  }

  /** A join of words that do not start or end with the separator neither starts nor
      ends with a blank. */
  lemma {:induction false} JoinEnds(ws: seq<string>, sep: char)
    requires |ws| > 0
    requires forall i :: 0 <= i < |ws| ==> |ws[i]| > 0 && Text.NoSpace(ws[i])
    ensures var s := Text.Join(ws, sep); |s| > 0 && !Text.IsSpace(s[0]) && !Text.IsSpace(s[|s| - 1])
  {
    if |ws| > 1 {
      JoinEnds(ws[1..], sep);
      var rest := Text.Join(ws[1..], sep);
      var s := ws[0] + [sep] + rest;
      assert Text.Join(ws, sep) == s;
      assert s[0] == ws[0][0];
      assert s[|s| - 1] == rest[|rest| - 1];
    }
  }

  // ---------------------------------------------------------------- f_vth_bridge

  /** `f_vth_bridge(eng_start, eng_end, de, emission_measure, plasma_temperature,
      relative_abundance)`: the script sent to IDL (arguments already converted by
      `str`) and the table read back from IDL's standard output. */
  function FVthScript(scriptPath: string, args: seq<string>): string
    requires |args| == 6
  {
    CommandScript(scriptPath, "f_vth_bridge", args)
  }

  function FVthResult(stdout: string): (r: Result<Vector>)
    ensures r.Err? ==> r.error.ValueError?
  {
    match ExtractOutput(OutputLines(stdout))
    case Err(e) => Err(e)
    case Ok(out) => CleanTableOutput(out)
  }
}
