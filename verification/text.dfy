/** The Python string operations the simulator relies on, over ASCII: `str.split(sep)`,
    `str.split()`, `str.strip()`, `str.join`, `str.upper()` on one character,
    `str.title()`, `str.replace(pat, '')` and `float(...)` on decimal literals. */
module Text {
  import opened Outcomes

  /** Python's `str.isspace()` restricted to ASCII: tab through carriage return,
      the four information separators and the space. */
  predicate IsSpace(c: char) {
    ('\t' <= c <= '\r') || ('\U{001C}' <= c <= ' ')
  }

  predicate NoSpace(s: string) {
    forall i :: 0 <= i < |s| ==> !IsSpace(s[i])
  }

  predicate AllSpace(s: string) {
    forall i :: 0 <= i < |s| ==> IsSpace(s[i])
  }

  /** The first index of `c` in `s`, or `|s|` when it does not occur. */
  function Find(s: string, c: char): (i: nat)
    ensures i <= |s|
    ensures i < |s| ==> s[i] == c
    ensures forall j :: 0 <= j < i ==> s[j] != c
    ensures (i == |s|) == (c !in s)
  {
    if |s| == 0 then 0
    else if s[0] == c then 0
    else 1 + Find(s[1..], c)
  }

  // ---------------------------------------------------------------- split and join

  /** `sep.join(parts)`. */
  function Join(parts: seq<string>, sep: char): string {
    if |parts| == 0 then ""
    else if |parts| == 1 then parts[0]
    else parts[0] + [sep] + Join(parts[1..], sep)
  }

  /** `s.split(sep)` for a one-character separator: the text between consecutive
      separators, so there is always one more part than separators. */
  function Split(s: string, sep: char): (parts: seq<string>)
    ensures |parts| >= 1
    ensures forall i :: 0 <= i < |parts| ==> sep !in parts[i]
    ensures Join(parts, sep) == s
    decreases |s|
  {
    var i := Find(s, sep);
    if i == |s| then [s]
    else
      var rest := Split(s[i + 1..], sep);
      assert s == s[..i] + [sep] + s[i + 1..];
      [s[..i]] + rest
  }

  /** Splitting a join recovers the parts when no part contains the separator. */
  lemma {:induction false} SplitJoin(parts: seq<string>, sep: char)
    requires |parts| >= 1
    requires forall i :: 0 <= i < |parts| ==> sep !in parts[i]
    ensures Split(Join(parts, sep), sep) == parts
  {
    if |parts| > 1 {
      var s := Join(parts, sep);
      assert s == parts[0] + [sep] + Join(parts[1..], sep);
      assert s[..|parts[0]|] == parts[0];
      assert Find(s, sep) == |parts[0]| by {
        assert s[|parts[0]|] == sep;
        forall j | 0 <= j < |parts[0]| ensures s[j] != sep {
          assert s[j] == parts[0][j];
        }
        FindFirst(s, sep, |parts[0]|);
      }
      assert s[|parts[0]| + 1..] == Join(parts[1..], sep);
      SplitJoin(parts[1..], sep);
    }
  }

  /** Joining two lists of parts puts one separator between their joins. */
  lemma {:induction false} JoinOfConcat(p: seq<string>, q: seq<string>, sep: char)
    requires |p| >= 1 && |q| >= 1
    ensures Join(p + q, sep) == Join(p, sep) + [sep] + Join(q, sep)
    decreases |p|
  {
    assert (p + q)[0] == p[0];
    assert (p + q)[1..] == p[1..] + q;
    if |p| > 1 {
      JoinOfConcat(p[1..], q, sep);
    } else {
      assert p[1..] + q == q;
    }
  }

  /** Text around a separator splits into the parts of either side. */
  lemma SplitOfConcat(a: string, b: string, sep: char)
    ensures Split(a + [sep] + b, sep) == Split(a, sep) + Split(b, sep)
  {
    var p, q := Split(a, sep), Split(b, sep);
    JoinOfConcat(p, q, sep);
    assert forall i :: 0 <= i < |p + q| ==> sep !in (p + q)[i] by {
      forall i | 0 <= i < |p + q| ensures sep !in (p + q)[i] {
        if i < |p| { assert (p + q)[i] == p[i]; } else { assert (p + q)[i] == q[i - |p|]; }
      }
    }
    SplitJoin(p + q, sep);
  }

  /** `Find` returns the first occurrence. */
  lemma FindFirst(s: string, c: char, k: nat)
    requires k < |s| && s[k] == c
    requires forall j :: 0 <= j < k ==> s[j] != c
    ensures Find(s, c) == k
  {
  }

  // ---------------------------------------------------------------- whitespace tokens

  /** The length of the leading run of non-whitespace characters. */
  function WordLength(s: string): (k: nat)
    ensures k <= |s|
    ensures NoSpace(s[..k])
    ensures k < |s| ==> IsSpace(s[k])
  {
    if |s| == 0 || IsSpace(s[0]) then 0
    else
      var k := 1 + WordLength(s[1..]);
      assert s[..k] == [s[0]] + s[1..][..k - 1];
      k
  }

  /** `s.split()`: the maximal runs of non-whitespace characters, in order. */
  function Tokens(s: string): (ts: seq<string>)
    ensures forall i :: 0 <= i < |ts| ==> |ts[i]| > 0 && NoSpace(ts[i])
    ensures AllSpace(s) <==> ts == []
    decreases |s|
  {
    if |s| == 0 then []
    else if IsSpace(s[0]) then
      var ts := Tokens(s[1..]);
      assert AllSpace(s) <==> AllSpace(s[1..]) by {
        if AllSpace(s[1..]) {
          forall i | 0 <= i < |s| ensures IsSpace(s[i]) {
            if i > 0 { assert s[i] == s[1..][i - 1]; }
          }
        }
      }
      ts
    else
      var k := WordLength(s);
      [s[..k]] + Tokens(s[k..])
  }

  /** Space-joined words split back into the same words. */
  lemma {:induction false} TokensOfJoin(ws: seq<string>)
    requires forall i :: 0 <= i < |ws| ==> |ws[i]| > 0 && NoSpace(ws[i])
    ensures Tokens(Join(ws, ' ')) == ws
  {
    if |ws| == 1 {
      assert ws[0] + "" == ws[0];
      assert WordLength(ws[0]) == |ws[0]| by { WordLengthOfWord(ws[0], ""); }
      assert ws[0][..|ws[0]|] == ws[0];
      assert ws[0][|ws[0]|..] == "";
    } else if |ws| > 1 {
      var rest := Join(ws[1..], ' ');
      var s := ws[0] + [' '] + rest;
      assert Join(ws, ' ') == s;
      WordLengthOfWord(ws[0], [' '] + rest);
      assert s == ws[0] + ([' '] + rest);
      assert s[..|ws[0]|] == ws[0];
      assert s[|ws[0]|..] == [' '] + rest;
      assert ([' '] + rest)[1..] == rest;
      TokensOfJoin(ws[1..]);
    }
  }

  lemma {:induction false} WordLengthOfWord(w: string, tail: string)
    requires |w| > 0 && NoSpace(w)
    requires |tail| == 0 || IsSpace(tail[0])
    ensures WordLength(w + tail) == |w|
  {
    if |w| > 1 {
      assert (w + tail)[1..] == w[1..] + tail;
      WordLengthOfWord(w[1..], tail);
    } else {
      assert (w + tail)[1..] == tail;
    }
  }

  // ---------------------------------------------------------------- strip

  /** `s.lstrip()`. */
  function LStrip(s: string): (r: string)
    ensures |r| <= |s| && r == s[|s| - |r|..]
    ensures AllSpace(s[..|s| - |r|])
    ensures |r| > 0 ==> !IsSpace(r[0])
  {
    if |s| == 0 || !IsSpace(s[0]) then s
    else
      var r := LStrip(s[1..]);
      assert s[..|s| - |r|] == [s[0]] + s[1..][..|s| - 1 - |r|];
      r
  }

  /** `s.rstrip()`. */
  function RStrip(s: string): (r: string)
    ensures |r| <= |s| && r == s[..|r|]
    ensures AllSpace(s[|r|..])
    ensures |r| > 0 ==> !IsSpace(r[|r| - 1])
  {
    if |s| == 0 || !IsSpace(s[|s| - 1]) then s
    else
      var r := RStrip(s[..|s| - 1]);
      assert s[|r|..] == s[..|s| - 1][|r|..] + [s[|s| - 1]];
      r
  }

  /** `s.strip()`: the text with leading and trailing whitespace removed. */
  function Strip(s: string): (r: string)
    ensures |r| <= |s|
    ensures |r| > 0 ==> !IsSpace(r[0]) && !IsSpace(r[|r| - 1])
    ensures r == "" <==> AllSpace(s)
  {
    var l := LStrip(s);
    var r := RStrip(l);
    assert r == "" <==> AllSpace(s) by {
      if r == "" {
        assert l[|r|..] == l;
        assert s[..|s| - |l|] == s;
      }
    }
    r
  }

  /** Stripping changes nothing when both ends are already non-blank. */
  lemma StripOfTrimmed(s: string)
    requires |s| > 0 ==> !IsSpace(s[0]) && !IsSpace(s[|s| - 1])
    ensures Strip(s) == s
  {
  }

  // ---------------------------------------------------------------- case

  predicate IsUpperLetter(c: char) { 'A' <= c <= 'Z' }
  predicate IsLowerLetter(c: char) { 'a' <= c <= 'z' }
  predicate IsLetter(c: char) { IsUpperLetter(c) || IsLowerLetter(c) }

  /** `c.upper()`. */
  function UpperChar(c: char): (u: char)
    ensures IsLetter(c) ==> IsUpperLetter(u)
    ensures !IsLowerLetter(c) ==> u == c
  {
    if IsLowerLetter(c) then (c as int - 32) as char else c
  }

  /** `c.lower()`. */
  function LowerChar(c: char): (l: char)
    ensures IsLetter(c) ==> IsLowerLetter(l)
    ensures !IsUpperLetter(c) ==> l == c
  {
    if IsUpperLetter(c) then (c as int + 32) as char else c
  }

  /** `str.title()`: a letter is upper-cased when the character before it is not a
      letter and lower-cased otherwise; every other character is kept.  `afterLetter`
      says whether the text before `s` ended in a letter. */
  function TitleFrom(s: string, afterLetter: bool): (r: string)
    ensures |r| == |s|
    ensures forall i :: 0 <= i < |s| ==> (IsLetter(r[i]) <==> IsLetter(s[i]))
    ensures forall i :: 0 <= i < |s| && !IsLetter(s[i]) ==> r[i] == s[i]
  {
    if |s| == 0 then ""
    else if IsLetter(s[0]) then
      [if afterLetter then LowerChar(s[0]) else UpperChar(s[0])] + TitleFrom(s[1..], true)
    else [s[0]] + TitleFrom(s[1..], false)
  }

  function Title(s: string): string {
    TitleFrom(s, false)
  }

  /** Title-casing twice is title-casing once. */
  lemma {:induction false} TitleIdempotent(s: string, afterLetter: bool)
    ensures TitleFrom(TitleFrom(s, afterLetter), afterLetter) == TitleFrom(s, afterLetter)
  {
    if |s| > 0 {
      var t := TitleFrom(s, afterLetter);
      assert t[1..] == TitleFrom(s[1..], IsLetter(s[0]));
      TitleIdempotent(s[1..], IsLetter(s[0]));
    }
  }

  /** A title-cased word starts with a capital and continues in lower case. */
  lemma {:induction false} TitleOfWord(s: string, afterLetter: bool)
    requires forall i :: 0 <= i < |s| ==> IsLetter(s[i])
    ensures forall i :: 0 < i < |s| ==> IsLowerLetter(TitleFrom(s, afterLetter)[i])
    ensures |s| > 0 ==> (IsUpperLetter(TitleFrom(s, afterLetter)[0]) <==> !afterLetter)
  {
    if |s| > 0 {
      TitleOfWord(s[1..], true);
      var t := TitleFrom(s, afterLetter);
      assert t[1..] == TitleFrom(s[1..], true);
    }
  }

  // ---------------------------------------------------------------- replace

  /** `s.replace(pat, '')`: non-overlapping occurrences removed, scanning left to right. */
  function RemoveAll(s: string, pat: string): (r: string)
    requires |pat| > 0
    ensures |r| <= |s|
    decreases |s|
  {
    if |s| < |pat| then s
    else if s[..|pat|] == pat then RemoveAll(s[|pat|..], pat)
    else [s[0]] + RemoveAll(s[1..], pat)
  }

  /** Whether `pat` occurs in `s` starting at index `i`. */
  predicate OccursAt(s: string, pat: string, i: int) {
    0 <= i && i + |pat| <= |s| && s[i..i + |pat|] == pat
  }

  /** Whether `pat` occurs in `s` at some position. */
  ghost predicate Occurs(s: string, pat: string) {
    exists i :: OccursAt(s, pat, i)
  }

  /** Removing a pattern that does not occur leaves the text unchanged. */
  lemma {:induction false} RemoveAbsent(s: string, pat: string)
    requires |pat| > 0 && !Occurs(s, pat)
    ensures RemoveAll(s, pat) == s
    decreases |s|
  {
    if |s| >= |pat| {
      assert s[0..|pat|] == s[..|pat|];
      assert !OccursAt(s, pat, 0);
      forall i | OccursAt(s[1..], pat, i) ensures false {
        assert s[1..][i..i + |pat|] == s[i + 1..i + 1 + |pat|];
        assert OccursAt(s, pat, i + 1);
      }
      RemoveAbsent(s[1..], pat);
    }
  }

  // ---------------------------------------------------------------- numbers

  predicate IsDigit(c: char) { '0' <= c <= '9' }

  predicate AllDigits(s: string) {
    forall i :: 0 <= i < |s| ==> IsDigit(s[i])
  }

  /** The value of a run of decimal digits (0 for the empty run). */
  function DigitsValue(s: string): nat
    requires AllDigits(s)
  {
    if |s| == 0 then 0
    else DigitsValue(s[..|s| - 1]) * 10 + (s[|s| - 1] as int - '0' as int)
  }

  /** `str(n)` for a natural number. */
  function NatToString(n: nat): (s: string)
    ensures |s| > 0 && AllDigits(s)
  {
    if n < 10 then [('0' as int + n) as char]
    else NatToString(n / 10) + [('0' as int + n % 10) as char]
  }

  /** `str(i)` for an integer. */
  function IntToString(i: int): (s: string)
    ensures |s| > 0
  {
    if i < 0 then "-" + NatToString(-i) else NatToString(i)
  }

  lemma {:induction false} DigitsOfNatToString(n: nat)
    ensures DigitsValue(NatToString(n)) == n
  {
    if n >= 10 {
      var s := NatToString(n);
      assert s[..|s| - 1] == NatToString(n / 10);
      DigitsOfNatToString(n / 10);
    }
  }

  function Pow10(n: nat): (r: real)
    ensures r >= 1.0
  {
    if n == 0 then 1.0 else 10.0 * Pow10(n - 1)
  }

  /** The value of a mantissa `digits[.digits]` or `.digits`, or None. */
  function Mantissa(m: string): (v: Option<real>)
    ensures v.Some? ==> |m| > 0 && Numeral(m)
  {
    var p := Find(m, '.');
    var v := PointedValue(m[..p], if p < |m| then m[p + 1..] else "");
    if v.None? then None
    else
      assert Numeral(m) by {
        var ip := m[..p];
        var fp := if p < |m| then m[p + 1..] else "";
        forall i | 0 <= i < |m| ensures IsNumeralChar(m[i]) {
          if i < p { assert m[i] == ip[i]; }
          else if i > p { assert m[i] == fp[i - p - 1]; }
        }
      }
      v
  }

  /** The value of the digits `ip` before the point and `fp` after it, or None when
      either holds a non-digit or both are empty. */
  function PointedValue(ip: string, fp: string): (v: Option<real>)
    ensures v.Some? ==> AllDigits(ip) && AllDigits(fp) && |ip| + |fp| > 0
  {
    if !AllDigits(ip) || !AllDigits(fp) || |ip| + |fp| == 0 then None
    else Some(DigitsValue(ip) as real + DigitsValue(fp) as real / Pow10(|fp|))
  }

  /** The value of an exponent `[+|-]digits`, or None. */
  function Exponent(x: string): (k: Option<int>)
    ensures k.Some? ==> Numeral(x)
  {
    var signed := |x| > 0 && (x[0] == '+' || x[0] == '-');
    var xd := if signed then x[1..] else x;
    if |xd| == 0 || !AllDigits(xd) then None
    else
      assert Numeral(x) by {
        forall i | 0 <= i < |x| ensures IsNumeralChar(x[i]) {
          if signed && i > 0 { assert x[i] == xd[i - 1]; }
          else if !signed { assert x[i] == xd[i]; }
        }
      }
      Some(if |x| > 0 && x[0] == '-' then -(DigitsValue(xd) as int) else DigitsValue(xd))
  }

  /** The index of the first exponent letter, or `|b|`. */
  function ExponentIndex(b: string): (e: nat)
    ensures e <= |b|
    ensures e < |b| ==> b[e] == 'e' || b[e] == 'E'
  {
    if Find(b, 'e') < Find(b, 'E') then Find(b, 'e') else Find(b, 'E')
  }

  /** The value of an unsigned decimal literal `mantissa[(e|E)exponent]`, or None. */
  function UnsignedDecimal(b: string): (v: Option<real>)
    ensures v.Some? ==> |b| > 0 && Numeral(b)
  {
    var e := ExponentIndex(b);
    match Mantissa(b[..e])
    case None => None
    case Some(m) =>
      if e == |b| then
        assert b[..e] == b;
        Some(m)
      else
        match Exponent(b[e + 1..])
        case None => None
        case Some(k) =>
          NumeralAround(b, e);
          Some(if k < 0 then m / Pow10(-k) else m * Pow10(k))
  }

  predicate IsNumeralChar(c: char) {
    IsDigit(c) || c == '.' || c == '+' || c == '-' || c == 'e' || c == 'E'
  }

  /** Every character may appear in a decimal literal. */
  predicate Numeral(s: string) {
    forall i :: 0 <= i < |s| ==> IsNumeralChar(s[i])
  }

  lemma NumeralAround(s: string, k: nat)
    requires k < |s| && IsNumeralChar(s[k])
    requires Numeral(s[..k]) && Numeral(s[k + 1..])
    ensures Numeral(s)
  {
    forall i | 0 <= i < |s| ensures IsNumeralChar(s[i]) {
      if i < k { assert s[i] == s[..k][i]; }
      else if i > k { assert s[i] == s[k + 1..][i - k - 1]; }
    }
  }

  lemma NumeralOfSigned(t: string)
    requires |t| > 0 && (t[0] == '+' || t[0] == '-') && Numeral(t[1..])
    ensures Numeral(t)
  {
    forall i | 0 < i < |t| ensures IsNumeralChar(t[i]) {
      assert t[i] == t[1..][i - 1];
    }
  }

  lemma NumeralConcat(a: string, b: string)
    requires Numeral(a) && Numeral(b)
    ensures Numeral(a + b)
  {
    forall i | 0 <= i < |a + b| ensures IsNumeralChar((a + b)[i]) {
      if i >= |a| { assert (a + b)[i] == b[i - |a|]; }
    }
  }

  /** `float(s)` on decimal literals: surrounding whitespace is ignored and an
      optional sign is allowed.  Python's `float` also reads `inf`, `infinity` and
      `nan` in any case, and digits grouped by underscores such as `1_000`; the
      model refuses those with ValueError, as it does all other text. */
  function ParseFloat(s: string): (r: Result<real>)
    ensures r.Err? ==> r.error.ValueError?
    ensures r.Ok? ==> |Strip(s)| > 0 && Numeral(Strip(s))
  {
    var t := Strip(s);
    var signed := |t| > 0 && (t[0] == '+' || t[0] == '-');
    var body := if signed then t[1..] else t;
    match UnsignedDecimal(body)
    case None => Err(ValueError("could not convert string to float: '" + s + "'"))
    case Some(v) =>
      assert Numeral(t) by {
        if signed { NumeralOfSigned(t); }
      }
      Ok(if |t| > 0 && t[0] == '-' then -v else v)
  }

  lemma FindAbsent(s: string, c: char)
    requires forall i :: 0 <= i < |s| ==> s[i] != c
    ensures Find(s, c) == |s|
  {
  }

  lemma MantissaOfDigits(s: string)
    requires |s| > 0 && AllDigits(s)
    ensures Mantissa(s) == Some(DigitsValue(s) as real)
  {
    FindAbsent(s, '.');
    assert s[..|s|] == s;
    PointedValueOfWhole(s);
  }

  lemma PointedValueOfWhole(s: string)
    requires |s| > 0 && AllDigits(s)
    ensures PointedValue(s, "") == Some(DigitsValue(s) as real)
  {
    assert DigitsValue("") == 0 && Pow10(0) == 1.0;
  }

  /** A plain run of digits is read as its integer value. */
  lemma UnsignedOfDigits(s: string)
    requires |s| > 0 && AllDigits(s)
    ensures UnsignedDecimal(s) == Some(DigitsValue(s) as real)
  {
    FindAbsent(s, 'e');
    FindAbsent(s, 'E');
    var e := ExponentIndex(s);
    assert e == |s|;
    assert s[..e] == s;
    MantissaOfDigits(s);
  }

  /** A run of digits, with or without a minus sign, is read as its value. */
  lemma ParseFloatOfDigits(s: string, v: real)
    requires |s| > 0 && AllDigits(s) && DigitsValue(s) as real == v
    ensures ParseFloat(s) == Ok(v)
    ensures ParseFloat("-" + s) == Ok(-v)
  {
    assert UnsignedDecimal(s) == Some(v) by {
      UnsignedOfDigits(s);
    }
    ParseFloatOfUnsigned(s, v);
    ParseFloatOfNegated(s, v);
  }

  lemma ParseFloatOfUnsigned(s: string, v: real)
    requires |s| > 0 && AllDigits(s) && UnsignedDecimal(s) == Some(v)
    ensures ParseFloat(s) == Ok(v)
  {
    StripOfTrimmed(s);
    assert !(s[0] == '+' || s[0] == '-');
  }

  lemma ParseFloatOfNegated(s: string, v: real)
    requires |s| > 0 && AllDigits(s) && UnsignedDecimal(s) == Some(v)
    ensures ParseFloat("-" + s) == Ok(-v)
  {
    var t := "-" + s;
    assert t[0] == '-';
    assert t[|t| - 1] == s[|s| - 1];
    StripOfTrimmed(t);
    assert t[1..] == s;
  }

  /** `float(str(n)) == n` and `float('-' + str(n)) == -n`. */
  lemma ParseFloatOfNat(n: nat)
    ensures ParseFloat(NatToString(n)) == Ok(n as real)
    ensures ParseFloat("-" + NatToString(n)) == Ok(-(n as real))
  {
    DigitsOfNatToString(n);
    ParseFloatOfDigits(NatToString(n), n as real);
  }
}
