/** Pulling apart tabulated energies that coincide: walking the energies in order,
    each one that clashes with the value its predecessor ended up with is raised by
    a small step.  The NIST decoder treats values closer than the step as a clash;
    the XCOM cleaning scripts treat only equal values as one. */
module Nudging {
  import opened Linear

  /** When an energy counts as clashing with the processed one before it. */
  datatype Rule =
    | Equal              // `eng[i] == last_e`
    | Within(eps: real)  // `abs(energy[i] - energy[i+1]) < eps`

  predicate Clash(rule: Rule, prev: real, x: real) {
    match rule
    case Equal => x == prev
    case Within(eps) => (if prev >= x then prev - x else x - prev) < eps
  }

  /** The energies after the walk, `prev` standing for what came before the first. */
  function Nudged(rule: Rule, delta: real, prev: real, xs: Vector): (r: Vector)
    ensures |r| == |xs|
    ensures |xs| > 0 ==> r[0] == (if Clash(rule, prev, xs[0]) then xs[0] + delta else xs[0])
    ensures forall i :: 0 < i < |xs| ==> r[i] == (if Clash(rule, r[i - 1], xs[i]) then xs[i] + delta else xs[i])
    decreases |xs|
  {
    if |xs| == 0 then []
    else
      var x := if Clash(rule, prev, xs[0]) then xs[0] + delta else xs[0];
      var rest := Nudged(rule, delta, x, xs[1..]);
      assert forall i :: 1 < i < |xs| ==> rest[i - 1] == (if Clash(rule, rest[i - 2], xs[i]) then xs[i] + delta else xs[i]);
      [x] + rest
  }

  /** Under the equality rule with a non-zero step, no output equals the one before
      it, nor the first the starting value. */
  lemma {:induction false} EqualNeverRepeats(delta: real, prev: real, xs: Vector)
    requires delta != 0.0
    ensures var r := Nudged(Equal, delta, prev, xs);
      && (|r| > 0 ==> r[0] != prev)
      && forall i :: 0 < i < |r| ==> r[i] != r[i - 1]
  {
    var r := Nudged(Equal, delta, prev, xs);
    forall i | 0 < i < |r| ensures r[i] != r[i - 1] {
      if xs[i] == r[i - 1] {
        assert r[i] == xs[i] + delta;
      } else {
        assert r[i] == xs[i];
      }
    }
  }

  /** A triple `a, a, a` comes out as `a, a + delta, a`: adjacent outputs differ, yet
      the output need not increase. */
  lemma TripleExample(a: real, delta: real, prev: real)
    requires delta > 0.0 && a != prev
    ensures Nudged(Equal, delta, prev, [a, a, a]) == [a, a + delta, a]
  {
    var r := Nudged(Equal, delta, prev, [a, a, a]);
    assert r[0] == a;
    assert r[1] == a + delta;
    assert r[2] == a;
  }

  /** Under the closeness rule with a positive step, the outputs are never below the
      inputs and never more than the step above them. */
  lemma WithinMovesAtMost(eps: real, delta: real, prev: real, xs: Vector)
    requires delta >= 0.0
    ensures var r := Nudged(Within(eps), delta, prev, xs);
      forall i :: 0 <= i < |xs| ==> xs[i] <= r[i] <= xs[i] + delta
  {
    var r := Nudged(Within(eps), delta, prev, xs);
    forall i | 0 <= i < |xs| ensures xs[i] <= r[i] <= xs[i] + delta {
      if i == 0 {
        assert r[0] == xs[0] + delta || r[0] == xs[0];
      } else {
        var before := r[i - 1];
        assert r[i] == (if Clash(Within(eps), before, xs[i]) then xs[i] + delta else xs[i]);
      }
    }
  }

  /** Under the equality rule, energies that already differ from their predecessors
      (the first from the starting value) pass through unchanged: the walk is the
      identity on its own output. */
  lemma NudgedUnchanged(delta: real, prev: real, xs: Vector)
    requires |xs| > 0 ==> xs[0] != prev
    requires forall i :: 0 < i < |xs| ==> xs[i] != xs[i - 1]
    ensures Nudged(Equal, delta, prev, xs) == xs
  {
    var r := Nudged(Equal, delta, prev, xs);
    forall i | 0 <= i < |xs| ensures r[i] == xs[i] {
      UnchangedUpTo(delta, prev, xs, i);
    }
  }

  lemma {:induction false} UnchangedUpTo(delta: real, prev: real, xs: Vector, i: nat)
    requires i < |xs| && xs[0] != prev
    requires forall k :: 0 < k < |xs| ==> xs[k] != xs[k - 1]
    ensures Nudged(Equal, delta, prev, xs)[i] == xs[i]
  {
    if i > 0 {
      UnchangedUpTo(delta, prev, xs, i - 1);
    }
  }

  /** The walk is the only sequence that satisfies its recurrence: a sequence whose
      first entry and every later entry are what the walk would make of them is the
      walk's output. */
  lemma NudgedUnique(rule: Rule, delta: real, prev: real, xs: Vector, ys: Vector)
    requires |ys| == |xs|
    requires |xs| > 0 ==> ys[0] == (if Clash(rule, prev, xs[0]) then xs[0] + delta else xs[0])
    requires forall i :: 0 < i < |xs| ==> ys[i] == (if Clash(rule, ys[i - 1], xs[i]) then xs[i] + delta else xs[i])
    ensures ys == Nudged(rule, delta, prev, xs)
  {
    var r := Nudged(rule, delta, prev, xs);
    forall i | 0 <= i < |xs| ensures ys[i] == r[i] {
      UniqueUpTo(rule, delta, prev, xs, ys, i);
    }
  }

  lemma {:induction false} UniqueUpTo(rule: Rule, delta: real, prev: real, xs: Vector, ys: Vector, i: nat)
    requires i < |ys| == |xs|
    requires ys[0] == (if Clash(rule, prev, xs[0]) then xs[0] + delta else xs[0])
    requires forall k :: 0 < k < |xs| ==> ys[k] == (if Clash(rule, ys[k - 1], xs[k]) then xs[k] + delta else xs[k])
    ensures ys[i] == Nudged(rule, delta, prev, xs)[i]
  {
    if i > 0 {
      UniqueUpTo(rule, delta, prev, xs, ys, i - 1);
    }
  }
}
