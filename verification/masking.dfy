/** NumPy's boolean-mask selection, `np.sum` over an array of any shape and
    `np.trapz`, as the simulation scripts and containers use them to count photons
    in an energy window. */
module Masking {
  import opened Outcomes
  import opened Linear
  import VectorStack

  // ---------------------------------------------------------------- windows and masks

  /** The energy windows the code cuts with. */
  datatype Window =
    | Above(lo: real)             // `e > lo`
    | Open(lo: real, hi: real)    // `lo < e < hi`
    | Closed(lo: real, hi: real)  // `lo <= e <= hi`

  predicate InWindow(w: Window, e: real) {
    match w
    case Above(lo) => e > lo
    case Open(lo, hi) => lo < e < hi
    case Closed(lo, hi) => lo <= e <= hi
  }

  /** The boolean array of the comparisons, one per value. */
  function Mask(w: Window, xs: Vector): (mask: seq<bool>)
    ensures |mask| == |xs| && forall i :: 0 <= i < |xs| ==> (mask[i] <==> InWindow(w, xs[i]))
  {
    seq(|xs|, i requires 0 <= i < |xs| => InWindow(w, xs[i]))
  }

  /** How many entries of a mask are set. */
  function Kept(mask: seq<bool>): nat
    decreases |mask|
  {
    if |mask| == 0 then 0 else (if mask[0] then 1 else 0) + Kept(mask[1..])
  }

  /** `values[mask]` for a mask of the same length: the values at the set positions,
      in order. */
  function Pick(values: Vector, mask: seq<bool>): (r: Vector)
    requires |mask| == |values|
    ensures |r| == Kept(mask) <= |values|
    ensures (forall i :: 0 <= i < |mask| ==> mask[i]) ==> r == values
    decreases |mask|
  {
    if |mask| == 0 then []
    else
      var rest := Pick(values[1..], mask[1..]);
      if mask[0] then [values[0]] + rest else rest
  }

  /** `values[mask]`: a mask of another length raises IndexError. */
  function Select(values: Vector, mask: seq<bool>): (r: Result<Vector>)
    ensures r.Err? <==> |mask| != |values|
    ensures r.Err? ==> r.error == IndexError
    ensures r.Ok? ==> r.value == Pick(values, mask)
  {
    if |mask| != |values| then Err(IndexError) else Ok(Pick(values, mask))
  }

  /** `values[lo <= values <= hi]` and the like: the values kept are exactly those in
      the window. */
  lemma {:induction false} PickKeepsWindow(w: Window, xs: Vector)
    ensures forall e :: e in Pick(xs, Mask(w, xs)) <==> e in xs && InWindow(w, e)
    decreases |xs|
  {
    if |xs| > 0 {
      PickKeepsWindow(w, xs[1..]);
      assert Mask(w, xs)[1..] == Mask(w, xs[1..]);
      assert xs == [xs[0]] + xs[1..];
      forall e | e in xs ensures e == xs[0] || e in xs[1..] {
        var i :| 0 <= i < |xs| && xs[i] == e;
        if i > 0 { assert xs[1..][i - 1] == e; }
      }
    }
  }

  /** A mask that selects everything leaves the values as they are; `eng > -1` on
      energies that are not negative is one. */
  lemma AboveMinusOneKeepsAll(energies: Vector, values: Vector)
    requires |energies| == |values| && forall i :: 0 <= i < |energies| ==> energies[i] >= 0.0
    ensures Select(values, Mask(Above(-1.0), energies)) == Ok(values)
  {
  }

  // ---------------------------------------------------------------- sums

  /** `np.sum` of an array of any shape. */
  function Total(a: VectorStack.Array): (t: real)
    ensures a.Vec? ==> t == Sum(a.entries)
    ensures a.Scalar? ==> t == a.value
  {
    match a
    case Scalar(x) => x
    case Vec(v) => Sum(v)
    case Mat(rows) => Sum(seq(|rows|, i requires 0 <= i < |rows| => Sum(rows[i])))
  }

  /** `u * (c * v)` for vectors of one length sums to `c` times their dot product. */
  lemma WeightedSum(c: real, u: Vector, v: Vector, weighted: VectorStack.Array)
    requires VectorStack.BroadcastTimes(u, VectorStack.Vec(Scale(c, v))) == Ok(weighted)
    ensures |u| == |v| ==> Total(weighted) == c * Dot(u, v)
  {
    if |u| == |v| {
      assert weighted == VectorStack.Vec(Hadamard(u, Scale(c, v)));
      ScaledDot(c, u, v);
    }
  }

  /** Scaling the second factor scales the weighted sum. */
  lemma {:induction false} ScaledDot(c: real, u: Vector, v: Vector)
    requires |u| == |v|
    ensures Sum(Hadamard(u, Scale(c, v))) == c * Dot(u, v)
    decreases |u|
  {
    if |u| > 0 {
      var h := Hadamard(u, Scale(c, v));
      ScaledDot(c, u[1..], v[1..]);
      WeightsOfTail(c, u, v);
      assert Sum(h) == h[0] + Sum(h[1..]);
      assert Dot(u, v) == u[0] * v[0] + Dot(u[1..], v[1..]);
      Distribute(u[0], v[0], c, Dot(u[1..], v[1..]));
    }
  }

  /** The weights of the tail are the tail of the weights. */
  lemma WeightsOfTail(c: real, u: Vector, v: Vector)
    requires |u| == |v| > 0
    ensures Hadamard(u, Scale(c, v))[0] == u[0] * (c * v[0])
    ensures Hadamard(u, Scale(c, v))[1..] == Hadamard(u[1..], Scale(c, v[1..]))
  {
    var h := Hadamard(u, Scale(c, v));
    forall k | 0 <= k < |u| - 1 ensures h[1..][k] == Hadamard(u[1..], Scale(c, v[1..]))[k] {
      assert h[1..][k] == u[k + 1] * (c * v[k + 1]);
    }
  }

  lemma Distribute(a: real, b: real, c: real, d: real)
    ensures a * (c * b) + c * d == c * (a * b + d)
  {
  }

  /** Against a constant vector the dot product is the constant times the sum. */
  lemma {:induction false} DotOfConstant(c: real, u: Vector)
    ensures Dot(u, Constant(|u|, c)) == c * Sum(u)
    decreases |u|
  {
    if |u| > 0 {
      DotOfConstant(c, u[1..]);
      assert Constant(|u|, c)[1..] == Constant(|u| - 1, c);
    }
  }

  /** `res @ flare` for a matrix and a vector. */
  lemma MatrixTimesVector(res: Matrix, flare: Vector)
    requires Rectangular(res)
    ensures Width(res) == |flare| ==>
      VectorStack.MatMulArrays(VectorStack.Mat(res), VectorStack.Vec(flare)) == Ok(VectorStack.Vec(MatVec(res, flare)))
    ensures Width(res) != |flare| ==>
      VectorStack.MatMulArrays(VectorStack.Mat(res), VectorStack.Vec(flare)) == Err(VectorStack.CoreMismatch)
  {
  }

  // ---------------------------------------------------------------- the trapezoid rule

  /** `np.trapz(y, x)`: the trapezoid rule over consecutive points. */
  function Trapz(y: Vector, x: Vector): real
    requires |x| == |y|
    decreases |x|
  {
    if |x| < 2 then 0.0 else (x[1] - x[0]) * (y[0] + y[1]) / 2.0 + Trapz(y[1..], x[1..])
  }

  /** The trapezoid rule is exact on a constant: the constant times the span. */
  lemma {:induction false} TrapzOfConstant(c: real, x: Vector)
    requires |x| >= 1
    ensures Trapz(Constant(|x|, c), x) == c * (x[|x| - 1] - x[0])
    decreases |x|
  {
    if |x| >= 2 {
      TrapzOfConstant(c, x[1..]);
      assert Constant(|x|, c)[1..] == Constant(|x| - 1, c);
      assert (x[1] - x[0]) * (c + c) / 2.0 == c * (x[1] - x[0]);
    }
  }

  /** `np.trapz((res @ flare * area)[mask], x=energies[mask])` with the mask of the
      window on the energies: a response of the wrong width fails in the product,
      one of the wrong height in the selection. */
  function TrapzCounts(w: Window, area: real, res: Matrix, flare: Vector, energies: Vector): (r: Result<real>)
    requires Rectangular(res)
    ensures Width(res) != |flare| ==> r == Err(VectorStack.CoreMismatch)
    ensures Width(res) == |flare| && |res| != |energies| ==> r == Err(IndexError)
    ensures Width(res) == |flare| && |res| == |energies| ==>
      r == Ok(Trapz(Pick(Scale(area, MatVec(res, flare)), Mask(w, energies)), Pick(energies, Mask(w, energies))))
  {
    MatrixTimesVector(res, flare);
    match VectorStack.MatMulArrays(VectorStack.Mat(res), VectorStack.Vec(flare))
    case Err(e) => Err(e)
    case Ok(spectrum) =>
      var mask := Mask(w, energies);
      match Select(Scale(area, spectrum.entries), mask)
      case Err(e) => Err(e)
      case Ok(y) => Ok(Trapz(y, Pick(energies, mask)))
  }
}
