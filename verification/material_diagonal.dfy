/** The earlier layer of material in `sim_src/Material.py`, which works on energy
    points and square matrices: each mechanism contributes `np.diag(exp(-μ·ρ·t))` of
    the attenuations interpolated to the spectrum's energies (or the identity for
    Compton scattering), and the overall response is their matrix product. */
module DiagonalMaterial {
  import opened Outcomes
  import opened Linear
  import opened RealMath
  import Text
  import Attenuation
  import BinnedMaterial

  datatype Material = Material(
    diameter: real,       // cm
    massDensity: real,    // g / cm³
    thickness: real)      // cm

  /** The `area` property, as for the binned material. */
  function Area(m: Transcendentals, mat: Material): real {
    BinnedMaterial.FaceArea(m, mat.diameter)
  }

  /** The interpolated attenuations of one mechanism, `interpolate_from(spectrum)`,
      reach the model as a map from mechanism code to one coefficient per energy. */
  type Interpolated = map<int, Vector>

  /** `exp(-1 * μ * ρ * t)`. */
  function Transmission(m: Transcendentals, mat: Material, mu: real): real {
    m.exp(-1.0 * mu * mat.massDensity * mat.thickness)
  }

  /** The transmission probability of every coefficient. */
  function Attenuated(m: Transcendentals, mat: Material, mu: Vector): (v: Vector)
    ensures |v| == |mu| && forall i :: 0 <= i < |mu| ==> v[i] == Transmission(m, mat, mu[i])
  {
    seq(|mu|, i requires 0 <= i < |mu| => Transmission(m, mat, mu[i]))
  }

  /** `_gen_phot_ray(which, spectrum)`: the diagonal of transmission probabilities;
      a mechanism missing from the interpolated attenuations raises KeyError. */
  function PhotRay(m: Transcendentals, mat: Material, which: int, interpolated: Interpolated): (r: Result<Matrix>)
    ensures r.Err? <==> which !in interpolated
    ensures r.Ok? ==> r.value == Diag(Attenuated(m, mat, interpolated[which]))
  {
    if which in interpolated then Ok(Diag(Attenuated(m, mat, interpolated[which])))
    else Err(KeyError(Text.IntToString(which)))
  }

  /** `generate_modifying_matrix_for(k, spectrum)` for a spectrum of `dim` energies:
      Compton scattering is the identity; a code outside `AttenuationType.ALL` raises
      KeyError. */
  function Modifying(m: Transcendentals, mat: Material, k: int, interpolated: Interpolated, dim: nat): (r: Result<Matrix>)
    ensures k !in Attenuation.All ==> r == Err(KeyError(Text.IntToString(k)))
    ensures k == Attenuation.Compton ==> r == Ok(Identity(dim))
    ensures r.Ok? ==> Rectangular(r.value)
  {
    if k == Attenuation.Photoelectric || k == Attenuation.Rayleigh then PhotRay(m, mat, k, interpolated)
    else if k == Attenuation.Compton then Ok(Identity(dim))
    else Err(KeyError(Text.IntToString(k)))
  }

  /** The diagonal mechanism `k` contributes, when it has one. */
  function MechanismVector(m: Transcendentals, mat: Material, k: int, interpolated: Interpolated, dim: nat): Vector
    requires k in Attenuation.All && (k != Attenuation.Compton ==> k in interpolated)
  {
    if k == Attenuation.Compton then Ones(dim) else Attenuated(m, mat, interpolated[k])
  }

  /** Every factor is `np.diag` of its mechanism's vector. */
  lemma ModifyingIsDiag(m: Transcendentals, mat: Material, k: int, interpolated: Interpolated, dim: nat)
    requires k in Attenuation.All && (k != Attenuation.Compton ==> k in interpolated)
    ensures Modifying(m, mat, k, interpolated, dim) == Ok(Diag(MechanismVector(m, mat, k, interpolated, dim)))
  {
    DiagOfOnes(dim);
  }

  /** `np.matmul(a, b)`, which raises ValueError when the inner dimensions differ. */
  function MatMulChecked(a: Matrix, b: Matrix): (r: Result<Matrix>)
    requires Rectangular(a) && Rectangular(b)
    ensures r.Ok? <==> Width(a) == |b|
    ensures r.Ok? ==> IsMatrix(r.value, |a|, Width(b))
  {
    if Width(a) == |b| then Ok(MatMul(a, b))
    else Err(ValueError("matmul: Input operand 1 has a mismatch in its core dimension 0"))
  }

  /** The loop of `generate_overall_response_matrix_given`: each factor is multiplied
      in from the left. */
  function Fold(acc: Matrix, factors: seq<Result<Matrix>>): (r: Result<Matrix>)
    requires Rectangular(acc)
    requires forall j :: 0 <= j < |factors| && factors[j].Ok? ==> Rectangular(factors[j].value)
    ensures r.Ok? ==> Rectangular(r.value)
    decreases |factors|
  {
    if |factors| == 0 then Ok(acc)
    else
      match factors[0]
      case Err(e) => Err(e)
      case Ok(factor) =>
        match MatMulChecked(factor, acc)
        case Err(e) => Err(e)
        case Ok(next) =>
          assert Rectangular(next);
          assert forall j :: 0 <= j < |factors[1..]| ==> factors[1..][j] == factors[j + 1];
          Fold(next, factors[1..])
  }

  function Factors(m: Transcendentals, mat: Material, interpolated: Interpolated, dim: nat, ks: seq<int>): (fs: seq<Result<Matrix>>)
    ensures |fs| == |ks| && forall j :: 0 <= j < |ks| ==> fs[j] == Modifying(m, mat, ks[j], interpolated, dim)
  {
    seq(|ks|, j requires 0 <= j < |ks| => Modifying(m, mat, ks[j], interpolated, dim))
  }

  /** `generate_overall_response_matrix_given(spectrum, attenuations)` for a spectrum
      of `dim` energies: the identity, multiplied from the left by each factor. */
  function OverallResponse(m: Transcendentals, mat: Material, interpolated: Interpolated, dim: nat, ks: seq<int>): (r: Result<Matrix>)
    ensures ks == [] ==> r == Ok(Identity(dim))
    ensures r.Ok? ==> Rectangular(r.value)
  {
    Fold(Identity(dim), Factors(m, mat, interpolated, dim, ks))
  }

  // ---------------------------------------------------------------- the diagonal form

  /** Every listed mechanism is known, and has attenuations for each of the `dim`
      energies when it needs them. */
  predicate Known(ks: seq<int>, interpolated: Interpolated, dim: nat) {
    forall j :: 0 <= j < |ks| ==>
      ks[j] in Attenuation.All && (ks[j] != Attenuation.Compton ==> ks[j] in interpolated && |interpolated[ks[j]]| == dim)
  }

  /** The vectors on the diagonals of the factors of known mechanisms. */
  function MechanismVectors(m: Transcendentals, mat: Material, interpolated: Interpolated, dim: nat, ks: seq<int>): (vs: seq<Vector>)
    requires Known(ks, interpolated, dim)
    ensures |vs| == |ks|
    ensures forall j :: 0 <= j < |ks| ==> vs[j] == MechanismVector(m, mat, ks[j], interpolated, dim) && |vs[j]| == dim
  {
    seq(|ks|, j requires 0 <= j < |ks| => MechanismVector(m, mat, ks[j], interpolated, dim))
  }

  /** Each factor is `np.diag` of the vector at the same place, of length `dim`. */
  predicate DiagonalFactors(fs: seq<Result<Matrix>>, vs: seq<Vector>, dim: nat) {
    |fs| == |vs| && forall j :: 0 <= j < |fs| ==> fs[j] == Ok(Diag(vs[j])) && |vs[j]| == dim
  }

  /** The product of entry `i` of every vector. */
  function Product(vs: seq<Vector>, i: nat): real
    requires forall j :: 0 <= j < |vs| ==> i < |vs[j]|
    decreases |vs|
  {
    if |vs| == 0 then 1.0
    else
      assert forall j :: 0 <= j < |vs[1..]| ==> vs[1..][j] == vs[j + 1];
      vs[0][i] * Product(vs[1..], i)
  }

  /** `w` scaled entrywise by the products. */
  function Products(vs: seq<Vector>, w: Vector): (p: Vector)
    requires forall j :: 0 <= j < |vs| ==> |vs[j]| == |w|
    ensures |p| == |w|
  {
    seq(|w|, i requires 0 <= i < |w| => w[i] * Product(vs, i))
  }

  /** Folding diagonal factors into a diagonal accumulator stays diagonal, and
      multiplies each diagonal entry by the product of the factors' entries. */
  lemma {:induction false} FoldOfDiags(fs: seq<Result<Matrix>>, vs: seq<Vector>, w: Vector)
    requires DiagonalFactors(fs, vs, |w|)
    ensures forall j :: 0 <= j < |fs| && fs[j].Ok? ==> Rectangular(fs[j].value)
    ensures Fold(Diag(w), fs) == Ok(Diag(Products(vs, w)))
    decreases |fs|
  {
    assert forall j :: 0 <= j < |fs| && fs[j].Ok? ==> Rectangular(fs[j].value);
    if |fs| == 0 {
      assert Products(vs, w) == w;
    } else {
      var next := Hadamard(vs[0], w);
      FoldStep(Diag(w), fs, vs[0], w);
      assert DiagonalFactors(fs[1..], vs[1..], |w|) by {
        forall j | 0 <= j < |fs[1..]| ensures fs[1..][j] == fs[j + 1] && vs[1..][j] == vs[j + 1] { }
      }
      FoldOfDiags(fs[1..], vs[1..], next);
      forall i | 0 <= i < |w| ensures Products(vs[1..], next)[i] == Products(vs, w)[i] {
        var p := Product(vs[1..], i);
        assert Product(vs, i) == vs[0][i] * p;
        Regroup(vs[0][i], w[i], p);
      }
      assert Products(vs[1..], next) == Products(vs, w);
    }
  }

  /** One step of the loop on diagonal matrices. */
  lemma FoldStep(acc: Matrix, fs: seq<Result<Matrix>>, v: Vector, w: Vector)
    requires acc == Diag(w) && |v| == |w| && |fs| > 0 && fs[0] == Ok(Diag(v))
    requires forall j :: 0 <= j < |fs| && fs[j].Ok? ==> Rectangular(fs[j].value)
    ensures Fold(acc, fs) == Fold(Diag(Hadamard(v, w)), fs[1..])
  {
    DiagTimesDiag(v, w);
    assert Width(Diag(v)) == |Diag(w)| by {
      assert |v| > 0 ==> Width(Diag(v)) == |v|;
    }
    assert MatMulChecked(Diag(v), Diag(w)) == Ok(Diag(Hadamard(v, w)));
  }

  lemma Regroup(x: real, y: real, p: real)
    ensures (x * y) * p == y * (x * p)
  {
  }

  /** The product at entry `i` of the mechanisms' transmission vectors. */
  function EntryProduct(m: Transcendentals, mat: Material, interpolated: Interpolated, dim: nat, ks: seq<int>, i: nat): real
    requires Known(ks, interpolated, dim) && i < dim
  {
    Product(MechanismVectors(m, mat, interpolated, dim, ks), i)
  }

  /** The overall response of known mechanisms is the diagonal matrix of the
      products, energy by energy, of their transmission probabilities. */
  lemma OverallIsDiagonal(m: Transcendentals, mat: Material, interpolated: Interpolated, dim: nat, ks: seq<int>)
    requires Known(ks, interpolated, dim)
    ensures var r := OverallResponse(m, mat, interpolated, dim, ks);
      r.Ok? && IsMatrix(r.value, dim, dim) && IsDiagonal(r.value)
      && forall i :: 0 <= i < dim ==> r.value[i][i] == EntryProduct(m, mat, interpolated, dim, ks, i)
  {
    var fs := Factors(m, mat, interpolated, dim, ks);
    var vs := MechanismVectors(m, mat, interpolated, dim, ks);
    forall j | 0 <= j < |ks| ensures fs[j] == Ok(Diag(vs[j])) {
      ModifyingIsDiag(m, mat, ks[j], interpolated, dim);
    }
    DiagOfOnes(dim);
    FoldOfDiags(fs, vs, Ones(dim));
    var p := Products(vs, Ones(dim));
    assert forall i :: 0 <= i < dim ==> Diag(p)[i][i] == p[i] == Product(vs, i);
  }

  /** A mechanism outside `AttenuationType.ALL` fails the whole response with
      KeyError when it comes first. */
  lemma OverallOfUnknownFirst(m: Transcendentals, mat: Material, interpolated: Interpolated, dim: nat, ks: seq<int>)
    requires |ks| > 0 && ks[0] !in Attenuation.All
    ensures OverallResponse(m, mat, interpolated, dim, ks) == Err(KeyError(Text.IntToString(ks[0])))
  {
  }

  /** A product of probabilities is a probability, and a product of ones is one. */
  lemma {:induction false} ProductIsProbability(vs: seq<Vector>, i: nat)
    requires forall j :: 0 <= j < |vs| ==> i < |vs[j]| && 0.0 < vs[j][i] <= 1.0
    ensures 0.0 < Product(vs, i) <= 1.0
    ensures (forall j :: 0 <= j < |vs| ==> vs[j][i] == 1.0) ==> Product(vs, i) == 1.0
    decreases |vs|
  {
    if |vs| > 0 {
      assert forall j :: 0 <= j < |vs[1..]| ==> vs[1..][j] == vs[j + 1];
      ProductIsProbability(vs[1..], i);
      var x, p := vs[0][i], Product(vs[1..], i);
      assert 0.0 < x * p;
      assert x * p <= 1.0 * p;
    }
  }

  /** Through matter of non-negative density and thickness with non-negative
      coefficients, every diagonal entry is a probability, and a layer of zero
      thickness gives one. */
  lemma EntryProductIsProbability(m: Transcendentals, mat: Material, interpolated: Interpolated, dim: nat, ks: seq<int>, i: nat)
    requires ExpLaws(m)
    requires Known(ks, interpolated, dim) && i < dim
    requires 0.0 <= mat.massDensity && 0.0 <= mat.thickness
    requires forall k :: k in interpolated ==> forall e :: 0 <= e < |interpolated[k]| ==> 0.0 <= interpolated[k][e]
    ensures 0.0 < EntryProduct(m, mat, interpolated, dim, ks, i) <= 1.0
    ensures mat.thickness == 0.0 ==> EntryProduct(m, mat, interpolated, dim, ks, i) == 1.0
  {
    var vs := MechanismVectors(m, mat, interpolated, dim, ks);
    forall j | 0 <= j < |vs|
      ensures 0.0 < vs[j][i] <= 1.0 && (mat.thickness == 0.0 ==> vs[j][i] == 1.0)
    {
      var k := ks[j];
      if k != Attenuation.Compton {
        var mu := interpolated[k][i];
        BinnedMaterial.NonPositiveExponent(mu, mat.massDensity, mat.thickness);
        ExpOfNonPositive(m, -1.0 * mu * mat.massDensity * mat.thickness);
      }
    }
    ProductIsProbability(vs, i);
  }

  /** A layer of zero thickness leaves the spectrum alone: its response is the identity. */
  lemma NoThicknessIsIdentity(m: Transcendentals, mat: Material, interpolated: Interpolated, dim: nat, ks: seq<int>)
    requires ExpLaws(m)
    requires Known(ks, interpolated, dim)
    requires 0.0 <= mat.massDensity && mat.thickness == 0.0
    requires forall k :: k in interpolated ==> forall e :: 0 <= e < |interpolated[k]| ==> 0.0 <= interpolated[k][e]
    ensures OverallResponse(m, mat, interpolated, dim, ks) == Ok(Identity(dim))
  {
    OverallIsDiagonal(m, mat, interpolated, dim, ks);
    var r := OverallResponse(m, mat, interpolated, dim, ks).value;
    forall i, j | 0 <= i < dim && 0 <= j < dim ensures r[i][j] == Identity(dim)[i][j] {
      if i == j {
        EntryProductIsProbability(m, mat, interpolated, dim, ks, i);
      }
    }
    MatrixEquality(r, Identity(dim), dim, dim);
  }
}
