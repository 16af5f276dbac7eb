/** The photon detectors' energy dispersion: a square kernel whose column `c` is a
    Gaussian in the row index centred on `c`.  `adetsim/hafx_src` has the detector with
    a resolution line through two calibration points (`LinearInterpolateDisperseDetector`,
    of which `Sipm3000` is one), and the detector with a fixed fractional resolution;
    `sim_src/PhotonDetector.py` and the top-level `Sipm3000.py` have the older SiPM
    kernels, and the top-level `PhotonDetector.py` the first, row-by-row one. */
module Dispersion {
  import opened Outcomes
  import opened Linear
  import opened RealMath

  // ---------------------------------------------------------------- detectors

  /** The photon detectors of the simulator. */
  datatype Detector =
    | Abstract                              // the `PhotonDetector` base class
    | Linear(slope: real, intercept: real)  // fractional resolution `slope·E + intercept`
    | FixedResolution                       // `FixedEnergyResolutionDetector`
    | PointSipm                             // `Sipm3000` of `sim_src/PhotonDetector.py`
    | RowSipm                               // `Sipm3000` of the top-level `PhotonDetector.py`

  /** `ERES`, the fixed fractional resolution. */
  const FixedFraction: real := 0.03

  /** `DELTA_E`, the SiPM's fractional resolution in the older kernels. */
  const SipmFraction: real := 0.4

  /** `LinearInterpolateDisperseDetector(e1, e2, fwhm1, fwhm2)`: the line through the
      two calibration points; equal energies divide by zero. */
  function MakeLinear(e1: real, e2: real, fwhm1: real, fwhm2: real): (r: Result<Detector>)
    ensures r.Err? <==> e1 == e2
    ensures r.Err? ==> r.error == ZeroDivisionError
  {
    if e2 - e1 == 0.0 then Err(ZeroDivisionError)
    else
      var slope := (fwhm2 - fwhm1) / (e2 - e1);
      Ok(Linear(slope, fwhm1 - slope * e1))
  }

  /** `interpolate_energy_resolution` and the fixed fractions: the FWHM of a line at
      energy `e` as a fraction of `e`. */
  function FractionalResolution(det: Detector, e: real): real
    requires !det.Abstract? && !det.RowSipm?
  {
    match det
    case Linear(slope, intercept) => slope * e + intercept
    case FixedResolution => FixedFraction
    case PointSipm => SipmFraction
  }

  /** The line passes through both calibration points. */
  lemma LinearThroughPoints(e1: real, e2: real, fwhm1: real, fwhm2: real)
    requires e1 != e2
    ensures MakeLinear(e1, e2, fwhm1, fwhm2).Ok?
    ensures FractionalResolution(MakeLinear(e1, e2, fwhm1, fwhm2).value, e1) == fwhm1
    ensures FractionalResolution(MakeLinear(e1, e2, fwhm1, fwhm2).value, e2) == fwhm2
  {
    var slope := (fwhm2 - fwhm1) / (e2 - e1);
    assert slope * (e2 - e1) == fwhm2 - fwhm1;
    assert slope * e2 + (fwhm1 - slope * e1) == slope * (e2 - e1) + fwhm1;
  }

  /** `FixedEnergyResolutionDetector(eres)`: the argument is ignored. */
  function MakeFixed(eres: real): (d: Detector)
    ensures d == FixedResolution && FractionalResolution(d, 1.0) == FixedFraction
  {
    FixedResolution
  }

  // ---------------------------------------------------------------- the SiPM lines

  /** `DE_20KEV` and `DE_667KEV`, the SiPM's guessed resolutions at 20 and 667 keV. */
  const Sipm20: real := 0.4
  const Sipm667: real := 0.045

  /** The `Sipm3000` of `adetsim/hafx_src`: the linear detector through (20, 0.4) and
      (667, 0.045). */
  function AdetsimSipm3000(): (d: Detector)
    ensures d.Linear?
  {
    MakeLinear(20.0, 667.0, Sipm20, Sipm667).value
  }

  /** The class constants `SLOPE` and `INTERCEPT` of the top-level `Sipm3000.py`. */
  const SipmSlope: real := (Sipm667 - Sipm20) / (667.0 - 20.0)
  const SipmIntercept: real := Sipm20 - SipmSlope * 20.0

  /** The top-level `Sipm3000`. */
  function LineSipm3000(): Detector {
    Linear(SipmSlope, SipmIntercept)
  }

  /** Both SiPM lines are the same line; it meets the calibration points and the
      fractional resolution falls as the energy rises. */
  lemma SipmLines()
    ensures LineSipm3000() == AdetsimSipm3000()
    ensures FractionalResolution(LineSipm3000(), 20.0) == Sipm20
    ensures FractionalResolution(LineSipm3000(), 667.0) == Sipm667
    ensures LineSipm3000().slope < 0.0
    ensures forall e, f :: e < f ==> FractionalResolution(LineSipm3000(), f) < FractionalResolution(LineSipm3000(), e)
  {
    LinearThroughPoints(20.0, 667.0, Sipm20, Sipm667);
  }

  // ---------------------------------------------------------------- widths

  /** The spacing of the first two energies, `energies[1] - energies[0]`. */
  function Step(energies: Vector): real
    requires |energies| >= 2
  {
    energies[1] - energies[0]
  }

  /** The energies can be turned into finite, non-zero widths: the first step is not
      zero and no line has a zero FWHM. */
  predicate Resolvable(det: Detector, energies: Vector)
    requires !det.Abstract? && !det.RowSipm?
  {
    |energies| >= 2 ==>
      Step(energies) != 0.0 &&
      forall c :: 0 <= c < |energies| ==> FractionalResolution(det, energies[c]) * energies[c] != 0.0
  }

  /** The FWHM of every line in index units, `resolution(E) · E / step`. */
  function IndexFwhm(det: Detector, energies: Vector): (fwhm: Vector)
    requires !det.Abstract? && !det.RowSipm?
    requires |energies| >= 2 && Step(energies) != 0.0
    ensures |fwhm| == |energies|
    ensures forall c :: 0 <= c < |energies| ==>
      fwhm[c] * Step(energies) == FractionalResolution(det, energies[c]) * energies[c]
  {
    seq(|energies|, c requires 0 <= c < |energies| =>
      FractionalResolution(det, energies[c]) * energies[c] / Step(energies))
  }

  /** `fwhm / (2·sqrt(2·ln 2))`. */
  function Sigmas(m: Transcendentals, fwhm: Vector): (sd: Vector)
    requires FwhmPerSigma(m) != 0.0
    ensures |sd| == |fwhm| && forall c :: 0 <= c < |fwhm| ==> sd[c] * FwhmPerSigma(m) == fwhm[c]
  {
    seq(|fwhm|, c requires 0 <= c < |fwhm| => fwhm[c] / FwhmPerSigma(m))
  }

  // ---------------------------------------------------------------- the kernel

  /** The exponent `-(offset)**2 / (2·sd·sd)` shared by every `gaussian_row`. */
  function GaussExponent(sd: real, d: real): real
    requires sd != 0.0
  {
    SquareSign(sd);
    -Square(d) / (2.0 * Square(sd))
  }

  /** The exponent is at most zero, even in the offset and zero at offset zero. */
  lemma ExponentShape(sd: real, d: real)
    requires sd != 0.0
    ensures GaussExponent(sd, d) <= 0.0
    ensures GaussExponent(sd, -d) == GaussExponent(sd, d)
    ensures GaussExponent(sd, 0.0) == 0.0
  {
    SquareSign(sd);
    SquareSign(d);
    SquareSign(0.0);
    NegatedQuotient(Square(d), 2.0 * Square(sd));
    NegatedQuotient(Square(0.0), 2.0 * Square(sd));
  }

  /** The normal density of standard deviation `sd` at offset `d`, as `gaussian_row`
      computes it. */
  function Gaussian(m: Transcendentals, sd: real, d: real): real
    requires sd != 0.0 && m.sqrt(2.0 * m.pi) != 0.0
  {
    (1.0 / (sd * m.sqrt(2.0 * m.pi))) * m.exp(GaussExponent(sd, d))
  }

  /** `gaussian_row(dim, sd, idx)` on the tiled row indices: NumPy broadcasts the
      widths along the last axis, so entry (r, c) is the Gaussian at `c - r` with the
      width of column `c`. */
  function Kernel(m: Transcendentals, sd: Vector): (k: Matrix)
    requires m.sqrt(2.0 * m.pi) != 0.0
    requires forall c :: 0 <= c < |sd| ==> sd[c] != 0.0
    ensures IsMatrix(k, |sd|, |sd|)
    ensures forall r, c :: 0 <= r < |sd| && 0 <= c < |sd| ==> k[r][c] == Gaussian(m, sd[c], (c - r) as real)
  {
    seq(|sd|, r requires 0 <= r < |sd| =>
      seq(|sd|, c requires 0 <= c < |sd| => Gaussian(m, sd[c], (c - r) as real)))
  }

  /** Facts about the density: positive, even in the offset, largest at offset 0. */
  lemma GaussianShape(m: Transcendentals, sd: real, d: real)
    requires ExpLaws(m) && SqrtLaws(m) && 0.0 < m.pi
    requires 0.0 < sd
    ensures 0.0 < Gaussian(m, sd, d)
    ensures Gaussian(m, sd, -d) == Gaussian(m, sd, d)
    ensures Gaussian(m, sd, d) <= Gaussian(m, sd, 0.0)
  {
    var s := m.sqrt(2.0 * m.pi);
    assert 0.0 < s by {
      assert 0.0 <= s && s * s == 2.0 * m.pi;
    }
    var prefactor := 1.0 / (sd * s);
    assert 0.0 < sd * s;
    assert 0.0 < prefactor;
    ExponentShape(sd, d);
    var x := GaussExponent(sd, d);
    ExpOfNonPositive(m, x);
    assert prefactor * m.exp(x) <= prefactor * 1.0;
  }

  /** With positive widths every entry is positive, and each column is symmetric about
      the diagonal and peaks on it. */
  lemma KernelShape(m: Transcendentals, sd: Vector, r: nat, c: nat)
    requires ExpLaws(m) && SqrtLaws(m) && 0.0 < m.pi
    requires forall j :: 0 <= j < |sd| ==> 0.0 < sd[j]
    requires r < |sd| && c < |sd|
    ensures 0.0 < Kernel(m, sd)[r][c] <= Kernel(m, sd)[c][c]
    ensures 0 <= 2 * c - r < |sd| ==> Kernel(m, sd)[2 * c - r][c] == Kernel(m, sd)[r][c]
  {
    GaussianShape(m, sd[c], (c - r) as real);
    assert (c - (2 * c - r)) as real == -((c - r) as real);
    assert (c - c) as real == 0.0;
  }

  /** `generate_energy_resolution_given(spectrum)` for the energy points `energies`:
      the base class raises NotImplementedError, the row-by-row SiPM builds its
      constant-width kernel, and the others fail with IndexError on fewer than two
      energies (they read `energies[1]`) and otherwise build the column-width kernel. */
  function ResolutionKernel(m: Transcendentals, det: Detector, energies: Vector): (r: Result<Matrix>)
    requires FwhmPerSigma(m) != 0.0 && m.sqrt(2.0 * m.pi) != 0.0
    requires !det.Abstract? && !det.RowSipm? ==> Resolvable(det, energies)
    ensures det.Abstract? <==> r == Err(NotImplementedError)
    ensures r.Ok? ==> IsMatrix(r.value, |energies|, |energies|)
    ensures !det.Abstract? && !det.RowSipm? ==> (r.Err? <==> |energies| < 2)
    ensures det.RowSipm? ==> r == Ok(RowKernel(m, |energies|))
    ensures r.Ok? && !det.RowSipm? ==>
      r.value == Kernel(m, Sigmas(m, IndexFwhm(det, energies)))
  {
    match det
    case Abstract => Err(NotImplementedError)
    case RowSipm => Ok(RowKernel(m, |energies|))
    case _ =>
      if |energies| < 2 then Err(IndexError)
      else
        var fwhm := IndexFwhm(det, energies);
        var sd := Sigmas(m, fwhm);
        assert forall c :: 0 <= c < |sd| ==> sd[c] != 0.0 by {
          forall c | 0 <= c < |sd| ensures sd[c] != 0.0 {
            assert sd[c] * FwhmPerSigma(m) == fwhm[c];
            assert fwhm[c] * Step(energies) != 0.0;
          }
        }
        Ok(Kernel(m, sd))
  }

  // ---------------------------------------------------------------- the first kernel

  /** `np.tile(np.arange(dim), (dim, 1)).transpose()`: every entry of row `r` is `r`. */
  function TiledIndices(dim: nat): (idx: Matrix)
    ensures IsMatrix(idx, dim, dim)
    ensures forall r, c :: 0 <= r < dim && 0 <= c < dim ==> idx[r][c] == r as real
  {
    seq(dim, r => seq(dim, c => r as real))
  }

  /** The exponential of the top-level `gaussian_row` for width `sd` at offset `d`; the
      prefactor is 1. */
  function Bell(m: Transcendentals, sd: real, d: real): real
    requires sd != 0.0
  {
    m.exp(GaussExponent(sd, d))
  }

  /** The top-level `gaussian_row(dim, sd, i)` for one row index `i`, after its widths
      have been multiplied by `dim` (`sd` here is already scaled). */
  function BellRow(m: Transcendentals, sd: Vector, i: real): (row: Vector)
    requires forall c :: 0 <= c < |sd| ==> sd[c] != 0.0
    ensures |row| == |sd| && forall c :: 0 <= c < |sd| ==> row[c] == Bell(m, sd[c], c as real - i)
  {
    seq(|sd|, c requires 0 <= c < |sd| => Bell(m, sd[c], c as real - i))
  }

  /** The same function evaluated on an index matrix in one broadcast call. */
  function BellGrid(m: Transcendentals, sd: Vector, idx: Matrix): (g: Matrix)
    requires forall c :: 0 <= c < |sd| ==> sd[c] != 0.0
    requires forall r :: 0 <= r < |idx| ==> |idx[r]| == |sd|
    ensures IsMatrix(g, |idx|, |sd|)
    ensures forall r, c :: 0 <= r < |idx| && 0 <= c < |sd| ==> g[r][c] == Bell(m, sd[c], c as real - idx[r][c])
  {
    seq(|idx|, r requires 0 <= r < |idx| =>
      seq(|sd|, c requires 0 <= c < |sd| => Bell(m, sd[c], c as real - idx[r][c])))
  }

  /** The loop `res_mat[i] = gaussian_row(dim, sd, i)`, with the widths scaled by `dim`. */
  function BellRows(m: Transcendentals, sd: Vector): (k: Matrix)
    requires forall c :: 0 <= c < |sd| ==> |sd| as real * sd[c] != 0.0
    ensures IsMatrix(k, |sd|, |sd|)
    ensures forall i, c :: 0 <= i < |sd| && 0 <= c < |sd| ==>
      k[i][c] == Bell(m, |sd| as real * sd[c], c as real - i as real)
  {
    var scaled := Scale(|sd| as real, sd);
    seq(|sd|, i requires 0 <= i < |sd| => BellRow(m, scaled, i as real))
  }

  lemma BellRowsEntry(m: Transcendentals, sd: Vector, i: nat, c: nat)
    requires forall j :: 0 <= j < |sd| ==> |sd| as real * sd[j] != 0.0
    requires i < |sd| && c < |sd|
    ensures BellRows(m, sd)[i][c] == Bell(m, |sd| as real * sd[c], c as real - i as real)
  {
  }

  /** Building the kernel row by row gives the same matrix as one broadcast call on
      the tiled indices. */
  lemma RowByRowIsBroadcast(m: Transcendentals, sd: Vector)
    requires forall c :: 0 <= c < |sd| ==> |sd| as real * sd[c] != 0.0
    ensures BellRows(m, sd) == BellGrid(m, Scale(|sd| as real, sd), TiledIndices(|sd|))
  {
    var n := |sd|;
    var a := BellRows(m, sd);
    var b := BellGrid(m, Scale(n as real, sd), TiledIndices(n));
    MatrixEquality(a, b, n, n);
  }

  /** `gaussian_row(dim, sd, idx)` as NumPy evaluates it on any index matrix `idx`:
      `arange(dim) - idx` subtracts each entry from its column number and the widths
      broadcast along the last axis. */
  function GaussianGrid(m: Transcendentals, sd: Vector, idx: Matrix): (g: Matrix)
    requires m.sqrt(2.0 * m.pi) != 0.0
    requires forall c :: 0 <= c < |sd| ==> sd[c] != 0.0
    requires forall r :: 0 <= r < |idx| ==> |idx[r]| == |sd|
    ensures IsMatrix(g, |idx|, |sd|)
  {
    seq(|idx|, r requires 0 <= r < |idx| =>
      seq(|sd|, c requires 0 <= c < |sd| => Gaussian(m, sd[c], c as real - idx[r][c])))
  }

  /** The column-width kernel is the broadcast call on the tiled row indices. */
  lemma KernelIsBroadcast(m: Transcendentals, sd: Vector)
    requires m.sqrt(2.0 * m.pi) != 0.0
    requires forall c :: 0 <= c < |sd| ==> sd[c] != 0.0
    ensures Kernel(m, sd) == GaussianGrid(m, sd, TiledIndices(|sd|))
  {
    var n := |sd|;
    var a := Kernel(m, sd);
    var b := GaussianGrid(m, sd, TiledIndices(n));
    forall r, c | 0 <= r < n && 0 <= c < n ensures a[r][c] == b[r][c] {
      assert (c - r) as real == c as real - TiledIndices(n)[r][c];
    }
    MatrixEquality(a, b, n, n);
  }

  /** The row-by-row SiPM's width `2·sqrt(2·ln 2) · 0.4` (multiplied, not divided),
      scaled by the dimension inside `gaussian_row`. */
  function RowWidth(m: Transcendentals, dim: nat): real {
    dim as real * (FwhmPerSigma(m) * SipmFraction)
  }

  lemma NonZeroProduct(a: real, b: real)
    requires a != 0.0 && b != 0.0
    ensures a * b != 0.0
  {
  }

  lemma NonZeroScale(n: nat, x: real)
    requires x != 0.0
    ensures n > 0 ==> n as real * x != 0.0
  {
    if n > 0 {
      NonZeroProduct(n as real, x);
    }
  }

  /** Constant widths `x`, scaled by the dimension, give every entry the width
      `dim · x`. */
  lemma {:induction false} BellRowsOfConstant(m: Transcendentals, dim: nat, x: real)
    requires x != 0.0
    ensures forall c :: 0 <= c < dim ==> dim as real * Constant(dim, x)[c] != 0.0
    ensures forall r, c :: 0 <= r < dim && 0 <= c < dim ==>
      BellRows(m, Constant(dim, x))[r][c] == Bell(m, dim as real * x, c as real - r as real)
  {
    var sd := Constant(dim, x);
    NonZeroScale(dim, x);
    assert forall c :: 0 <= c < dim ==> sd[c] == x;
    forall r, c | 0 <= r < dim && 0 <= c < dim
      ensures BellRows(m, sd)[r][c] == Bell(m, dim as real * x, c as real - r as real)
    {
      assert |sd| as real * sd[c] == dim as real * x;
      BellRowsEntry(m, sd, r, c);
    }
  }

  /** The row-by-row SiPM's kernel: one constant width for every entry. */
  function RowKernel(m: Transcendentals, dim: nat): (k: Matrix)
    requires FwhmPerSigma(m) != 0.0
    ensures IsMatrix(k, dim, dim)
    ensures dim > 0 ==> RowWidth(m, dim) != 0.0
    ensures forall r, c :: 0 <= r < dim && 0 <= c < dim ==>
      k[r][c] == Bell(m, RowWidth(m, dim), c as real - r as real)
  {
    var x := FwhmPerSigma(m) * SipmFraction;
    NonZeroProduct(FwhmPerSigma(m), SipmFraction);
    NonZeroScale(dim, x);
    BellRowsOfConstant(m, dim, x);
    assert RowWidth(m, dim) == dim as real * x;
    BellRows(m, Constant(dim, x))
  }

  /** The bell without prefactor lies in (0, 1], is even in the offset and is 1 at 0. */
  lemma BellShape(m: Transcendentals, s: real, d: real)
    requires ExpLaws(m) && s != 0.0
    ensures 0.0 < Bell(m, s, d) <= 1.0
    ensures Bell(m, s, -d) == Bell(m, s, d)
    ensures Bell(m, s, 0.0) == 1.0
  {
    ExponentShape(s, d);
    ExpOfNonPositive(m, GaussExponent(s, d));
  }

  /** Every entry of the row-by-row kernel is at most 1 and positive, the diagonal
      is exactly 1, and the kernel is symmetric. */
  lemma RowKernelShape(m: Transcendentals, dim: nat, r: nat, c: nat)
    requires ExpLaws(m) && LogLaws(m) && SqrtLaws(m)
    requires r < dim && c < dim
    ensures FwhmPerSigma(m) != 0.0
    ensures 0.0 < RowKernel(m, dim)[r][c] <= 1.0
    ensures RowKernel(m, dim)[r][r] == 1.0
    ensures RowKernel(m, dim)[r][c] == RowKernel(m, dim)[c][r]
  {
    FwhmPerSigmaPositive(m);
    var s := RowWidth(m, dim);
    var d := c as real - r as real;
    var k := RowKernel(m, dim);
    assert k[r][c] == Bell(m, s, d);
    assert k[c][r] == Bell(m, s, -d);
    assert k[r][r] == Bell(m, s, 0.0);
    BellShape(m, s, d);
  }
}
