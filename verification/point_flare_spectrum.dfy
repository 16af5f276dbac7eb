/** The earlier flare spectrum of `sim_src/FlareSpectrum.py`: fluxes at energy points
    rather than in bins, a GOES table with only the C, M and X classes, the thermal
    part computed by IDL through `IdlBridge`, and the flare summed once when the
    spectrum is built. */
module PointFlareSpectrum {
  import opened Outcomes
  import opened Linear
  import opened RealMath
  import Text
  import FlareSpectrum
  import IdlBridge

  // ---------------------------------------------------------------- GOES classes

  /** Flux in W/m² of class letter 1; the A and B classes are absent here. */
  function GoesPrefix(): map<char, real> {
    map['C' := 1e-6, 'M' := 1e-5, 'X' := 1e-4]
  }

  /** `goes_class_lookup`, with the same order of failures as the binned version. */
  function GoesClassLookup(s: string): Result<real> {
    if |s| == 0 then Err(IndexError) else PrefixTimes(Text.UpperChar(s[0]), Text.ParseFloat(s[1..]))
  }

  function PrefixTimes(ch: char, mul: Result<real>): Result<real> {
    match mul
    case Err(e) => Err(e)
    case Ok(v) => if ch in GoesPrefix() then Ok(GoesPrefix()[ch] * v) else Err(KeyError([ch]))
  }

  /** This table is the binned one restricted to C, M and X. */
  lemma PrefixIsRestriction()
    ensures forall ch :: ch in GoesPrefix() <==> ch in FlareSpectrum.GoesPrefix() && ch !in {'A', 'B'}
    ensures forall ch :: ch in GoesPrefix() ==> GoesPrefix()[ch] == FlareSpectrum.GoesPrefix()[ch]
  {
  }

  /** Wherever this lookup succeeds the binned lookup gives the same flux, and the
      only strings on which they part are the A and B classes with a parsable
      multiplier, which fail here with KeyError. */
  lemma LookupAgrees(s: string)
    ensures GoesClassLookup(s).Ok? ==> FlareSpectrum.GoesClassLookup(s) == GoesClassLookup(s)
    ensures GoesClassLookup(s) != FlareSpectrum.GoesClassLookup(s) <==>
      |s| > 0 && Text.UpperChar(s[0]) in {'A', 'B'} && Text.ParseFloat(s[1..]).Ok?
    ensures GoesClassLookup(s) != FlareSpectrum.GoesClassLookup(s) ==>
      GoesClassLookup(s) == Err(KeyError([Text.UpperChar(s[0])])) && FlareSpectrum.GoesClassLookup(s).Ok?
  {
    if |s| > 0 {
      PrefixTimesAgrees(Text.UpperChar(s[0]), Text.ParseFloat(s[1..]));
    }
  }

  lemma PrefixTimesAgrees(ch: char, mul: Result<real>)
    ensures PrefixTimes(ch, mul).Ok? ==> FlareSpectrum.PrefixTimes(ch, mul) == PrefixTimes(ch, mul)
    ensures PrefixTimes(ch, mul) != FlareSpectrum.PrefixTimes(ch, mul) <==> ch in {'A', 'B'} && mul.Ok?
    ensures PrefixTimes(ch, mul) != FlareSpectrum.PrefixTimes(ch, mul) ==>
      PrefixTimes(ch, mul) == Err(KeyError([ch])) && FlareSpectrum.PrefixTimes(ch, mul).Ok?
  {
    PrefixIsRestriction();
    if mul.Ok? && ch in GoesPrefix() {
      assert FlareSpectrum.PrefixTimes(ch, mul) == Ok(FlareSpectrum.Flux(ch, mul.value));
    }
  }

  // ---------------------------------------------------------------- Battaglia scaling

  /** `BattagliaParameters(goes_flux)` as written here: the second temperature term is
      taken with the opposite sign and subtracted. */
  function BattagliaParameters(m: Transcendentals, goesFlux: real): (b: FlareSpectrum.Battaglia)
    requires ExpLaws(m) && LogLaws(m)
    ensures b.referenceEnergy == FlareSpectrum.ReferenceEnergy
  {
    LnStrictlyIncreasing(m, 1.0, 10.0);
    LnOfOne(m);
    var p1 := m.ln(goesFlux) / m.ln(10.0);
    var p2 := m.ln(3.5) / m.ln(10.0) - 12.0;
    var referenceFlux := Pow(m, goesFlux / 1.8e-5, 1.0 / 0.83);
    var c2 := GoesPrefix()['C'] * 2.0;
    var coefficient := if goesFlux < c2 then 2.04 else 3.60;
    FlareSpectrum.Battaglia(
      (1.0 / 0.33) * (p1 - p2),
      Pow(m, goesFlux / 3.6 * 1e50, 1.0 / 0.92),
      FlareSpectrum.ReferenceEnergy,
      referenceFlux,
      coefficient * Pow(m, referenceFlux, -0.16))
  }

  /** Both versions of the scaling compute the same parameters. */
  lemma BattagliaAgrees(m: Transcendentals, goesFlux: real)
    requires ExpLaws(m) && LogLaws(m)
    ensures BattagliaParameters(m, goesFlux) == FlareSpectrum.BattagliaParameters(m, goesFlux)
  {
    LnStrictlyIncreasing(m, 1.0, 10.0);
    LnOfOne(m);
    var p1 := m.ln(goesFlux) / m.ln(10.0);
    var a := m.ln(3.5) / m.ln(10.0);
    assert p1 - (a - 12.0) == p1 + (12.0 - a);
    assert GoesPrefix()['C'] == FlareSpectrum.GoesPrefix()['C'];
  }

  // ---------------------------------------------------------------- the spectrum

  /** A spectrum holds its class, its energy points and the already summed flare. */
  datatype Spectrum = Spectrum(goesClass: string, energies: Vector, flare: Vector)

  /** The constructor: `thermal + nonthermal` is evaluated at once, so operands that
      do not broadcast raise ValueError here. */
  function MakeSpectrum(goesClass: string, energies: Vector, thermal: Vector, nonthermal: Vector): (r: Result<Spectrum>)
    ensures r.Ok? <==> FlareSpectrum.BroadcastAdd(thermal, nonthermal).Ok?
    ensures r.Ok? ==> r.value.goesClass == goesClass && r.value.energies == energies
    ensures |thermal| == |nonthermal| ==> r == Ok(Spectrum(goesClass, energies, FlareSpectrum.Add(thermal, nonthermal)))
  {
    match FlareSpectrum.BroadcastAdd(thermal, nonthermal)
    case Err(e) => Err(e)
    case Ok(flare) => Ok(Spectrum(goesClass, energies, flare))
  }

  /** `dummy`: no class and a flare of zeros. */
  function Dummy(energies: Vector): (r: Spectrum)
    ensures r.energies == energies && r.flare == Zeros(|energies|)
  {
    assert FlareSpectrum.Add(Zeros(|energies|), Zeros(|energies|)) == Zeros(|energies|);
    MakeSpectrum("", energies, Zeros(|energies|), Zeros(|energies|)).value
  }

  /** The `goes_flux` property: only the C, M and X classes have a flux, and where
      one exists it is the one the binned spectrum gives for the same class. */
  function GoesFlux(s: Spectrum): (r: Result<real>)
    ensures |s.goesClass| == 0 ==> r == Err(IndexError)
    ensures r.Ok? <==> |s.goesClass| > 0 && Text.UpperChar(s.goesClass[0]) in GoesPrefix()
                       && Text.ParseFloat(s.goesClass[1..]).Ok?
    ensures r.Ok? ==> r.value == GoesPrefix()[Text.UpperChar(s.goesClass[0])] * Text.ParseFloat(s.goesClass[1..]).value
    ensures r.Ok? ==> r == FlareSpectrum.GoesClassLookup(s.goesClass)
  {
    LookupAgrees(s.goesClass);
    GoesClassLookup(s.goesClass)
  }

  /** A dummy spectrum has no class letter, so asking for its flux raises IndexError. */
  lemma DummyHasNoFlux(energies: Vector)
    ensures GoesFlux(Dummy(energies)) == Err(IndexError)
  {
  }

  /** `make_with_battaglia_scaling` on the energy points `np.arange(start, end, de)`;
      `thermal` is what `f_vth_bridge` on the same range returns for the temperature
      (keV) and emission measure (1e49 cm⁻³) of `gen_vth_params`.  A bad class fails first, then the bridge, then the sum. */
  function MakeWithBattagliaScaling(
    m: Transcendentals, goesClass: string, energies: Vector, thermal: (real, real) -> Result<Vector>): (r: Result<Spectrum>)
    requires ExpLaws(m) && LogLaws(m)
    requires forall i :: 0 <= i < |energies| ==> energies[i] != 0.0
    ensures GoesClassLookup(goesClass).Err? ==> r == Err(GoesClassLookup(goesClass).error)
    ensures r.Ok? ==> r.value.goesClass == goesClass && r.value.energies == energies
  {
    match GoesClassLookup(goesClass)
    case Err(e) => Err(e)
    case Ok(flux) =>
      var bp := BattagliaParameters(m, flux);
      match thermal(FlareSpectrum.VthParams(bp).0, FlareSpectrum.VthParams(bp).1)
      case Err(e) => Err(e)
      case Ok(thermalSpec) =>
        var nonthermal := IdlBridge.PowerLawWithPivot(m, energies, bp.referenceFlux, bp.spectralIndex, bp.referenceEnergy);
        MakeSpectrum(goesClass, energies, thermalSpec, nonthermal)
  }

  /** With a thermal part of one value per energy point, the flare is that part plus
      the power law pivoting at 35 keV, which at 35 keV adds the reference flux. */
  lemma MadeFlareIsSum(
    m: Transcendentals, goesClass: string, energies: Vector, thermal: (real, real) -> Result<Vector>, i: nat)
    requires ExpLaws(m) && LogLaws(m)
    requires forall j :: 0 <= j < |energies| ==> energies[j] != 0.0
    requires GoesClassLookup(goesClass).Ok?
    requires var bp := BattagliaParameters(m, GoesClassLookup(goesClass).value);
      var vth := FlareSpectrum.VthParams(bp);
      thermal(vth.0, vth.1).Ok? && |thermal(vth.0, vth.1).value| == |energies|
    requires i < |energies| && energies[i] == FlareSpectrum.ReferenceEnergy
    ensures var r := MakeWithBattagliaScaling(m, goesClass, energies, thermal);
      var bp := BattagliaParameters(m, GoesClassLookup(goesClass).value);
      && r.Ok? && |r.value.flare| == |energies|
      && var vth := FlareSpectrum.VthParams(bp);
      r.value.flare[i] == thermal(vth.0, vth.1).value[i] + bp.referenceFlux
  {
    var bp := BattagliaParameters(m, GoesClassLookup(goesClass).value);
    IdlBridge.PowerLawAtPivot(m, energies, bp.referenceFlux, bp.spectralIndex, bp.referenceEnergy, i);
  }
}
