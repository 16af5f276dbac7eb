/** The instruments built on the stacks of `adetsim`: the HaFX stack of
    `adetsim/hafx_src/HafxStack.py`, the two Amptek X-123 stacks, and the two GRIPS
    piggyback stacks.  Their tabulated constants are those of
    `adetsim/hafx_src/HafxMaterialProperties.py`.

    The stacks read their attenuation tables with `AttenuationData.from_nist_file`,
    which the `adetsim` class does not have.  Each constructor is modelled twice:
    as written, on a `Reader` whose failures end the construction (`FromNistFile` is
    the reader the code calls), and on a `Loader` giving the tables a working reader
    would give. */
module Instruments {
  import opened Outcomes
  import opened Linear
  import opened RealMath
  import Attenuation
  import FlareSpectrum
  import BinnedMaterial
  import Dispersion
  import VectorStack

  type Material = BinnedMaterial.Material
  type Data = Attenuation.AttenuationData

  /** The attenuation table of each material name, as a working reader gives it. */
  type Loader = string -> Data

  /** Reading the attenuation table of a material name, which may fail. */
  type Reader = string -> Result<Data>

  // ---------------------------------------------------------------- reading tables

  /** `AttenuationData` of `adetsim` defines `from_compound_dict` only; looking up
      `from_nist_file` raises before any file is opened. */
  const NoNistReader: Error := AttributeError("from_nist_file")

  /** `AttenuationData.from_nist_file(path)` as the stacks call it. */
  function FromNistFile(name: string): Result<Data> {
    Err(NoNistReader)
  }

  /** `read` works and gives what `load` gives, for every name. */
  ghost predicate Reads(read: Reader, load: Loader) {
    forall name :: read(name) == Ok(load(name))
  }

  /** The tables of `names` read in order; the first read that fails ends the
      reading with its error. */
  function ReadInOrder(names: seq<string>, read: Reader): (r: Result<seq<Data>>)
    ensures r.Ok? <==> forall i :: 0 <= i < |names| ==> read(names[i]).Ok?
    ensures r.Ok? ==> |r.value| == |names| && forall i :: 0 <= i < |names| ==> r.value[i] == read(names[i]).value
    ensures r.Err? ==> exists i :: 0 <= i < |names| && read(names[i]) == Err(r.error) &&
                                   forall k :: 0 <= k < i ==> read(names[k]).Ok?
    decreases |names|
  {
    if names == [] then Ok([])
    else
      match read(names[0])
      case Err(e) => Err(e)
      case Ok(d) =>
        match ReadInOrder(names[1..], read)
        case Err(e) =>
          assert forall i :: 1 <= i < |names| ==> names[1..][i - 1] == names[i];
          Err(e)
        case Ok(ds) =>
          assert forall i :: 1 <= i < |names| ==> names[1..][i - 1] == names[i];
          Ok([d] + ds)
  }

  /** With a working reader every table is read, and is the loaded one. */
  lemma ReadInOrderReads(names: seq<string>, read: Reader, load: Loader)
    requires Reads(read, load)
    ensures var r := ReadInOrder(names, read);
      r.Ok? && |r.value| == |names| && forall i :: 0 <= i < |names| ==> r.value[i] == load(names[i])
  {
    forall i | 0 <= i < |names| ensures read(names[i]) == Ok(load(names[i])) {
    }
  }

  /** The reader as written fails at the first name, whatever the names. */
  lemma NistReadingRaises(names: seq<string>)
    requires names != []
    ensures ReadInOrder(names, FromNistFile) == Err(NoNistReader)
  {
  }

  // ---------------------------------------------------------------- HaFX properties

  const Al: string := "Al"
  const Au: string := "Au"
  const Teflon: string := "Teflon"
  const Be: string := "Be"
  const CeBr3: string := "CeBr3"
  const Si: string := "Si"
  const CdTe: string := "CdTe"

  /** `HAFX_MATERIAL_ORDER`: outermost first, the scintillator last. */
  const HafxOrder: seq<string> := [Al, Teflon, Be, CeBr3]

  /** `THICKNESSES` in cm; aluminium is left out, its thickness is the variable. */
  const Thicknesses: map<string, real> := map[Be := 0.07, Teflon := 0.0127, CeBr3 := 0.5]

  /** `DENSITIES` in g/cm³. */
  const Densities: map<string, real> :=
    map[Al := 2.712, Au := 19.3, Be := 1.850, Teflon := 2.200, CeBr3 := 5.1, Si := 2.33, CdTe := 5.85]

  /** `FULL_AREA` and `SINGLE_DET_AREA` in cm², `DIAMETER` in cm. */
  const FullArea: real := 43.0
  const SingleDetArea: real := FullArea / 4.0
  const HafxDiameter: real := 3.7

  /** `METER_PER_CM`, which despite its name is the number of centimetres in a metre. */
  const CmPerMeter: real := 100.0

  // ---------------------------------------------------------------- HaFX

  /** The HaFX layer called `name`: aluminium of the given thickness, the others of
      their tabulated thickness, all of the HaFX diameter and unnamed. */
  function HafxMaterial(name: string, alThick: real, load: Loader): (mat: Material)
    requires name in HafxOrder
    ensures mat.diameter == HafxDiameter && mat.name == BinnedMaterial.NoName
    ensures mat.massDensity == Densities[name] && mat.data == load(name)
    ensures mat.thickness == (if name == Al then alThick else Thicknesses[name])
  {
    HafxLayer(name, alThick, load(name))
  }

  /** The HaFX layer called `name` on the table read for it. */
  function HafxLayer(name: string, alThick: real, data: Data): Material
    requires name in HafxOrder
  {
    BinnedMaterial.MakeMaterial(HafxDiameter, if name == Al then alThick else Thicknesses[name],
                                Densities[name], data, None)
  }

  /** `gen_materials(al_thick)`: one layer per name of the HaFX order, in that order;
      only the aluminium takes the argument thickness. */
  function GenMaterials(alThick: real, load: Loader): (ms: seq<Material>)
    ensures |ms| == |HafxOrder|
    ensures forall i :: 0 <= i < |ms| ==> ms[i] == HafxMaterial(HafxOrder[i], alThick, load)
  {
    seq(|HafxOrder|, i requires 0 <= i < |HafxOrder| => HafxMaterial(HafxOrder[i], alThick, load))
  }

  /** `HafxStack(enable_scintillator, al_thick)`: the last layer, the CeBr3 crystal,
      is popped off as the scintillator; the `Sipm3000` line disperses. */
  function MakeHafx(enable: bool, alThick: real, load: Loader): (s: VectorStack.Stack)
    ensures s.Hafx? && s.enableScintillator == enable && s.detector == Dispersion.AdetsimSipm3000()
    ensures s.layers + [s.scintillator] == GenMaterials(alThick, load)
    ensures |s.layers| == 3 && s.layers[0].thickness == alThick
    ensures s.layers[1].thickness == 0.0127 && s.layers[2].thickness == 0.07
    ensures s.scintillator.thickness == 0.5 && s.scintillator.massDensity == 5.1
  {
    var ms := GenMaterials(alThick, load);
    assert ms[..3] + [ms[3]] == ms;
    VectorStack.Hafx(ms[..3], Dispersion.AdetsimSipm3000(), ms[3], enable)
  }

  /** `HafxStack(enable_scintillator, al_thick)` as written: `gen_materials` reads the
      table of each name of the HaFX order in turn, and the first read that fails
      ends the construction; otherwise the CeBr3 layer is popped off as before. */
  function ReadHafx(enable: bool, alThick: real, read: Reader): (r: Result<VectorStack.Stack>)
    ensures r.Err? <==> exists i :: 0 <= i < |HafxOrder| && read(HafxOrder[i]).Err?
    ensures r.Err? ==> exists i :: 0 <= i < |HafxOrder| && read(HafxOrder[i]) == Err(r.error)
    ensures r.Ok? ==> r.value.Hafx? && r.value.enableScintillator == enable && |r.value.layers| == 3
  {
    match ReadInOrder(HafxOrder, read)
    case Err(e) => Err(e)
    case Ok(ds) =>
      var ms := seq(|HafxOrder|, i requires 0 <= i < |HafxOrder| => HafxLayer(HafxOrder[i], alThick, ds[i]));
      Ok(VectorStack.Hafx(ms[..3], Dispersion.AdetsimSipm3000(), ms[3], enable))
  }

  /** As written, every HaFX stack raises AttributeError at its first table. */
  lemma HafxAsWrittenRaises(enable: bool, alThick: real)
    ensures ReadHafx(enable, alThick, FromNistFile) == Err(NoNistReader)
  {
    NistReadingRaises(HafxOrder);
  }

  /** With a reader that works, the HaFX stack is the one built on the loaded tables. */
  lemma HafxReadsAsLoaded(enable: bool, alThick: real, read: Reader, load: Loader)
    requires Reads(read, load)
    ensures ReadHafx(enable, alThick, read) == Ok(MakeHafx(enable, alThick, load))
  {
    ReadInOrderReads(HafxOrder, read, load);
    var ds := ReadInOrder(HafxOrder, read).value;
    var ms := seq(|HafxOrder|, i requires 0 <= i < |HafxOrder| => HafxLayer(HafxOrder[i], alThick, ds[i]));
    assert ms == GenMaterials(alThick, load);
  }

  /** With its three layers in front of the scintillator, the HaFX stack of `adetsim`
      as written gives no response to any spectrum, with or without scintillator and
      dispersion. */
  lemma HafxNeverResponds(m: Transcendentals, enable: bool, alThick: real, load: Loader, inc: VectorStack.Incident,
                          ks: seq<int>, spread: Result<Matrix>, disperse: bool)
    requires spread.Ok? ==> Rectangular(spread.value)
    ensures VectorStack.DetectorResponse(m, MakeHafx(enable, alThick, load), inc, ks, spread, disperse).Err?
  {
    VectorStack.ThreeLayersFail(m, MakeHafx(enable, alThick, load), inc, ks, spread, disperse);
  }

  /** The HaFX area is that of its aluminium layer, 3.7 cm across. */
  lemma HafxArea(m: Transcendentals, enable: bool, alThick: real, load: Loader)
    ensures VectorStack.Area(m, MakeHafx(enable, alThick, load)) == Ok(BinnedMaterial.FaceArea(m, HafxDiameter))
  {
  }

  // ---------------------------------------------------------------- X-123

  /** `X123_DIAMETER = 2·sqrt(0.17/π)`: the diameter of a 0.17 cm² face. */
  const X123Face: real := 0.17

  function X123Diameter(m: Transcendentals): real
    requires m.pi != 0.0
  {
    2.0 * m.sqrt(X123Face / m.pi)
  }

  /** `DET_THICK = 500e-6 · METER_PER_CM` and `BE_THICK = 8e-6 · METER_PER_CM`. */
  const X123DetThick: real := 0.0005 * CmPerMeter
  const X123BeThick: real := 0.000008 * CmPerMeter

  /** `X123Stack(det_thick)`: one beryllium window named 'Be' in front of a silicon
      volume of the given thickness; the fixed-resolution detector disperses. */
  function MakeX123(m: Transcendentals, detThick: real, load: Loader): (s: VectorStack.Stack)
    requires m.pi != 0.0
    ensures s.Volume? && s.volume.Some? && s.detector == Dispersion.FixedResolution
    ensures |s.layers| == 1 && s.layers[0].name == "Be"
    ensures s.layers[0].thickness == 0.0008 && s.layers[0].massDensity == 1.85 && s.layers[0].data == load(Be)
    ensures s.volume.value.thickness == detThick && s.volume.value.massDensity == 2.33 && s.volume.value.data == load(Si)
    ensures s.layers[0].diameter == s.volume.value.diameter == X123Diameter(m)
  {
    X123On(m, detThick, load(Be), load(Si))
  }

  /** The X-123 stack on the beryllium and silicon tables read. */
  function X123On(m: Transcendentals, detThick: real, be: Data, si: Data): VectorStack.Stack
    requires m.pi != 0.0
  {
    var window := BinnedMaterial.MakeMaterial(X123Diameter(m), X123BeThick, Densities[Be], be, Some("Be"));
    var volume := BinnedMaterial.MakeMaterial(X123Diameter(m), detThick, Densities[Si], si, None);
    VectorStack.Volume([window], Dispersion.MakeFixed(0.0), Some(volume))
  }

  /** `X123Stack(det_thick)` as written: the window's table is read first, then the
      silicon's; the first read that fails ends the construction. */
  function ReadX123(m: Transcendentals, detThick: real, read: Reader): (r: Result<VectorStack.Stack>)
    requires m.pi != 0.0
    ensures r.Err? <==> read(Be).Err? || read(Si).Err?
    ensures r.Err? ==> r.error == (if read(Be).Err? then read(Be).error else read(Si).error)
    ensures r.Ok? ==> r.value == X123On(m, detThick, read(Be).value, read(Si).value)
  {
    match read(Be)
    case Err(e) => Err(e)
    case Ok(be) =>
      match read(Si)
      case Err(e) => Err(e)
      case Ok(si) => Ok(X123On(m, detThick, be, si))
  }

  /** As written, every X-123 stack raises AttributeError at its window. */
  lemma X123AsWrittenRaises(m: Transcendentals, detThick: real)
    requires m.pi != 0.0
    ensures ReadX123(m, detThick, FromNistFile) == Err(NoNistReader)
  {
  }

  /** With a reader that works, the X-123 stack is the one built on the loaded tables. */
  lemma X123ReadsAsLoaded(m: Transcendentals, detThick: real, read: Reader, load: Loader)
    requires m.pi != 0.0 && Reads(read, load)
    ensures ReadX123(m, detThick, read) == Ok(MakeX123(m, detThick, load))
  {
    assert read(Be) == Ok(load(Be)) && read(Si) == Ok(load(Si));
  }

  /** The default silicon thickness is 0.05 cm, and the face of the X-123 is 0.17 cm². */
  lemma X123Geometry(m: Transcendentals, load: Loader)
    requires SqrtLaws(m) && 0.0 < m.pi
    ensures MakeX123(m, X123DetThick, load).volume.value.thickness == 0.05
    ensures VectorStack.Area(m, MakeX123(m, X123DetThick, load)) == Ok(X123Face)
  {
    var s := MakeX123(m, X123DetThick, load);
    BinnedMaterial.AreaOfDiameter(m, s.layers[0], X123Face);
  }

  /** The X-123 responds, bin by bin, with the window's transmission times the
      fraction the silicon absorbs photoelectrically, whatever mechanisms are chosen
      for the window; the fixed-resolution spread follows on request. */
  lemma X123Response(m: Transcendentals, detThick: real, load: Loader, inc: VectorStack.Incident, ks: seq<int>,
                     spread: Result<Matrix>, disperse: bool)
    requires m.pi != 0.0
    requires spread.Ok? ==> Rectangular(spread.value)
    requires inc.energies.Some? && |inc.energies.value| == BinnedMaterial.Bins(inc.spectrum)
    requires var s := MakeX123(m, detThick, load);
      VectorStack.LayerResponse(m, s.layers[0], inc.spectrum, ks).Ok? && VectorStack.VolumeAbsorption(m, s.volume, inc.spectrum).Ok?
    ensures var s := MakeX123(m, detThick, load);
      var w := VectorStack.LayerResponse(m, s.layers[0], inc.spectrum, ks).value;
      var a := VectorStack.VolumeAbsorption(m, s.volume, inc.spectrum).value;
      VectorStack.DetectorResponse(m, s, inc, ks, spread, disperse) == VectorStack.Dispatch(spread, VectorStack.Vec(Hadamard(a, w)), disperse)
  {
    var s := MakeX123(m, detThick, load);
    assert s == VectorStack.Volume([s.layers[0]], s.detector, Some(s.volume.value));
    VectorStack.VolumeOfOneLayer(m, s.layers[0], s.detector, s.volume.value, inc, ks, spread, disperse);
  }

  // ---------------------------------------------------------------- X-123 CdTe

  /** `DET_THICK = 1e-3 · METER_PER_CM`, `BE_THICK = 100e-6 · METER_PER_CM`, and the
      calibration points (14.4 keV, 0.53 keV) and (122 keV, 0.85 keV). */
  const CdTeDetThick: real := 0.001 * CmPerMeter
  const CdTeBeThick: real := 0.0001 * CmPerMeter
  const CdTeE1: real := 14.4
  const CdTeE2: real := 122.0
  const CdTeFw1: real := 530.0 / 1000.0
  const CdTeFw2: real := 850.0 / 1000.0

  /** `X123CdTeStack(**kwargs)`: the keyword arguments are accepted and ignored; an
      unnamed 0.01 cm beryllium window in front of 0.1 cm of CdTe, dispersed by the
      line through the fractional resolutions `FW/E` at the two energies. */
  function MakeX123CdTe(m: Transcendentals, load: Loader, kwargs: map<string, real>): (s: VectorStack.Stack)
    requires m.pi != 0.0
    ensures s.Volume? && s.volume.Some? && s.detector.Linear?
    ensures |s.layers| == 1 && s.layers[0].thickness == 0.01 && s.layers[0].massDensity == 1.85
    ensures s.layers[0].name == BinnedMaterial.NoName && s.layers[0].data == load(Be)
    ensures s.volume.value.thickness == 0.1 && s.volume.value.massDensity == 5.85 && s.volume.value.data == load(CdTe)
    ensures s.layers[0].diameter == s.volume.value.diameter == X123Diameter(m)
    ensures Dispersion.FractionalResolution(s.detector, 14.4) * 14.4 == 0.53
    ensures Dispersion.FractionalResolution(s.detector, 122.0) * 122.0 == 0.85
  {
    Dispersion.LinearThroughPoints(CdTeE1, CdTeE2, CdTeFw1 / CdTeE1, CdTeFw2 / CdTeE2);
    X123CdTeOn(m, load(Be), load(CdTe))
  }

  /** The X-123 CdTe stack on the beryllium and CdTe tables read. */
  function X123CdTeOn(m: Transcendentals, be: Data, cdte: Data): VectorStack.Stack
    requires m.pi != 0.0
  {
    Dispersion.LinearThroughPoints(CdTeE1, CdTeE2, CdTeFw1 / CdTeE1, CdTeFw2 / CdTeE2);
    var window := BinnedMaterial.MakeMaterial(X123Diameter(m), CdTeBeThick, Densities[Be], be, None);
    var volume := BinnedMaterial.MakeMaterial(X123Diameter(m), CdTeDetThick, Densities[CdTe], cdte, None);
    VectorStack.Volume([window], Dispersion.MakeLinear(CdTeE1, CdTeE2, CdTeFw1 / CdTeE1, CdTeFw2 / CdTeE2).value, Some(volume))
  }

  /** `X123CdTeStack(**kwargs)` as written: the window's table is read first, then
      the CdTe's; the first read that fails ends the construction. */
  function ReadX123CdTe(m: Transcendentals, read: Reader, kwargs: map<string, real>): (r: Result<VectorStack.Stack>)
    requires m.pi != 0.0
    ensures r.Err? <==> read(Be).Err? || read(CdTe).Err?
    ensures r.Err? ==> r.error == (if read(Be).Err? then read(Be).error else read(CdTe).error)
    ensures r.Ok? ==> r.value == X123CdTeOn(m, read(Be).value, read(CdTe).value)
  {
    match read(Be)
    case Err(e) => Err(e)
    case Ok(be) =>
      match read(CdTe)
      case Err(e) => Err(e)
      case Ok(cdte) => Ok(X123CdTeOn(m, be, cdte))
  }

  /** As written, every X-123 CdTe stack raises AttributeError at its window. */
  lemma X123CdTeAsWrittenRaises(m: Transcendentals, kwargs: map<string, real>)
    requires m.pi != 0.0
    ensures ReadX123CdTe(m, FromNistFile, kwargs) == Err(NoNistReader)
  {
  }

  /** With a reader that works, the X-123 CdTe stack is the one built on the loaded
      tables. */
  lemma X123CdTeReadsAsLoaded(m: Transcendentals, read: Reader, load: Loader, kwargs: map<string, real>)
    requires m.pi != 0.0 && Reads(read, load)
    ensures ReadX123CdTe(m, read, kwargs) == Ok(MakeX123CdTe(m, load, kwargs))
  {
    assert read(Be) == Ok(load(Be)) && read(CdTe) == Ok(load(CdTe));
  }

  /** The keyword arguments change nothing. */
  lemma X123CdTeIgnoresKeywords(m: Transcendentals, load: Loader, a: map<string, real>, b: map<string, real>)
    requires m.pi != 0.0
    ensures MakeX123CdTe(m, load, a) == MakeX123CdTe(m, load, b)
  {
  }

  // ---------------------------------------------------------------- GRIPS

  /** The two GRIPS piggyback stacks: the one under `projects/` falls back on the HaFX
      densities and on compound formulas; the older one has no fallback. */
  datatype GripsVersion = WithFallbacks | Piggyback

  /** `MAT_DENS` in g/cm³; the keys are also those of `MAT_DAT`. */
  const GripsDensities: map<string, real> := map["teflon" := 2.2, "pla" := 1.24, "lyso" := 7.1, "gagg" := 6.63]

  /** `det_mats`: the names that make the detector volume rather than a layer. */
  const DetectorNames: set<string> := {"lyso", "gagg"}

  /** `DIAMETER`: 4.52 cm (four 4 cm squares as one circle), and 2 cm in the older
      stack. */
  function GripsDiameter(v: GripsVersion): real {
    match v
    case WithFallbacks => 4.52
    case Piggyback => 2.0
  }

  /** `hmp.ATTEN_FORMULAS`, which `HafxMaterialProperties` does not define. */
  const MissingFormulas: Error := AttributeError("ATTEN_FORMULAS")

  /** What an unknown name raises: the older stack's `MAT_DENS[n]` fails at once;
      the newer one falls back on the HaFX densities (KeyError outside them) and then
      on the missing formula table. */
  function UnknownName(v: GripsVersion, name: string): Error {
    match v
    case Piggyback => KeyError(name)
    case WithFallbacks => if name in Densities then MissingFormulas else KeyError(name)
  }

  /** The material of a known name, of the version's diameter. */
  function KnownMaterial(v: GripsVersion, entry: (string, real), data: Loader): (mat: Material)
    requires entry.0 in GripsDensities
    ensures mat.diameter == GripsDiameter(v) && mat.thickness == entry.1 && mat.massDensity == GripsDensities[entry.0]
    ensures mat.data == data(entry.0)
  {
    BinnedMaterial.MakeMaterial(GripsDiameter(v), entry.1, GripsDensities[entry.0], data(entry.0), Some(entry.0))
  }

  /** The keyword arguments of one entry of `stack_mats`, density before data. */
  function GripsMaterial(v: GripsVersion, entry: (string, real), data: Loader): (r: Result<Material>)
    ensures entry.0 in GripsDensities ==> r == Ok(KnownMaterial(v, entry, data))
    ensures entry.0 !in GripsDensities ==> r == Err(UnknownName(v, entry.0))
  {
    var name := entry.0;
    match v
    case Piggyback =>
      if name in GripsDensities then Ok(KnownMaterial(v, entry, data)) else Err(KeyError(name))
    case WithFallbacks =>
      var density := if name in GripsDensities then Ok(GripsDensities[name])
                     else if name in Densities then Ok(Densities[name])
                     else Err(KeyError(name));
      match density
      case Err(e) => Err(e)
      case Ok(_) =>
        if name in GripsDensities then Ok(KnownMaterial(v, entry, data)) else Err(MissingFormulas)
  }

  /** The constructor's loop from the given layers and detector on: layers are
      appended in order, and each detector name replaces the detector. */
  function GripsLoop(v: GripsVersion, entries: seq<(string, real)>, data: Loader,
                     layers: seq<Material>, detector: Option<Material>): (r: Result<(seq<Material>, Option<Material>)>)
    decreases |entries|
  {
    if entries == [] then Ok((layers, detector))
    else
      match GripsMaterial(v, entries[0], data)
      case Err(e) => Err(e)
      case Ok(mat) =>
        if entries[0].0 in DetectorNames then GripsLoop(v, entries[1..], data, layers, Some(mat))
        else GripsLoop(v, entries[1..], data, layers + [mat], detector)
  }

  /** `GripsStack(stack_mats)`, the dictionary given as its items in insertion order.
      The requested resolution 0.4 reaches a detector that ignores it. */
  function MakeGrips(v: GripsVersion, entries: seq<(string, real)>, data: Loader): (r: Result<VectorStack.Stack>)
    ensures r.Ok? ==> r.value.Volume? && r.value.detector == Dispersion.FixedResolution
  {
    match GripsLoop(v, entries, data, [], None)
    case Err(e) => Err(e)
    case Ok((layers, detector)) => Ok(VectorStack.Volume(layers, Dispersion.MakeFixed(0.4), detector))
  }

  /** The entries that become layers, in order. */
  function LayerEntries(entries: seq<(string, real)>): (es: seq<(string, real)>)
    ensures forall e :: e in es ==> e in entries && e.0 !in DetectorNames
  {
    if entries == [] then []
    else if entries[0].0 in DetectorNames then LayerEntries(entries[1..])
    else [entries[0]] + LayerEntries(entries[1..])
  }

  /** `j` is the last entry naming a detector material. */
  predicate LastDetector(entries: seq<(string, real)>, j: int) {
    0 <= j < |entries| && entries[j].0 in DetectorNames &&
    forall k :: j < k < |entries| ==> entries[k].0 !in DetectorNames
  }

  predicate AllKnown(entries: seq<(string, real)>) {
    forall k :: 0 <= k < |entries| ==> entries[k].0 in GripsDensities
  }

  function KnownMaterials(v: GripsVersion, es: seq<(string, real)>, data: Loader): (ms: seq<Material>)
    requires forall e :: e in es ==> e.0 in GripsDensities
    ensures |ms| == |es| && forall i :: 0 <= i < |es| ==> ms[i] == KnownMaterial(v, es[i], data)
  {
    seq(|es|, i requires 0 <= i < |es| => KnownMaterial(v, es[i], data))
  }

  /** On known entries the loop succeeds and appends the non-detector materials in
      order. */
  lemma {:induction false} GripsLoopLayers(v: GripsVersion, entries: seq<(string, real)>, data: Loader,
                                           layers: seq<Material>, detector: Option<Material>)
    requires AllKnown(entries)
    ensures GripsLoop(v, entries, data, layers, detector).Ok?
    ensures GripsLoop(v, entries, data, layers, detector).value.0 == layers + KnownMaterials(v, LayerEntries(entries), data)
    decreases |entries|
  {
    if entries != [] {
      var h, t := entries[0], entries[1..];
      AllKnownOfTail(entries);
      var mat := KnownMaterial(v, h, data);
      assert GripsMaterial(v, h, data) == Ok(mat);
      if h.0 in DetectorNames {
        assert GripsLoop(v, entries, data, layers, detector) == GripsLoop(v, t, data, layers, Some(mat));
        GripsLoopLayers(v, t, data, layers, Some(mat));
      } else {
        assert GripsLoop(v, entries, data, layers, detector) == GripsLoop(v, t, data, layers + [mat], detector);
        GripsLoopLayers(v, t, data, layers + [mat], detector);
        assert LayerEntries(entries) == [h] + LayerEntries(t);
        KnownMaterialsCons(v, h, LayerEntries(t), data);
        SeqAssociative(layers, [mat], KnownMaterials(v, LayerEntries(t), data));
      }
    }
  }

  lemma SeqAssociative(a: seq<Material>, b: seq<Material>, c: seq<Material>)
    ensures a + b + c == a + (b + c)
  {
  }

  lemma KnownMaterialsCons(v: GripsVersion, h: (string, real), es: seq<(string, real)>, data: Loader)
    requires h.0 in GripsDensities && forall e :: e in es ==> e.0 in GripsDensities
    ensures forall e :: e in [h] + es ==> e.0 in GripsDensities
    ensures KnownMaterials(v, [h] + es, data) == [KnownMaterial(v, h, data)] + KnownMaterials(v, es, data)
  {
    var l, r := KnownMaterials(v, [h] + es, data), [KnownMaterial(v, h, data)] + KnownMaterials(v, es, data);
    assert forall i :: 0 < i < |l| ==> ([h] + es)[i] == es[i - 1];
    assert |l| == |r|;
    forall i | 0 <= i < |l| ensures l[i] == r[i] {
      if i > 0 { assert ([h] + es)[i] == es[i - 1]; }
    }
  }

  lemma AllKnownOfTail(entries: seq<(string, real)>)
    requires AllKnown(entries) && entries != []
    ensures AllKnown(entries[1..])
  {
    forall k | 0 <= k < |entries| - 1 ensures entries[1..][k].0 in GripsDensities {
      assert entries[1..][k] == entries[k + 1];
    }
  }

  /** On known entries the loop ends with the last detector material, or with the
      detector it started from when no entry names one. */
  lemma {:induction false} GripsLoopDetector(v: GripsVersion, entries: seq<(string, real)>, data: Loader,
                                             layers: seq<Material>, detector: Option<Material>)
    requires AllKnown(entries)
    ensures GripsLoop(v, entries, data, layers, detector).Ok?
    ensures (forall k :: 0 <= k < |entries| ==> entries[k].0 !in DetectorNames) ==>
      GripsLoop(v, entries, data, layers, detector).value.1 == detector
    ensures forall j :: LastDetector(entries, j) ==>
      GripsLoop(v, entries, data, layers, detector).value.1 == Some(KnownMaterial(v, entries[j], data))
    decreases |entries|
  {
    if entries != [] {
      var h, t := entries[0], entries[1..];
      AllKnownOfTail(entries);
      var mat := KnownMaterial(v, h, data);
      var next := if h.0 in DetectorNames then Some(mat) else detector;
      var layers' := if h.0 in DetectorNames then layers else layers + [mat];
      assert GripsLoop(v, entries, data, layers, detector) == GripsLoop(v, t, data, layers', next);
      GripsLoopDetector(v, t, data, layers', next);
      forall j | LastDetector(entries, j) && j > 0 ensures LastDetector(t, j - 1) {
        forall k | j - 1 < k < |t| ensures t[k].0 !in DetectorNames {
          assert t[k] == entries[k + 1];
        }
      }
      if forall k :: 0 <= k < |t| ==> t[k].0 !in DetectorNames {
        forall j | LastDetector(entries, j) ensures j == 0 {
        }
      } else {
        var k :| 0 <= k < |t| && t[k].0 in DetectorNames;
        assert entries[k + 1] == t[k];
      }
    }
  }

  /** The first unknown name ends the loop with its error. */
  lemma {:induction false} GripsLoopFails(v: GripsVersion, entries: seq<(string, real)>, data: Loader,
                                          layers: seq<Material>, detector: Option<Material>, j: nat)
    requires j < |entries| && entries[j].0 !in GripsDensities && AllKnown(entries[..j])
    ensures GripsLoop(v, entries, data, layers, detector) == Err(UnknownName(v, entries[j].0))
    decreases |entries|
  {
    if j > 0 {
      var t := entries[1..];
      assert t[j - 1] == entries[j];
      assert AllKnown(t[..j - 1]) by {
        AllKnownOfTail(entries[..j]);
        assert t[..j - 1] == entries[..j][1..];
      }
      assert entries[0] == entries[..j][0];
      var mat := KnownMaterial(v, entries[0], data);
      if entries[0].0 in DetectorNames {
        GripsLoopFails(v, t, data, layers, Some(mat), j - 1);
      } else {
        GripsLoopFails(v, t, data, layers + [mat], detector, j - 1);
      }
    }
  }

  /** `GripsStack` builds exactly when every name is known: then its layers are the
      non-detector materials in insertion order and its volume the last detector
      material (none without one); otherwise the first unknown name's error. */
  lemma GripsPartition(v: GripsVersion, entries: seq<(string, real)>, data: Loader)
    ensures MakeGrips(v, entries, data).Ok? <==> AllKnown(entries)
    ensures AllKnown(entries) ==>
      && MakeGrips(v, entries, data).value.layers == KnownMaterials(v, LayerEntries(entries), data)
      && ((forall k :: 0 <= k < |entries| ==> entries[k].0 !in DetectorNames) ==> MakeGrips(v, entries, data).value.volume.None?)
      && (forall j :: LastDetector(entries, j) ==> MakeGrips(v, entries, data).value.volume == Some(KnownMaterial(v, entries[j], data)))
    ensures forall j :: 0 <= j < |entries| && entries[j].0 !in GripsDensities && AllKnown(entries[..j]) ==>
      MakeGrips(v, entries, data) == Err(UnknownName(v, entries[j].0))
  {
    if AllKnown(entries) {
      GripsLoopLayers(v, entries, data, [], None);
      GripsLoopDetector(v, entries, data, [], None);
    } else {
      GripsUnknownFails(v, entries, data);
    }
    GripsFirstUnknown(v, entries, data);
  }

  /** Some unknown name makes the construction fail. */
  lemma GripsUnknownFails(v: GripsVersion, entries: seq<(string, real)>, data: Loader)
    requires !AllKnown(entries)
    ensures MakeGrips(v, entries, data).Err?
  {
    var j :| 0 <= j < |entries| && entries[j].0 !in GripsDensities;
    while j > 0 && !AllKnown(entries[..j])
      invariant 0 <= j < |entries| && entries[j].0 !in GripsDensities
      decreases j
    {
      var k :| 0 <= k < j && entries[..j][k].0 !in GripsDensities;
      j := k;
    }
    GripsLoopFails(v, entries, data, [], None, j);
  }

  /** The first unknown name's error is the construction's. */
  lemma GripsFirstUnknown(v: GripsVersion, entries: seq<(string, real)>, data: Loader)
    ensures forall j :: 0 <= j < |entries| && entries[j].0 !in GripsDensities && AllKnown(entries[..j]) ==>
      MakeGrips(v, entries, data) == Err(UnknownName(v, entries[j].0))
  {
    forall j | 0 <= j < |entries| && entries[j].0 !in GripsDensities && AllKnown(entries[..j])
      ensures MakeGrips(v, entries, data) == Err(UnknownName(v, entries[j].0))
    {
      GripsLoopFails(v, entries, data, [], None, j);
    }
  }

  /** On known names the two versions build the same stack but for the diameter. */
  lemma GripsVersionsAgree(entries: seq<(string, real)>, data: Loader)
    requires AllKnown(entries)
    ensures var a := MakeGrips(WithFallbacks, entries, data);
      var b := MakeGrips(Piggyback, entries, data);
      && a.Ok? && b.Ok? && |a.value.layers| == |b.value.layers|
      && (forall i :: 0 <= i < |a.value.layers| ==> a.value.layers[i].(diameter := 2.0) == b.value.layers[i])
      && a.value.volume.None? == b.value.volume.None?
      && (a.value.volume.Some? ==> a.value.volume.value.(diameter := 2.0) == b.value.volume.value)
  {
    GripsPartition(WithFallbacks, entries, data);
    GripsPartition(Piggyback, entries, data);
    if exists k :: 0 <= k < |entries| && entries[k].0 in DetectorNames {
      var j :| 0 <= j < |entries| && entries[j].0 in DetectorNames;
      while !LastDetector(entries, j)
        invariant 0 <= j < |entries| && entries[j].0 in DetectorNames
        decreases |entries| - j
      {
        var k :| j < k < |entries| && entries[k].0 in DetectorNames;
        j := k;
      }
    }
  }

  /** A GRIPS stack without lyso or gagg never responds: the missing volume is an
      attribute error, if nothing failed before it. */
  lemma GripsWithoutDetector(m: Transcendentals, v: GripsVersion, entries: seq<(string, real)>, data: Loader,
                             inc: VectorStack.Incident, ks: seq<int>, spread: Result<Matrix>, disperse: bool)
    requires spread.Ok? ==> Rectangular(spread.value)
    requires AllKnown(entries) && forall k :: 0 <= k < |entries| ==> entries[k].0 !in DetectorNames
    ensures MakeGrips(v, entries, data).Ok?
    ensures var s := MakeGrips(v, entries, data).value;
      && VectorStack.DetectorResponse(m, s, inc, ks, spread, disperse).Err?
      && (|inc.spectrum.energyEdges| > 0 && VectorStack.MaterialResponse(m, s.layers, inc, ks).Ok? ==>
            VectorStack.DetectorResponse(m, s, inc, ks, spread, disperse) == Err(VectorStack.MissingVolume))
  {
    GripsPartition(v, entries, data);
  }

  // ---------------------------------------------------------------- the older GRIPS module

  /** `MAT_FNS` of the older GRIPS module, in order. */
  const PiggybackNames: seq<string> := ["teflon", "pla", "gagg", "lyso"]

  /** The table of a name nothing looks up: both GRIPS stacks look up a name's
      density first, and the names with a density are the names with a table. */
  const NoTable: Data := Attenuation.AttenuationData([], [], map[])

  /** `MAT_DAT` of the older GRIPS module, read when the module is imported: the
      tables of `MAT_FNS` in order, the first read that fails ending the import. */
  function PiggybackTables(read: Reader): (r: Result<map<string, Data>>)
    ensures r.Err? <==> exists i :: 0 <= i < |PiggybackNames| && read(PiggybackNames[i]).Err?
    ensures r.Err? ==> exists i :: 0 <= i < |PiggybackNames| && read(PiggybackNames[i]) == Err(r.error)
    ensures r.Ok? ==> r.value.Keys == GripsDensities.Keys && forall n :: n in r.value ==> read(n) == Ok(r.value[n])
  {
    match ReadInOrder(PiggybackNames, read)
    case Err(e) => Err(e)
    case Ok(ds) => Ok(map["teflon" := ds[0], "pla" := ds[1], "gagg" := ds[2], "lyso" := ds[3]])
  }

  /** The tables read, as a loader. */
  function TableLoader(tables: map<string, Data>): Loader {
    name => if name in tables then tables[name] else NoTable
  }

  /** `GripsStack(stack_mats)` of the older module as written: importing the module
      reads its tables, whose first failure is the error, and the stack is built on
      the tables read. */
  function PiggybackGrips(entries: seq<(string, real)>, read: Reader): (r: Result<VectorStack.Stack>)
    ensures PiggybackTables(read).Err? ==> r == Err(PiggybackTables(read).error)
    ensures r.Ok? <==> PiggybackTables(read).Ok? && AllKnown(entries)
  {
    match PiggybackTables(read)
    case Err(e) => Err(e)
    case Ok(tables) =>
      GripsPartition(Piggyback, entries, TableLoader(tables));
      MakeGrips(Piggyback, entries, TableLoader(tables))
  }

  /** As written, the older GRIPS module cannot be imported: its first table raises
      AttributeError, whatever stack is asked for. */
  lemma PiggybackAsWrittenRaises(entries: seq<(string, real)>)
    ensures PiggybackGrips(entries, FromNistFile) == Err(NoNistReader)
  {
    NistReadingRaises(PiggybackNames);
  }

  /** With a reader that works, the older GRIPS stack is the one built on the loaded
      tables. */
  lemma PiggybackReadsAsLoaded(entries: seq<(string, real)>, read: Reader, load: Loader)
    requires Reads(read, load)
    ensures PiggybackGrips(entries, read) == MakeGrips(Piggyback, entries, load)
  {
    ReadInOrderReads(PiggybackNames, read, load);
    var tables := PiggybackTables(read).value;
    forall n | n in GripsDensities ensures TableLoader(tables)(n) == load(n) {
      assert read(n) == Ok(tables[n]);
    }
    GripsLoopOnKnownData(Piggyback, entries, TableLoader(tables), load, [], None);
  }

  /** The loop reads the data of known names only. */
  lemma {:induction false} GripsLoopOnKnownData(v: GripsVersion, entries: seq<(string, real)>, d1: Loader, d2: Loader,
                                                layers: seq<Material>, detector: Option<Material>)
    requires forall n :: n in GripsDensities ==> d1(n) == d2(n)
    ensures GripsLoop(v, entries, d1, layers, detector) == GripsLoop(v, entries, d2, layers, detector)
    decreases |entries|
  {
    if entries != [] {
      var h := entries[0];
      if h.0 in GripsDensities {
        assert KnownMaterial(v, h, d1) == KnownMaterial(v, h, d2);
        var mat := KnownMaterial(v, h, d1);
        if h.0 in DetectorNames {
          GripsLoopOnKnownData(v, entries[1..], d1, d2, layers, Some(mat));
        } else {
          GripsLoopOnKnownData(v, entries[1..], d1, d2, layers + [mat], detector);
        }
      }
    }
  }
}
