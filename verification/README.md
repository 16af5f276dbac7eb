# A model of the CubeSat analytical X-ray detector simulator

The simulator predicts what a small solar X-ray detector sees during a flare. An
incident photon spectrum passes through a stack of attenuating layers: aluminium,
Teflon and beryllium windows in front of a CeBr₃ scintillator for HaFX, a Be window
in front of Si or CdTe for the Amptek X-123, and LYSO or GAGG for GRIPS. Each layer
lets through a fraction `exp(-μ(E)·ρ·t)` of the photons for each attenuation
mechanism. The detector then absorbs what reaches it and spreads it in energy with a
Gaussian resolution kernel. Around this engine sit:

- a calibrator that searches for the aluminium thickness bringing the count rate just
  under a dead-time target;
- simulation containers that hold a configured stack, its responses and its
  effective area;
- the preparation of the reference data: decoding NIST XCOM replies, cleaning XCOM
  tables, weighting compounds by mass fraction, and building an atmospheric lookup
  table from an NRLMSIS run;
- flare spectra from GOES classes;
- a text bridge to SSW IDL;
- a layer-by-layer atmospheric attenuator.

The repository holds two generations of the engine:

- The earlier one (`sim_src/`, and the top-level `HafxStack.py`, `PhotonDetector.py`,
  `Sipm3000.py`, `HafxSimulationContainer.py`) works on energy points. Every layer is a
  square diagonal matrix, and the stack is their matrix product. This is modelled in
  `DiagonalMaterial`, `MatrixStack`, `PointFlareSpectrum` and `Container`.
- The later one (`adetsim/`) works on energy bins. Every layer is a vector of
  bin-averaged transmissions. This is modelled in `BinnedMaterial`, `VectorStack`,
  `Instruments`, `FlareSpectrum` and `AdetsimContainer`.

The later code still folds those vectors with `np.matmul` and `np.identity`, as the
matrix code did. The model follows that code as written and keeps the evidently
intended entrywise product beside it (see Findings).

Modelling conventions:

- **Numbers.** Floating-point numbers are Dafny `real`s.
- **Library functions.** `exp`, `log`, `sqrt`, `π` and SciPy's `quad` are fields of
  the `RealMath.Transcendentals` record. The proofs use only the laws stated in
  `RealMath`, such as `exp(0) = 1`, `0 < exp(-x) ≤ 1` for `x ≥ 0`, and `log` and `exp`
  being inverses.
- **Errors.** Every exception the code raises is an `Outcomes.Error` inside a
  `Result`, so the error paths are part of each contract.
- **Dictionaries.** Python dictionaries are sequences of items in insertion order
  (`Dicts`).
- **Text.** Strings are ASCII `seq<char>`.
- **Code the model cannot see.** Downloads, the NRLMSIS run, IDL's output, the
  detector forward model inside the calibrator, and file contents are all parameters.
- **Loops that need not end.** These carry an explicit fuel bound.

The general description of the system treats each layer as a linear operator and the
stack as their composition. Where the `adetsim` code does something else, namely the
vector `matmul`, the broadcast `ident - vec`, and the `.energies` attribute its
spectrum class lacks, the model follows the code.

## Model

| member | source | states |
|---|---|---|
| Calibrator.CountEdge | cebr3-scripts/find_attenuator_thicknesses.py:23-31 | raises (with that script's ValueError message) exactly when the step is zero; otherwise it is true iff a thickening step sees a rate below target or a thinning step a rate above it |
| Calibrator.AcceptedIsJustBelow | cebr3-scripts/find_attenuator_thicknesses.py:59-61 | for a positive target, `0 < 1 - counts/target < TOL` holds iff the rate is strictly below target and short of it by less than TOL times the target |
| Calibrator.Start | cebr3-scripts/find_attenuator_thicknesses.py:40-41 | the search starts at the given thickness with no divisions and a step of minus half of it (minus a tenth in single_detector_sim.py) |
| Calibrator.Advance | cebr3-scripts/find_attenuator_thicknesses.py:53-58 | raises iff the step is zero; at an edge the step is divided by -2 (-10 for the single-detector search) and divs rises by exactly one, otherwise both are unchanged; the new thickness minus the new step is the thickness just evaluated |
| Calibrator.Search | cebr3-scripts/find_attenuator_thicknesses.py:45-61 | a finished loop either accepted or fails `divs < MAX_DIVS and thickness > floor`; divs never pass MAX_DIVS; thickness minus step is the last thickness evaluated, which was above the floor; an accepted stop had its evaluated rate within tolerance below target |
| Calibrator.StepShrinks | cebr3-scripts/find_attenuator_thicknesses.py:53-56 | only edges change the step: the final step times the divisor to the power of the divisions made is the starting step |
| Calibrator.Report | cebr3-scripts/find_attenuator_thicknesses.py:63-70 | the halving searches report thickness minus step, cut to exactly 0 below 1e-6 cm, so 0 or at least 1e-6; the single-detector search (single_detector_sim.py:121-128) reports exactly 0 from a negative thickness and thickness minus step otherwise |
| Calibrator.Calibrate | cebr3-scripts/find_attenuator_thicknesses.py:34-70 | a finished calibration used at most MAX_DIVS divisions (32, 16 or 8) and reports a thickness that is never negative, and for the halving searches 0 or at least 1e-6 cm |
| Calibrator.CalibrateReportsLastEvaluated | cebr3-scripts/find_attenuator_thicknesses.py:58-70 | the reported thickness is the last one evaluated (cut to 0 below 1e-6 cm, or 0 after the single-detector search went negative), and an accepted result had its rate within tolerance below target |
| Calibrator.HalvingFromZeroFails | cebr3-scripts/find_attenuator_thicknesses.py:40-53 | a halving search from zero thickness has a zero step, so `count_edge` raises once the rate is known |
| Calibrator.TenfoldFromNothingFails | single_detector_sim.py:105-129 | from a thickness that is not positive the single-detector loop never runs, and saving the arrays it never made raises NameError |
| Calibrator.FirstAcceptedStops | cebr3-scripts/find_attenuator_thicknesses.py:53-61 | a first evaluation within tolerance below target ends the loop at once, accepted, with that thickness as the last evaluated |
| Calibrator.TargetRatePositive | single_detector_sim.py:73-76 | `-ln(0.95) / dead_time` is positive for a positive dead time and falls as the dead time grows |
| Calibrator.BinnedCounts | cebr3-scripts/find_attenuator_thicknesses.py:47-50 | the rate is `SINGLE_DET_AREA` times the bin widths dotted with the dispersed response applied to the flare; a response that does not fit the flare raises NumPy's core-dimension error |
| Calibrator.WholeRangeRate | find_attenuator_thicknesses.py:41-47 | the mask `eng > -1` keeps every (non-negative) energy, so the trapezoid rule runs over the whole dispersed spectrum |
| Calibrator.SingleDetectorRateWindow | single_detector_sim.py:95-110 | the rate is the trapezoid rule over exactly the energies strictly between 8 and 100 keV, scaled by `FULL_AREA / 4` |
| Calibrator.RelevantToSims | single_detector_sim.py:31-41 | only the outermost material's thickness changes; the result holds the undispersed response of the new stack, the effective area `FULL_AREA / 4` times each row sum, and the dispersed response; an empty stack raises IndexError |
| Container.SetAlThick | HafxSimulationContainer.py:70-73 | the container's thickness and the outermost material's thickness change together and nothing else changes |
| Container.New | HafxSimulationContainer.py:60-64 | the thickness is written through to the outermost material (IndexError without one) and no matrix is computed yet |
| Container.GoesClass | HafxSimulationContainer.py:75-77 | the class of the stored spectrum; AttributeError when there is none |
| Container.MatMulStored | HafxSimulationContainer.py:84-97 | a missing matrix gives NumPy's too-few-dimensions error, a width that does not fit the vector the core-dimension error, and otherwise the matrix-vector product |
| Container.RelevantRate | HafxSimulationContainer.py:81-90 | the rate compared with the threshold is the trapezoid rule over the energies in [1, 300] keV of the dispersed flare times `SINGLE_DET_AREA` |
| Container.ComputeEffectiveArea | HafxSimulationContainer.py:79-98 | a positive threshold exceeded by the in-window rate gives one zero per energy; otherwise the pure response times `SINGLE_DET_AREA` at every energy; without a spectrum AttributeError |
| Container.QuietFlareKeepsArea | HafxSimulationContainer.py:93-98 | a rate at or below the threshold gives the same area as no threshold at all |
| Container.EffectiveAreaIsWeightedRowSum | HafxSimulationContainer.py:96-98 | below the threshold the area at each energy is `SINGLE_DET_AREA` times the row sum of the pure response |
| Container.Simulate | HafxSimulationContainer.py:100-112 | refuses without a thickness; stores the pure response of all mechanisms without dispersion, then the dispersed one; a failed dispersion leaves the pure response stored; the stack, thickness and spectrum never change |
| Container.SimulatedAreaIsAbsorbedTransmission | HafxSimulationContainer.py:96-112 | after `simulate` the effective area at each energy is `SINGLE_DET_AREA` times the fraction transmitted by every material and then absorbed by the scintillator |
| Container.AreaOfDiagonalPure | HafxSimulationContainer.py:96-98 | for a diagonal pure response the area at each energy is `SINGLE_DET_AREA` times the diagonal entry |
| Container.GenFileName | HafxSimulationContainer.py:114-116 | the name is prefix (or `no_prefix`), class (or `no_goes`), formatted thickness and `cm_hafx`, joined by `_`; no spectrum gives AttributeError and no thickness TypeError |
| Container.SaveWith | HafxSimulationContainer.py:118-131 | the as-written guard never refuses; past the guards the save reads the spectrum's `thermal`, which this spectrum does not keep, so no file is ever written |
| Container.SavedClass | HafxSimulationContainer.py:36-41 | the saved class when there is one, otherwise the third-last `_`-separated part of the file name |
| Container.SavedSpectrum | HafxSimulationContainer.py:43-53 | a remade spectrum uses `min(e)`, `max(e)` and `e[1] - e[0]` (ValueError for no energies, IndexError for one); otherwise the saved parts are summed |
| Container.FromSavedFile | HafxSimulationContainer.py:32-58 | a loaded container is valid, has the saved thickness and exactly the saved matrices, and the spectrum built from the saved class or the file name |
| Container.ClassFallbackRecovers | HafxSimulationContainer.py:36-41 | a file saved without its class is read back with the class its name was generated from, whatever the directory, prefix, thickness and extension |
| AdetsimContainer.SetAlThick | adetsim/hafx_src/HafxSimulationContainer.py:73-76 | the container's thickness and the outermost material's thickness change together; nothing else changes |
| AdetsimContainer.SetAlThickTwice | adetsim/hafx_src/HafxSimulationContainer.py:73-76 | setting the thickness twice is the same as setting it once to the second value |
| AdetsimContainer.New | adetsim/hafx_src/HafxSimulationContainer.py:63-67 | `HafxStack()` reads its tables first: the constructor fails exactly when the stack's reading fails, with that error; otherwise a valid container holding the given thickness and spectrum, the scintillator on and no matrices |
| AdetsimContainer.NewLoaded | adetsim/hafx_src/HafxSimulationContainer.py:63-67 | on the tables a working reader gives: a valid container with the given thickness and spectrum, no matrices, and behind the outermost layer the fresh HaFX stack |
| AdetsimContainer.NewAsWrittenRaises | adetsim/hafx_src/HafxSimulationContainer.py:64 | as written no container can be made: `HafxStack()` raises AttributeError at `from_nist_file` |
| AdetsimContainer.NewReadsAsLoaded | adetsim/hafx_src/HafxSimulationContainer.py:63-67 | with a reader that works, the constructor gives the container built on the loaded tables |
| AdetsimContainer.GoesClass | adetsim/hafx_src/HafxSimulationContainer.py:78-80 | the class of the stored spectrum; AttributeError when there is none |
| AdetsimContainer.MatMulStored | adetsim/hafx_src/HafxSimulationContainer.py:88-101 | a missing stored matrix gives NumPy's too-few-dimensions error; otherwise NumPy's matmul of the stored array and the vector |
| AdetsimContainer.RelevantRate | adetsim/hafx_src/HafxSimulationContainer.py:84-94 | an unbuildable flare raises first, and a missing dispersed matrix gives the too-few-dimensions error |
| AdetsimContainer.RelevantRateOfWindow | adetsim/hafx_src/HafxSimulationContainer.py:85-94 | with every edge in [1, 300] keV the rate is the bin widths dotted with the dispersed flare scaled by `SINGLE_DET_AREA` |
| AdetsimContainer.RelevantRateNeedsLastEdge | adetsim/hafx_src/HafxSimulationContainer.py:93-94 | when the last edge is above the window and at least three edges lie in it, `restrict[:-1]` keeps one bin more than there are widths and NumPy cannot broadcast |
| AdetsimContainer.ComputeEffectiveArea | adetsim/hafx_src/HafxSimulationContainer.py:82-102 | the other spectrum is used when given; a positive threshold exceeded gives one zero per bin; otherwise the pure response times `SINGLE_DET_AREA` at every energy; with no spectrum at all AttributeError |
| AdetsimContainer.EffectiveAreaIsWeightedRowSum | adetsim/hafx_src/HafxSimulationContainer.py:100-102 | below the threshold the area at each energy is `SINGLE_DET_AREA` times the row sum of the pure response |
| AdetsimContainer.Simulate | adetsim/hafx_src/HafxSimulationContainer.py:104-117 | refuses without a thickness; otherwise the stack reads `energies`, which this spectrum class lacks, so the call always raises and no matrix is stored |
| AdetsimContainer.GenFileName | adetsim/hafx_src/HafxSimulationContainer.py:119-121 | prefix (or `no_prefix`), class (or `no_goes`), formatted thickness and `cm_hafx`; no spectrum gives AttributeError and no thickness TypeError |
| AdetsimContainer.SaveWith | adetsim/hafx_src/HafxSimulationContainer.py:123-143 | a save writes the class, thickness, both spectrum parts, the edges and both matrices under the generated name; the intended guard refuses missing matrices, and a missing spectrum is refused |
| AdetsimContainer.SaveToFile | adetsim/hafx_src/HafxSimulationContainer.py:127-143 | as written only a missing spectrum or thickness stops the save; the matrices are written as they are, None included |
| AdetsimContainer.SaveToFileCorrected | adetsim/hafx_src/HafxSimulationContainer.py:127-128 | with the intended guard a save succeeds iff both matrices, the spectrum and the thickness are present, and then both saved matrices are present |
| AdetsimContainer.UnsimulatedIsSaved | adetsim/hafx_src/HafxSimulationContainer.py:127-128 | a container that never simulated is saved as written with its missing matrices, where the intended guard refuses it |
| AdetsimContainer.FromSavedFile | adetsim/hafx_src/HafxSimulationContainer.py:37-61 | a missing class raises KeyError; a loaded container is valid, has the saved thickness and the saved matrices, and without remaking holds the saved spectrum |
| AdetsimContainer.FromSavedFileAsWrittenRaises | adetsim/hafx_src/HafxSimulationContainer.py:37-61 | as written loading always fails: KeyError without a class, the rebuilt spectrum's error when remaking fails, and otherwise the AttributeError of the stack's first table |
| AdetsimContainer.FromSavedFileReads | adetsim/hafx_src/HafxSimulationContainer.py:37-61 | with a working reader and without remaking, loading gives the container on the loaded tables with the saved thickness, spectrum and matrices |
| AdetsimContainer.SaveLoadRoundTrip | adetsim/hafx_src/HafxSimulationContainer.py:37-143 | with a working reader, saving a container with a thickness and a spectrum and loading it back without remaking restores the container |
| AdetsimContainer.SaveLoadAsWritten | adetsim/hafx_src/HafxSimulationContainer.py:37-143 | as written the round trip cannot close: the file is written, and loading it back raises AttributeError |
| ContainerFiles.NoMatrices | adetsim/hafx_src/HafxSimulationContainer.py:66 | a fresh container holds neither matrix |
| ContainerFiles.SaveGuardNeverFires | adetsim/hafx_src/HafxSimulationContainer.py:127-128 | `None in self.matrices` looks among the two key strings and is never true, even before `simulate` |
| ContainerFiles.SaveGuardRefusesUncomputed | adetsim/hafx_src/HafxSimulationContainer.py:127-128 | the intended guard refuses exactly when a matrix is missing, so a fresh container is refused |
| ContainerFiles.ClassFromFileName | HafxSimulationContainer.py:41 | fails with IndexError iff the name has fewer than three `_`-separated parts; the part read has no `_` |
| ContainerFiles.SplitOfFileName | HafxSimulationContainer.py:114-116 | a generated name splits at `_` into the prefix parts, the class, the thickness with `cm`, and `hafx` |
| ContainerFiles.FileNameRoundTrip | HafxSimulationContainer.py:36-41 | the class read back from a generated name, wherever the file is and whatever its extension, is the class it was made from (`goes` for the `no_goes` placeholder) |
| Dispersion.MakeLinear | adetsim/hafx_src/LinearInterpolateDisperseDetector.py:6-9 | building the line divides by zero iff the two calibration energies are equal |
| Dispersion.LinearThroughPoints | adetsim/hafx_src/LinearInterpolateDisperseDetector.py:6-13 | the resolution line passes through both calibration points |
| Dispersion.MakeFixed | adetsim/hafx_src/FixedEnergyResolutionDetector.py:8-14 | the constructor's argument is ignored: every fixed detector resolves with the class's 0.03 |
| Dispersion.SipmLines | Sipm3000.py:9-16 | the top-level SiPM's class-constant line is the same as the one `adetsim/hafx_src/Sipm3000.py` builds through (20, 0.4) and (667, 0.045), and its fractional resolution falls with energy |
| Dispersion.IndexFwhm | adetsim/hafx_src/LinearInterpolateDisperseDetector.py:16-19 | each index-space FWHM times the first energy step is the resolution at that energy times the energy |
| Dispersion.Sigmas | adetsim/hafx_src/LinearInterpolateDisperseDetector.py:28 | each width times `2·sqrt(2·ln 2)` is the FWHM |
| Dispersion.ExponentShape | adetsim/hafx_src/LinearInterpolateDisperseDetector.py:31 | the Gaussian exponent is at most zero, even in the offset, and zero at offset zero |
| Dispersion.GaussianGrid | adetsim/hafx_src/LinearInterpolateDisperseDetector.py:27-32 | `gaussian_row` on an index matrix has one row per index row and one column per width |
| Dispersion.KernelIsBroadcast | adetsim/hafx_src/LinearInterpolateDisperseDetector.py:21-32 | the column-width kernel, entry (r, c) the normal density at offset c - r with column c's width, is `gaussian_row` broadcast over the tiled row indices |
| Dispersion.GaussianShape | adetsim/hafx_src/LinearInterpolateDisperseDetector.py:27-32 | the density is positive, even in the offset and largest at offset zero |
| Dispersion.KernelShape | adetsim/hafx_src/LinearInterpolateDisperseDetector.py:21-32 | every entry is positive and at most its column's diagonal entry, and each column is symmetric about the diagonal |
| Dispersion.ResolutionKernel | adetsim/hafx_src/LinearInterpolateDisperseDetector.py:15-24 | the base class raises NotImplementedError; the other detectors give a square kernel, and raise IndexError iff there are fewer than two energies; the row-by-row SiPM gives its constant-width kernel |
| Dispersion.TiledIndices | adetsim/hafx_src/LinearInterpolateDisperseDetector.py:22-23 | `np.tile(np.arange(dim), (dim, 1)).transpose()` holds r everywhere in row r |
| Dispersion.BellRows | PhotonDetector.py:16-21 | row i of the row-by-row kernel is the bell at offset c - i with the width scaled by the dimension |
| Dispersion.RowByRowIsBroadcast | PhotonDetector.py:17-29 | building the kernel row by row gives the same matrix as one broadcast call on the tiled indices |
| Dispersion.RowKernel | PhotonDetector.py:12-21 | every entry of the row-by-row SiPM kernel is the bell at offset c - r with the one width `dim · 2·sqrt(2·ln 2) · 0.4` |
| Dispersion.BellShape | PhotonDetector.py:23-29 | the bell without prefactor lies in (0, 1], is even in the offset and is 1 at offset zero |
| Dispersion.RowKernelShape | PhotonDetector.py:12-29 | the row-by-row kernel is symmetric, has 1 on the diagonal and entries in (0, 1] |
| FlareSpectrum.GoesClassLookupOutcomes | adetsim/sim_src/FlareSpectrum.py:19-21 | the lookup succeeds iff the upper-cased first letter is a known class and the rest parses; an empty string raises IndexError, a bad multiplier ValueError, and an unknown letter KeyError, in that order |
| FlareSpectrum.GoesClassOfDigits | adetsim/sim_src/FlareSpectrum.py:8-21 | a known letter in either case followed by digits gives the letter's flux times the number |
| FlareSpectrum.GoesClassCaseInsensitive | adetsim/sim_src/FlareSpectrum.py:20 | the class letter is case-insensitive |
| FlareSpectrum.BattagliaParameters | adetsim/sim_src/FlareSpectrum.py:88-100 | the reference energy is 35 keV |
| FlareSpectrum.SpectralIndexSwitch | adetsim/sim_src/FlareSpectrum.py:97-100 | the index carries coefficient 2.04 exactly for flares fainter than C2, and 3.60 otherwise |
| FlareSpectrum.VthParamsRecover | adetsim/sim_src/FlareSpectrum.py:102-110 | the converted temperature and emission measure determine the originals (factors `K_B · 1e6` and `1e49`) |
| FlareSpectrum.PowerLawIntegralLogBranch | adetsim/sim_src/FlareSpectrum.py:24-32 | for index 1 the integral is `norm · norm_energy` times the logarithm of the scaled energy |
| FlareSpectrum.PowerLawIntegralPowerBranch | adetsim/sim_src/FlareSpectrum.py:24-33 | for any other index the integral is `norm · norm_energy / (1 - index)` times the scaled energy to the power `1 - index` |
| FlareSpectrum.PowerLawIntegralFlat | adetsim/sim_src/FlareSpectrum.py:24-33 | a flat law integrates to `norm · E` |
| FlareSpectrum.AtMost | adetsim/sim_src/FlareSpectrum.py:45-46 | `edges[edges <= break]` keeps only edges at most the break |
| FlareSpectrum.Above | adetsim/sim_src/FlareSpectrum.py:45-47 | `edges[~cnd]` keeps only edges above the break |
| FlareSpectrum.SplitSizes | adetsim/sim_src/FlareSpectrum.py:45-47 | every edge lands in exactly one of the two parts |
| FlareSpectrum.SplitOfIncreasing | adetsim/sim_src/FlareSpectrum.py:45-47 | for increasing edges the two parts are a prefix and the complementary suffix |
| FlareSpectrum.Twixt | adetsim/sim_src/FlareSpectrum.py:68-76 | there is a straddling bin iff both parts are non-empty |
| FlareSpectrum.BinnedFluxWith | adetsim/sim_src/FlareSpectrum.py:36-81 | a zero break energy raises ZeroDivisionError; otherwise the size assertion fails (AssertionError) iff there are no edges, and there is one value per bin |
| FlareSpectrum.BinnedFluxAsWritten | adetsim/sim_src/FlareSpectrum.py:36-81 | as written: ZeroDivisionError for a zero break energy, else one value per bin for any non-empty edges |
| FlareSpectrum.BinnedFlux | adetsim/sim_src/FlareSpectrum.py:36-81 | corrected: ZeroDivisionError for a zero break energy, else one value per bin for any non-empty edges |
| FlareSpectrum.PortionsTotal | adetsim/sim_src/FlareSpectrum.py:62-78 | the intended lower, straddling and upper portions add up to the broken law's antiderivative across the edges |
| FlareSpectrum.BinIntegralsTotal | adetsim/sim_src/FlareSpectrum.py:45-78 | the intended bin integrals add up to the antiderivative's increase from the first to the last edge, across the break |
| FlareSpectrum.BinnedFluxTimesWidths | adetsim/sim_src/FlareSpectrum.py:78-81 | the binned flux weighted by the bin widths integrates the broken law over the whole edge range |
| FlareSpectrum.StraddleCounterexample | adetsim/sim_src/FlareSpectrum.py:70-76 | for a flat law below a break at 1 keV and a 1/E law above, the bin from e⁻¹ to e keV is given e by the source, where the law integrates to 2 - e⁻¹ |
| FlareSpectrum.ThermalEdges | adetsim/sim_src/FlareSpectrum.py:131-133 | the thermal edges are those strictly between 1.001 and 200.15 keV |
| FlareSpectrum.ThermalPartition | adetsim/sim_src/FlareSpectrum.py:131-142 | the edges below, inside and above the thermal window partition the edges |
| FlareSpectrum.PadThermal | adetsim/sim_src/FlareSpectrum.py:141-150 | the padded thermal part has one zero per edge outside the window plus the thermal values |
| FlareSpectrum.PaddedThermalSize | adetsim/sim_src/FlareSpectrum.py:135-150 | a binned thermal model on the window edges, once padded, has one value per bin of the full edges |
| FlareSpectrum.BroadcastAdd | adetsim/sim_src/FlareSpectrum.py:180-186 | `thermal + nonthermal` succeeds iff the lengths agree or one is 1, and adds entrywise for equal lengths |
| FlareSpectrum.Flare | adetsim/sim_src/FlareSpectrum.py:180-186 | the flare is recomputed on access and is the entrywise sum of parts of one length |
| FlareSpectrum.MakeWithBattagliaScaling | adetsim/sim_src/FlareSpectrum.py:122-166 | succeeds iff the class is known, the break energy is not zero and there are edges; a known class with a zero break energy raises ZeroDivisionError; the spectrum keeps the class and the edges |
| FlareSpectrum.GoesFlux | adetsim/sim_src/FlareSpectrum.py:176-178 | the flux of the class: the letter's W/m² times the parsed multiplier, IndexError for an empty class, and a flux exactly when the letter is known and the multiplier parses |
| FlareSpectrum.MadeFlareIsSum | adetsim/sim_src/FlareSpectrum.py:122-186 | with some edge in the thermal window, both parts of a made spectrum have one value per bin and its flare is their sum |
| PointFlareSpectrum.PrefixIsRestriction | sim_src/FlareSpectrum.py:4-8 | this prefix table is the binned one restricted to C, M and X |
| PointFlareSpectrum.LookupAgrees | sim_src/FlareSpectrum.py:10-12 | wherever this lookup succeeds the binned one agrees; they differ only on A and B classes with a parsable multiplier, which raise KeyError here |
| PointFlareSpectrum.BattagliaAgrees | sim_src/FlareSpectrum.py:18-30 | the subtracted, sign-flipped temperature term gives the same parameters as the binned version |
| PointFlareSpectrum.MakeSpectrum | sim_src/FlareSpectrum.py:63-67 | the constructor sums the parts at once, raising ValueError iff they do not broadcast |
| PointFlareSpectrum.Dummy | sim_src/FlareSpectrum.py:59-61 | a dummy keeps the energies and has a flare of zeros |
| PointFlareSpectrum.DummyHasNoFlux | sim_src/FlareSpectrum.py:59-71 | a dummy has no class letter, so its flux raises IndexError |
| PointFlareSpectrum.GoesFlux | sim_src/FlareSpectrum.py:69-71 | the flux of the class: only C, M and X have one, it is the letter's W/m² times the multiplier, and it agrees with the binned spectrum's |
| PointFlareSpectrum.MakeWithBattagliaScaling | sim_src/FlareSpectrum.py:45-57 | a bad class fails first; a made spectrum keeps the class and the energies |
| PointFlareSpectrum.MadeFlareIsSum | sim_src/FlareSpectrum.py:45-57 | the flare is the thermal part plus the power law pivoting at 35 keV, which adds the reference flux at 35 keV |
| AtmosphereTable.Total | adetsim/atmoatt/atmospheric_lookup_table.py:62 | `np.sum` is NaN as soon as one entry is, and otherwise the real sum of the entries |
| AtmosphereTable.ColumnNames | adetsim/atmoatt/atmospheric_lookup_table.py:19-21 | the seven density and abundance column names are `N2`, `O2`, `O`, `He`, `H`, `Ar`, `N` with `den` or `abund`, and removing `den` and appending `abund` turns each density name into its abundance name |
| AtmosphereTable.MsisColumnKinds | adetsim/atmoatt/atmospheric_lookup_table.py:29-47 | of the eleven run columns the mass density and the temperature do not end in `den`; the other nine do, seven of them the accepted species and two (anomalous oxygen, NO) not |
| AtmosphereTable.ZeroNaN | adetsim/atmoatt/atmospheric_lookup_table.py:96 | every NaN becomes 0 and every other value is kept, so the result is all real |
| AtmosphereTable.FromMsis | adetsim/atmoatt/atmospheric_lookup_table.py:24-49 | a run output without eleven values per row raises QTable's names-and-dtype ValueError; otherwise the table has exactly the run's eleven columns, each the converted column of the output |
| AtmosphereTable.FromMsisUnits | adetsim/atmoatt/atmospheric_lookup_table.py:44-47 | the mass density is scaled by 10⁻³ (kg/m³ to g/cm³), every `...den` column by 10⁻⁶ (m⁻³ to cm⁻³), and the temperature is kept |
| AtmosphereTable.Filter | adetsim/atmoatt/atmospheric_lookup_table.py:101-104 | a column survives iff it is not a `...den` column outside `DENSITY_COLS` |
| AtmosphereTable.IndexOf | adetsim/atmoatt/atmospheric_lookup_table.py:58 | `list.index` gives the first position of the name, or ValueError iff it is absent |
| AtmosphereTable.FirstMissing | adetsim/atmoatt/atmospheric_lookup_table.py:58 | none is missing iff every wanted name is present; a reported one is wanted and absent |
| AtmosphereTable.SharesSumToOne | adetsim/atmoatt/atmospheric_lookup_table.py:61-63 | for non-negative densities of positive total each share lies in [0, 1] and the shares sum to one; a zero total makes every share NaN |
| AtmosphereTable.ComputeAbundances | adetsim/atmoatt/atmospheric_lookup_table.py:52-64 | fails with the first absent density column's ValueError, and fails iff a density column is absent or an abundance column already exists |
| AtmosphereTable.KeptAt | adetsim/atmoatt/atmospheric_lookup_table.py:58-64 | inserting the abundances keeps every original column, in its original order |
| AtmosphereTable.AbundanceAt | adetsim/atmoatt/atmospheric_lookup_table.py:58-64 | the first occurrence of each density column is followed directly by its abundance column, holding that species' share of the summed densities at every altitude |
| AtmosphereTable.InterleaveMembers | adetsim/atmoatt/atmospheric_lookup_table.py:64 | the insertion adds nothing but abundance columns |
| AtmosphereTable.Arange | adetsim/atmoatt/atmospheric_lookup_table.py:82-86 | `np.arange` fails iff the step is zero, and otherwise has `ceil((stop - start) / step)` values (none if that is not positive), the i-th being start plus i steps |
| AtmosphereTable.ArangeStopsBefore | adetsim/atmoatt/atmospheric_lookup_table.py:82-86 | with a positive step the grid starts at the start, stays below the stop, and one more step would reach it |
| AtmosphereTable.CompileTable | adetsim/atmoatt/atmospheric_lookup_table.py:67-108 | compiling fails, with QTable's names-and-dtype error, iff the run output does not have eleven values per altitude |
| AtmosphereTable.CompiledTable | adetsim/atmoatt/atmospheric_lookup_table.py:95-106 | for a well-shaped run the table compiles, the anomalous-oxygen and NO density columns are gone, and each accepted density column is directly followed by its abundance column |
| AtmosphereTable.Prepared | adetsim/atmoatt/atmospheric_lookup_table.py:98-106 | after the altitude column is added and the filter runs, every accepted density column is present and no abundance column yet, so the abundances can be computed |
| AtmosphereTable.AltitudeAppended | adetsim/atmoatt/atmospheric_lookup_table.py:98 | the run has no altitude column, so assigning it appends one at the end |
| AtmosphericAttenuator.RowIndex | adetsim/atmoatt/atmospheric_attenuator.py:131-141 | the row found is the first whose altitude is nearest the one asked for; an empty altitude column has no minimum (ValueError) and a NaN altitude matches nothing (IndexError) |
| AtmosphericAttenuator.FirstNearestUnique | adetsim/atmoatt/atmospheric_attenuator.py:138-139 | `np.where(diffs == diffs.min())[0][0]` names a single row |
| AtmosphericAttenuator.NearestOfPresent | adetsim/atmoatt/atmospheric_attenuator.py:134-141 | an altitude present in the table is found exactly, at its first occurrence |
| AtmosphericAttenuator.ParseColumn | adetsim/atmoatt/atmospheric_attenuator.py:157-162 | removing `abund` leaves the element name followed by its atom count when the last character is a digit, and a count of one otherwise; an empty remainder raises IndexError |
| AtmosphericAttenuator.Accumulate | adetsim/atmoatt/atmospheric_attenuator.py:153-167 | the first loop fails with IndexError iff some column name leaves no element name |
| AtmosphericAttenuator.AccumulateContributions | adetsim/atmoatt/atmospheric_attenuator.py:155-167 | the composition has one entry per element named in the row, holding the summed atom counts times abundances of that element's columns |
| AtmosphericAttenuator.NonZero | adetsim/atmoatt/atmospheric_attenuator.py:171-173 | an entry is kept iff its abundance is not zero (NaN is kept) |
| AtmosphericAttenuator.TotalOfNonZero | adetsim/atmoatt/atmospheric_attenuator.py:169-173 | dropping zero entries does not change the total the kept ones are divided by |
| AtmosphericAttenuator.Normalize | adetsim/atmoatt/atmospheric_attenuator.py:169-175 | the normalised composition has exactly the elements of non-zero abundance |
| AtmosphericAttenuator.NormalizedShares | adetsim/atmoatt/atmospheric_attenuator.py:169-175 | each normalised value is its abundance over the total of all |
| AtmosphericAttenuator.NormalizeSumsToOne | adetsim/atmoatt/atmospheric_attenuator.py:144-175 | for real non-negative abundances of positive total the elemental fractions lie in [0, 1] and sum to one, one per element of non-zero abundance |
| AtmosphericAttenuator.Composition | adetsim/atmoatt/atmospheric_attenuator.py:144-175 | `_compute_layer_composition` fails with IndexError iff some column leaves no element name |
| AtmosphericAttenuator.AbundanceColumnsParse | adetsim/atmoatt/atmospheric_attenuator.py:157-162 | of the lookup table's abundance columns, `N2abund` and `O2abund` count two atoms and the rest one |
| AtmosphericAttenuator.StandardComposition | adetsim/atmoatt/atmospheric_attenuator.py:153-167 | a table row composes to nitrogen (twice N₂ plus N), oxygen (twice O₂ plus O), helium, hydrogen and argon, in that order |
| AtmosphericAttenuator.LayerThickness | adetsim/atmoatt/atmospheric_attenuator.py:186 | the layer is the first altitude spacing times the factor, converted from km to cm; fewer than two altitudes raise IndexError |
| AtmosphericAttenuator.LayerThicknessOfGrid | adetsim/atmoatt/atmospheric_attenuator.py:186 | on a table over an evenly spaced grid (atmospheric_lookup_table.py:82-86) every layer is the grid step times the factor thick |
| AtmosphericAttenuator.ThicknessFactor | adetsim/atmoatt/atmospheric_attenuator.py:225-227 | the factor times the altitude range is the slant thickness; equal bounds divide by zero |
| AtmosphericAttenuator.Column | adetsim/atmoatt/atmospheric_attenuator.py:138 | looking a column up gives one of the table's columns of that name, or KeyError iff there is none |
| AtmosphericAttenuator.AbundanceRow | adetsim/atmoatt/atmospheric_attenuator.py:153 | `row[ABUNDANCE_COLS]` succeeds iff every named column has the row, and pairs each name with its value |
| AtmosphericAttenuator.ConstructLayer | adetsim/atmoatt/atmospheric_attenuator.py:178-199 | no altitude column raises KeyError and an empty one ValueError; a built layer has the first spacing times the factor as thickness and the mass density of the row nearest the altitude |
| AtmosphericAttenuator.Descent | adetsim/atmoatt/atmospheric_attenuator.py:231-257 | the loop visits the maximum first, each later altitude one step below the one before, all at or above the minimum, and stops at the first step that would go below it |
| AtmosphericAttenuator.DescentAt | adetsim/atmoatt/atmospheric_attenuator.py:232-257 | the i-th visited altitude is i steps below the maximum |
| AtmosphericAttenuator.DescentCovers | adetsim/atmoatt/atmospheric_attenuator.py:232-257 | when the step divides the range into n steps there are n + 1 layers, the first at the maximum and the last at the minimum |
| AtmosphericAttenuator.ThroughLayers | adetsim/atmoatt/atmospheric_attenuator.py:232-258 | one output per visited altitude: the first layer attenuates the incident flare and every later one the output of the layer above |
| AtmosphericAttenuator.FirstFailureEndsWalk | adetsim/atmoatt/atmospheric_attenuator.py:232-258 | a walk whose first layer fails ends with that error |
| AtmosphericAttenuator.AttenuateThroughLayers | adetsim/atmoatt/atmospheric_attenuator.py:202-258 | a completed walk has one output per visited altitude |
| AtmosphericAttenuator.LayerAttenuateAsWritten | adetsim/atmoatt/atmospheric_attenuator.py:94-105 | the layer builds a base `DetectorStack`, whose response calls `_generate_attenuation_response_due_to`, a method no class defines (adetsim/sim_src/DetectorStack.py:18-21); so every layer raises AttributeError |
| AtmosphericAttenuator.AsWrittenStopsAtFirstLayer | adetsim/atmoatt/atmospheric_attenuator.py:232-237 | the walk as written never completes: if the first layer can be built, its attenuation raises and ends the walk |
| AtmosphericAttenuator.Transmit | adetsim/atmoatt/atmospheric_attenuator.py:103 | a multiplicative layer scales each bin by its transmission, failing iff the lengths differ |
| AtmosphericAttenuator.CorrectedWalk | adetsim/atmoatt/atmospheric_attenuator.py:232-258 | with multiplicative layers the walk completes, and the output below each layer is the incident flux times the product of the transmissions of every layer down to it |
| Attenuation.NamedCoversAll | adetsim/sim_src/AttenuationData.py:7-20 | exactly the three mechanism codes are named, as photoelectric, rayleigh and compton, each with a different name |
| Attenuation.SearchSortedLeft | adetsim/sim_src/AttenuationData.py:70-73 | the search position that SciPy's `interp1d` starts from: every grid value before it is below x, and the value at it is at least x |
| Attenuation.EvaluateInSegment | adetsim/sim_src/AttenuationData.py:70-73 | between two grid points the linear interpolant is the line through them |
| Attenuation.EvaluateBelow | adetsim/sim_src/AttenuationData.py:72 | `fill_value="extrapolate"` extends the first segment below the grid |
| Attenuation.EvaluateAbove | adetsim/sim_src/AttenuationData.py:72 | `fill_value="extrapolate"` extends the last segment above the grid |
| Attenuation.EvaluateAtGridPoint | adetsim/sim_src/AttenuationData.py:70-73 | the interpolant passes through every tabulated point |
| Attenuation.ReadTable | adetsim/sim_src/AttenuationData.py:43-53 | one element's entry is read iff it has energy, photoelectric, rayleigh and compton keys, and otherwise raises KeyError |
| Attenuation.ReadTables | adetsim/sim_src/AttenuationData.py:43-53 | every element's table is read, or some element's entry raised KeyError |
| Attenuation.InterpError | adetsim/sim_src/AttenuationData.py:70-73 | `interp1d` can be built iff the columns have equal lengths and at least two points |
| Attenuation.FirstInterpError | adetsim/sim_src/AttenuationData.py:62-76 | setting up fails, with a ValueError, iff some element's mechanism column cannot be interpolated |
| Attenuation.FromCoefficients | adetsim/sim_src/AttenuationData.py:39-76 | construction fails iff an element lacks a key or a column cannot be interpolated; otherwise every mechanism has one log-log interpolator per element, in element order, over exactly the tables read |
| Attenuation.SumExp | adetsim/sim_src/AttenuationData.py:82-84 | the sum of exponentiated interpolants over a non-empty set of elements is positive |
| Attenuation.LogInterpolate | adetsim/sim_src/AttenuationData.py:78-85 | an unknown mechanism raises KeyError; otherwise the exponential of the result is the sum over elements of the exponentiated interpolants, and `log(0)` = -inf arises iff there are no elements |
| Attenuation.LogInterpolateOneElement | adetsim/sim_src/AttenuationData.py:78-85 | with a single element the interpolation is that element's own interpolant |
| Attenuation.TableReproduced | adetsim/sim_src/AttenuationData.py:57-85 | a single-element material reproduces its table exactly at the tabulated energies |
| IdlBridge.CmdDoneIdentifierShape | sim_src/sswidl_bridge.py:14 | the delimiter is `*-*` ten times: thirty characters with no newline, so it is one whole output line |
| IdlBridge.PowerLawAtPivot | sim_src/sswidl_bridge.py:16-19 | at the pivot energy the power law gives the reference flux, whatever the index |
| IdlBridge.CommandScriptLines | sim_src/sswidl_bridge.py:41-52 | the text sent to IDL splits back into exactly the five commands (compile the script path, print the delimiter, call the function with the comma-joined arguments, print the delimiter, exit) when no name or argument holds a newline |
| IdlBridge.IndexFrom | sim_src/sswidl_bridge.py:67-68 | `list.index(x, start)` gives the first position at or after start holding x, and raises ValueError iff there is none |
| IdlBridge.Between | sim_src/sswidl_bridge.py:67-69 | the lines sliced out hold no delimiter; a missing delimiter raises `list.index`'s ValueError |
| IdlBridge.ExtractOutput | sim_src/sswidl_bridge.py:61-79 | the output is the non-empty block between the first two delimiter lines; the error is always a ValueError, and it is raised iff a delimiter is missing or the block is empty |
| IdlBridge.BetweenFramed | sim_src/sswidl_bridge.py:67-69 | whatever surrounds a block framed by two delimiter lines, that block is sliced out, as long as neither it nor the text before it holds a delimiter line |
| IdlBridge.ExtractFramed | sim_src/sswidl_bridge.py:65-72 | a framed block comes back when it is non-empty and raises the fixed "Nothing returned" ValueError when it is empty |
| IdlBridge.ParseAll | sim_src/sswidl_bridge.py:88-89 | `float` of every token in order: the result has one value per token, and it fails iff some token does not parse, with that token's error |
| IdlBridge.CleanTableOutput | sim_src/sswidl_bridge.py:88-89 | the table has one value per whitespace-separated token of every line, and a bad token raises ValueError |
| IdlBridge.CleanTableOfConcat | sim_src/sswidl_bridge.py:88-89 | the table flattens line after line: reading two blocks together gives the first's values and then the second's |
| IdlBridge.CleanTableOfLine | sim_src/sswidl_bridge.py:88-89 | a line of space-separated numerals reads back as those numbers, in order |
| StandaloneIdlBridge.Min | idl-python-bridge/sswidl_bridge.py:30 | `np.min` of a non-empty array is one of its entries and at most every entry |
| StandaloneIdlBridge.Max | idl-python-bridge/sswidl_bridge.py:31 | `np.max` of a non-empty array is one of its entries and at least every entry |
| StandaloneIdlBridge.RoundedStepBounds | idl-python-bridge/sswidl_bridge.py:32-34 | `de - (de % 0.01)` is a whole number of hundredths no more than one hundredth below the raw step |
| StandaloneIdlBridge.RoundedStepOfGrain | idl-python-bridge/sswidl_bridge.py:34 | a step that is already a whole number of hundredths is left alone |
| StandaloneIdlBridge.FVthArguments | idl-python-bridge/sswidl_bridge.py:22-35 | fails iff there are fewer than two energies (no energies: ValueError from `np.min`; one: IndexError); otherwise six arguments, the first two the smallest and largest energy and the last three passed through |
| StandaloneIdlBridge.FVthArgumentsOfAscending | idl-python-bridge/sswidl_bridge.py:30-35 | on an ascending grid the arguments are its first and last energies and its first spacing rounded down to a hundredth |
| StandaloneIdlBridge.CommandScriptLines | idl-python-bridge/sswidl_bridge.py:46-56 | the text sent to IDL is the same five commands, compiling the script by its bare name |
| StandaloneIdlBridge.ExtractOutput | idl-python-bridge/sswidl_bridge.py:65-75 | a missing delimiter re-raises `list.index`'s ValueError |
| StandaloneIdlBridge.ExtractAgrees | idl-python-bridge/sswidl_bridge.py:69-72 | both bridges slice the same block out of the same output; they differ only when the block is empty, which this one returns and the other rejects |
| StandaloneIdlBridge.ExtractFramed | idl-python-bridge/sswidl_bridge.py:69-72 | a framed block comes back whatever its length, empty included |
| StandaloneIdlBridge.FVthScript | idl-python-bridge/sswidl_bridge.py:22-36 | a script is produced iff there are at least two energies |
| StandaloneIdlBridge.FVthResult | idl-python-bridge/sswidl_bridge.py:36-37 | an empty block between the delimiters gives an empty array; every failure is a ValueError |
| StandaloneIdlBridge.FVthResultAgrees | idl-python-bridge/sswidl_bridge.py:36-37 | whenever the other bridge reads a table from the output, this one reads the same table |
| Instruments.ReadInOrder | adetsim/hafx_src/HafxStack.py:17-22 | reading succeeds iff every table reads; it gives the tables in order, and a failure is the error of the first read that fails |
| Instruments.ReadInOrderReads | adetsim/hafx_src/HafxStack.py:17-22 | with a working reader every table is read and is the loaded one |
| Instruments.NistReadingRaises | adetsim/hafx_src/HafxStack.py:20 | `from_nist_file`, which the `adetsim` `AttenuationData` does not define, fails at the first name whatever the names |
| Instruments.HafxMaterial | adetsim/hafx_src/HafxStack.py:17-21 | a HaFX layer has the HaFX diameter, its tabulated density and data, and the argument thickness for aluminium and the tabulated one otherwise |
| Instruments.GenMaterials | adetsim/hafx_src/HafxStack.py:13-22 | one layer per name of the HaFX order, in that order |
| Instruments.MakeHafx | adetsim/hafx_src/HafxStack.py:27-32 | the CeBr3 crystal (0.5 cm, 5.1 g/cm³) is popped off as the scintillator, leaving aluminium of the argument thickness, 0.0127 cm of Teflon and 0.07 cm of beryllium in front of it, dispersed by the SiPM line |
| Instruments.ReadHafx | adetsim/hafx_src/HafxStack.py:13-32 | the stack fails iff some table of the HaFX order fails to read, with that read's error; otherwise a HaFX stack with the requested scintillator switch and three layers in front of the scintillator |
| Instruments.HafxAsWrittenRaises | adetsim/hafx_src/HafxStack.py:20 | as written every HaFX stack raises AttributeError at its first table |
| Instruments.HafxReadsAsLoaded | adetsim/hafx_src/HafxStack.py:13-32 | with a reader that works, the stack is the one built on the loaded tables |
| Instruments.HafxNeverResponds | adetsim/hafx_src/HafxStack.py:34-41 | with three layers in front of the scintillator the adetsim HaFX stack gives no response to any spectrum, with or without scintillator or dispersion |
| Instruments.HafxArea | adetsim/sim_src/DetectorStack.py:38-40 | the HaFX area is that of its aluminium layer, 3.7 cm across |
| Instruments.MakeX123 | adetsim/hafx_src/X123Stack.py:12-31 | one 8 µm beryllium window named `Be` in front of a silicon volume of the given thickness, both `2·sqrt(0.17/π)` cm across, dispersed at the fixed resolution |
| Instruments.ReadX123 | adetsim/hafx_src/X123Stack.py:17-31 | the window's table is read before the silicon's: the stack fails iff either read fails, with the window's error first; otherwise it is the X-123 on the tables read |
| Instruments.X123AsWrittenRaises | adetsim/hafx_src/X123Stack.py:23 | as written every X-123 stack raises AttributeError at its window |
| Instruments.X123ReadsAsLoaded | adetsim/hafx_src/X123Stack.py:17-31 | with a reader that works, the stack is the one built on the loaded tables |
| Instruments.X123Geometry | adetsim/hafx_src/X123Stack.py:14-17 | the default silicon thickness is 0.05 cm and the face is 0.17 cm² |
| Instruments.X123Response | adetsim/hafx_src/X123Stack.py:33-40 | the X-123 responds bin by bin with the window's transmission times the fraction the silicon absorbs photoelectrically, dispersed on request |
| Instruments.MakeX123CdTe | adetsim/hafx_src/X123CdTeStack.py:11-40 | an unnamed 0.01 cm beryllium window in front of 0.1 cm of CdTe, with a resolution line through 0.53 keV at 14.4 keV and 0.85 keV at 122 keV |
| Instruments.ReadX123CdTe | adetsim/hafx_src/X123CdTeStack.py:20-40 | the window's table is read before the CdTe's: the stack fails iff either read fails, with the window's error first; otherwise it is the CdTe stack on the tables read |
| Instruments.X123CdTeAsWrittenRaises | adetsim/hafx_src/X123CdTeStack.py:26 | as written every X-123 CdTe stack raises AttributeError at its window |
| Instruments.X123CdTeReadsAsLoaded | adetsim/hafx_src/X123CdTeStack.py:20-40 | with a reader that works, the stack is the one built on the loaded tables |
| Instruments.X123CdTeIgnoresKeywords | adetsim/hafx_src/X123CdTeStack.py:20 | the constructor's keyword arguments change nothing |
| Instruments.KnownMaterial | grips-piggyback/grips_stack.py:38-44 | a known name becomes a material of the stack's diameter with the given thickness and the name's density and data |
| Instruments.GripsMaterial | projects/grips-piggyback/grips_stack.py:44-50 | a known name gives its material; an unknown one raises KeyError, or, in the newer stack, the failure of its HaFX fallback |
| Instruments.MakeGrips | grips-piggyback/grips_stack.py:31-52 | a GRIPS stack has a detector volume slot and the fixed-resolution detector, which ignores the 0.4 it is given |
| Instruments.LayerEntries | grips-piggyback/grips_stack.py:45-48 | the entries that become layers are entries that do not name lyso or gagg |
| Instruments.GripsLoopLayers | grips-piggyback/grips_stack.py:37-48 | on known names the loop appends the non-detector materials in insertion order |
| Instruments.GripsLoopDetector | grips-piggyback/grips_stack.py:45-49 | on known names the detector is the last lyso or gagg entry, and stays as it was without one |
| Instruments.GripsLoopFails | grips-piggyback/grips_stack.py:37-41 | the first unknown name ends the loop with its error |
| Instruments.GripsPartition | grips-piggyback/grips_stack.py:31-52 | a GRIPS stack builds iff every name is known; its layers are then the non-detector materials in order and its volume the last detector material, or none; otherwise the first unknown name's error |
| Instruments.GripsVersionsAgree | projects/grips-piggyback/grips_stack.py:34-58 | on known names the two stacks are the same but for the diameter (4.52 cm against 2 cm) |
| Instruments.PiggybackTables | grips-piggyback/grips_stack.py:11-21 | importing the module reads the four tables in order: it fails iff a read fails, with that read's error; otherwise the tables are keyed by exactly the names with a density, each the table read for its name |
| Instruments.PiggybackGrips | grips-piggyback/grips_stack.py:18-52 | an import failure is the stack's error; otherwise the stack builds iff every name is known |
| Instruments.PiggybackAsWrittenRaises | grips-piggyback/grips_stack.py:18-21 | as written the module cannot be imported: its first table raises AttributeError, so no stack is ever built |
| Instruments.PiggybackReadsAsLoaded | grips-piggyback/grips_stack.py:18-52 | with a reader that works, the stack is the one built on the loaded tables |
| Instruments.GripsLoopOnKnownData | grips-piggyback/grips_stack.py:37-49 | the loop reads the data of known names only: two loaders that agree on them give the same outcome |
| Instruments.GripsWithoutDetector | grips-piggyback/grips_stack.py:54-62 | a stack without lyso or gagg never responds: the missing detector raises AttributeError when nothing fails before it |
| Masking.Mask | HafxSimulationContainer.py:81-83 | the mask has one entry per value, set exactly when the value lies in the window |
| Masking.Select | HafxSimulationContainer.py:89-90 | `values[mask]` raises IndexError iff the mask has another length, and otherwise keeps the values at the set positions, in order |
| Masking.PickKeepsWindow | HafxSimulationContainer.py:81-90 | the energies selected by a window's mask are exactly the energies in the window |
| Masking.AboveMinusOneKeepsAll | find_attenuator_thicknesses.py:41-47 | on energies that are not negative, `eng > -1` selects every value |
| Masking.WeightedSum | adetsim/hafx_src/HafxSimulationContainer.py:93-94 | summing the widths times the area-scaled dispersed flux gives the area times their dot product |
| Masking.MatrixTimesVector | HafxSimulationContainer.py:85 | `np.matmul` of a matrix and a vector gives the matrix-vector product when the width fits, and the core-dimension ValueError otherwise |
| Masking.TrapzOfConstant | HafxSimulationContainer.py:89-90 | the trapezoid rule integrates a constant exactly: the constant times the span |
| Masking.TrapzCounts | HafxSimulationContainer.py:81-90 | the windowed rate fails in the product on a response of the wrong width and in the selection on one of the wrong height, and is otherwise the trapezoid rule over the energies in the window |
| BinnedMaterial.MakeMaterial | adetsim/sim_src/Material.py:7-14 | `name or "(no name given)"`: a missing or empty name is replaced and any other kept; the other fields are stored as given |
| BinnedMaterial.AreaOfDiameter | adetsim/sim_src/Material.py:16-18 | a diameter of `2·sqrt(A/π)`, as the X-123 stacks size their layers, gives back the face area A |
| BinnedMaterial.Transmission | adetsim/sim_src/Material.py:39-44 | the integrand is `exp(-exp(log_att(ln E))·ρ·t)` at every energy |
| BinnedMaterial.MassAttenuationNonNegative | adetsim/sim_src/Material.py:39-42 | the mass attenuation coefficient, an exponential, is never negative |
| BinnedMaterial.TransmissionIsProbability | adetsim/sim_src/Material.py:41-44 | through a non-negative amount of matter the transmission probability lies in (0, 1], and through none it is 1 |
| BinnedMaterial.BinAverageIsProbability | adetsim/sim_src/Material.py:46-56 | the transmission averaged over a bin by quadrature is a probability |
| BinnedMaterial.BinAverageOfNoThickness | adetsim/sim_src/Material.py:46-56 | a layer of zero thickness transmits every bin completely |
| BinnedMaterial.PhotRay | adetsim/sim_src/Material.py:37-58 | one entry per flare value, the first `len(edges) - 1` being the bin averages (wherever the bin's two edges differ) and the rest zero; a failing flare fails first, an unknown mechanism raises KeyError in the first bin, and more bins than flare values raise IndexError |
| BinnedMaterial.Compton | adetsim/sim_src/Material.py:66-71 | Compton scattering passes every bin unchanged (ones), and with no edges at all `np.ones(-1)` raises ValueError |
| BinnedMaterial.Modifying | adetsim/sim_src/Material.py:29-35 | photoelectric and Rayleigh codes give the bin-averaged transmission, Compton the ones, and any other code KeyError |
| BinnedMaterial.CharacteristicXrays | adetsim/sim_src/Material.py:73-74 | characteristic X-rays always raise NotImplementedError |
| BinnedMaterial.InPlaceMultiply | adetsim/sim_src/Material.py:26 | `vec *= factor` succeeds iff the factor has the vector's length or length one, keeps the vector's length, and multiplies entrywise (broadcasting a single value) |
| BinnedMaterial.OverallResponse | adetsim/sim_src/Material.py:20-27 | with no edges `np.ones(-1)` raises ValueError; otherwise the response has one entry per bin |
| BinnedMaterial.FoldIsProduct | adetsim/sim_src/Material.py:25-26 | multiplying in conformable factors multiplies each entry by the product of the factors at that entry |
| BinnedMaterial.OverallIsProduct | adetsim/sim_src/Material.py:20-27 | the overall response is, bin by bin, the product of the chosen mechanisms' factors |
| BinnedMaterial.OverallCommutes | adetsim/sim_src/Material.py:23-24 | as the source's comment says, the order of the mechanisms does not matter: two groups listed either way round give the same response |
| BinnedMaterial.ComptonIsNeutral | adetsim/sim_src/Material.py:66-71 | listing Compton scattering anywhere leaves the response unchanged |
| BinnedMaterial.OverallOfNothing | adetsim/sim_src/Material.py:21-22 | listing no mechanism gives a response of ones |
| BinnedMaterial.FactorIsProbability | adetsim/sim_src/Material.py:29-71 | every factor with one entry per bin is a probability in every bin, and 1 for a layer of zero thickness |
| BinnedMaterial.OverallIsProbability | adetsim/sim_src/Material.py:20-71 | through matter of non-negative density and thickness, on increasing edges, every bin of the response is a probability, and a layer of zero thickness transmits everything |
| DiagonalMaterial.PhotRay | sim_src/Material.py:34-39 | the diagonal matrix of transmission probabilities `exp(-μ·ρ·t)` of the interpolated coefficients; a mechanism without coefficients raises KeyError |
| DiagonalMaterial.Modifying | sim_src/Material.py:26-32 | Compton scattering is the identity, an unknown code raises KeyError, and every factor is a rectangular matrix |
| DiagonalMaterial.ModifyingIsDiag | sim_src/Material.py:26-52 | every factor of a known mechanism is `np.diag` of its transmission vector (ones for Compton) |
| DiagonalMaterial.MatMulChecked | sim_src/Material.py:23 | `np.matmul` succeeds iff the inner dimensions agree, giving a matrix of the outer dimensions |
| DiagonalMaterial.OverallResponse | sim_src/Material.py:17-24 | listing no mechanism gives the identity |
| DiagonalMaterial.FoldOfDiags | sim_src/Material.py:22-23 | multiplying diagonal factors into a diagonal matrix stays diagonal and multiplies each diagonal entry by the factors' entries |
| DiagonalMaterial.OverallIsDiagonal | sim_src/Material.py:17-24 | for known mechanisms the response is the diagonal matrix of the products, energy by energy, of their transmission probabilities |
| DiagonalMaterial.OverallOfUnknownFirst | sim_src/Material.py:26-32 | an unknown mechanism listed first fails the whole response with KeyError |
| DiagonalMaterial.EntryProductIsProbability | sim_src/Material.py:34-39 | with non-negative coefficients, density and thickness every diagonal entry is a probability, and 1 through zero thickness |
| DiagonalMaterial.NoThicknessIsIdentity | sim_src/Material.py:17-39 | a layer of zero thickness leaves the spectrum alone: its response is the identity |
| MaterialManager.FetchElement | adetsim/sim_src/material_manager.py:18-24 | the name is title-cased; a name outside the element table raises "no data is available" before any download, and a known one gives that element's data |
| MaterialManager.FetchIgnoresCase | adetsim/sim_src/material_manager.py:19 | the case of the name given does not matter |
| MaterialManager.Gather | adetsim/sim_src/material_manager.py:39-44 | the mass and the data dictionaries get the same keys in the same order |
| MaterialManager.Scaled | adetsim/sim_src/material_manager.py:52-55 | each coefficient is scaled by the mass fraction and the energies are left alone |
| MaterialManager.FetchCompound | adetsim/sim_src/material_manager.py:27-56 | an empty formula gives an empty dictionary, a failing element fails the compound with its error, and a zero total mass divides by zero |
| MaterialManager.FractionsSumToOne | adetsim/sim_src/material_manager.py:46-47 | the mass fractions sum to one |
| MaterialManager.GatherOfPlain | adetsim/sim_src/material_manager.py:41-44 | for distinct known elements whose data loads, the first loop records each element's mass `num · atomic_mass` and data, in the formula's order |
| MaterialManager.WeightedOfDistinct | adetsim/sim_src/material_manager.py:49-55 | when the written keys never collide, the second loop writes one entry per element, in order |
| MaterialManager.CompoundOfPlain | adetsim/sim_src/material_manager.py:27-56 | one entry per element, in order, keyed `element_fraction` with the mass fraction `n_i A_i / Σ n_j A_j`, holding its coefficients scaled by that fraction; the fractions sum to one |
| MaterialManager.TrailingRun | adetsim/sim_src/material_manager.py:112-113 | reading from the end up to the first empty line gives the last run of non-empty lines, all of them |
| MaterialManager.ParseLine | adetsim/sim_src/material_manager.py:115 | one number per token, each the token's value; the first bad token raises ValueError |
| MaterialManager.Columns | adetsim/sim_src/material_manager.py:118-124 | the columns are energy, Rayleigh, Compton and photoelectric; each energy after the first is nudged by 10⁻¹⁰ when within 10⁻¹⁰ of the (already moved) one before |
| MaterialManager.DecodeNistResponse | adetsim/sim_src/material_manager.py:107-130 | a bad number or a table without exactly four numbers per row (or no rows) raises ValueError; otherwise the decoded columns |
| MaterialManager.ReadsOnlyTheTable | adetsim/sim_src/material_manager.py:109-116 | whatever precedes the last empty line of the reply is ignored: the decoder reads exactly the table after it |
| MatrixStack.MaterialResponse | sim_src/DetectorStack.py:27-32 | with no materials the response is the identity of the spectrum's size; any response produced is a rectangular matrix |
| MatrixStack.MaterialResponseOfAppend | sim_src/DetectorStack.py:30-31 | materials are applied outermost first: a material behind the others multiplies its response in from the left of theirs, and any failing material fails the stack |
| MatrixStack.MaterialResponseOfOne | sim_src/DetectorStack.py:29-31 | a stack of one material responds exactly as that material, since the identity is neutral |
| MatrixStack.LayerIsDiag | sim_src/Material.py:17-24 | a layer whose mechanisms are all known responds with the diagonal matrix of its transmission probabilities |
| MatrixStack.MaterialResponseIsDiagonal | sim_src/DetectorStack.py:27-32 | with every mechanism known, the stack is diagonal and the chance of crossing it at each energy is the product of the chances of crossing each material |
| MatrixStack.StackTransmissionIsProbability | sim_src/DetectorStack.py:27-32 | through materials of non-negative density, thickness and coefficients, the stack lets through a fraction in (0, 1] at every energy |
| MatrixStack.Dispatch | sim_src/DetectorStack.py:34-36 | without dispersion the response comes back untouched and the spread is never asked for; with it, an error of the spread passes through, and the result is the spread times the response exactly when their shapes agree |
| MatrixStack.DispatchOfKernel | sim_src/DetectorStack.py:23-25 | with the photon detector's own kernel on a square response of the spectrum's size, dispersion always succeeds and gives kernel times response |
| MatrixStack.MakeHafx | sim_src/DetectorStack.py:45-50 | the last material is taken off as the scintillator and the rest stay in order; an empty list raises IndexError |
| MatrixStack.ScintillatorMechanisms | sim_src/DetectorStack.py:59 | the scintillator's mechanisms are exactly photoelectric absorption and the chosen ones, each once |
| MatrixStack.ScintillatorKnown | sim_src/DetectorStack.py:59-60 | the chosen mechanisms are all known exactly when the scintillator's are, given photoelectric data |
| MatrixStack.Absorbed | sim_src/DetectorStack.py:57-60 | `I - T` succeeds exactly when `T` is square of the spectrum's size, and then holds one minus `T` on the diagonal and minus `T` elsewhere |
| MatrixStack.AbsorbedOfDiag | sim_src/DetectorStack.py:57-60 | the identity minus a diagonal transmission is the diagonal of absorbed fractions |
| MatrixStack.DetectorResponse | sim_src/DetectorStack.py:18-62 | the plain stack fails, since `_generate_attenuation_response_due_to` is not defined; a HaFX stack with the scintillator off is its material response, dispersed on request |
| MatrixStack.HafxResponseIsDiagonal | sim_src/DetectorStack.py:52-62 | with the scintillator on and every mechanism known, the undispersed HaFX response is diagonal: at each energy the fraction crossing all materials times the fraction the scintillator absorbs |
| MatrixStack.ScintillatorStepOfDiag | sim_src/DetectorStack.py:55-61 | the scintillator scales a diagonal response by the absorbed fractions `1 - T` |
| MatrixStack.AbsorptionIsFraction | sim_src/DetectorStack.py:60 | a physical scintillator absorbs a fraction in [0, 1) of the photons at every energy |
| MatrixStack.Area | sim_src/DetectorStack.py:38-40 | the stack's area is that of its outermost material; with none, IndexError |
| VectorStack.MatMulArrays | adetsim/sim_src/DetectorStack.py:31 | `np.matmul` refuses scalars, succeeds exactly when the inner lengths agree, and drops one dimension from each operand |
| VectorStack.BroadcastTimes | adetsim/hafx_src/X123Stack.py:37-40 | the product of a vector and an array scales entry by entry along the last axis, and fails exactly when neither length is one and they differ |
| VectorStack.BroadcastSubtract | adetsim/hafx_src/HafxStack.py:48 | `ident - vec` subtracts the vector from every row when the lengths agree, and fails exactly when neither length is one and they differ |
| VectorStack.FoldAsWritten | adetsim/sim_src/DetectorStack.py:30-31 | each material's vector costs the running response one dimension, so the fold never consumes more layers than the response has dimensions |
| VectorStack.MaterialResponse | adetsim/sim_src/DetectorStack.py:27-32 | a spectrum without `energies` raises AttributeError; no materials give the identity; success needs at most two materials and leaves `2 - n` dimensions |
| VectorStack.OneLayerAsWritten | adetsim/sim_src/DetectorStack.py:29-31 | with one material the response is that material's transmission vector |
| VectorStack.TwoLayersAsWritten | adetsim/sim_src/DetectorStack.py:29-31 | with two materials the response collapses to one number, the dot product of their transmissions |
| VectorStack.CorrectedMaterialResponse | adetsim/sim_src/Material.py:20-27 | the intended response is ones per bin with each material's transmission multiplied in; no edges fail as `np.ones` does on a negative size |
| VectorStack.CorrectedIsProduct | adetsim/sim_src/DetectorStack.py:27-32 | whenever every material answers, the intended response at each bin is the product of the materials' transmissions, for any number of materials |
| VectorStack.CorrectedIsProbability | adetsim/sim_src/DetectorStack.py:27-32 | through materials of non-negative density and thickness on increasing edges, the intended response is in (0, 1] at every bin |
| VectorStack.CorrectedAgreesOnOneLayer | adetsim/sim_src/DetectorStack.py:27-32 | where the code as written succeeds with one material, it agrees with the intended response |
| VectorStack.ScintillatorResponse | adetsim/hafx_src/HafxStack.py:43-49 | a spectrum without `energies` raises AttributeError; any result is a matrix |
| VectorStack.ScintillatorAsWritten | adetsim/hafx_src/HafxStack.py:44-48 | `ident - T` puts `δ(r, c) - T[c]` at every entry, so the result is diagonal only with fewer than two bins or no transmission at all |
| VectorStack.CorrectedScintillator | adetsim/hafx_src/HafxStack.py:43-49 | the intended absorption has one entry per bin |
| VectorStack.CorrectedScintillatorIsDiagonalAbsorption | adetsim/hafx_src/HafxStack.py:43-49 | the intended absorption is the diagonal of `I - diag(T)`, as in the matrix stack, and lies in [0, 1) wherever `T` is a probability |
| VectorStack.Dispatch | adetsim/sim_src/DetectorStack.py:34-36 | without dispersion the response comes back untouched; with it, an error of the spread passes through, and otherwise the spread is matrix-multiplied in from the left |
| VectorStack.DetectorResponse | adetsim/sim_src/DetectorStack.py:18-21 | the base stack fails because `_generate_attenuation_response_due_to` is missing; a spectrum without `energies` always fails |
| VectorStack.VolumeAbsorption | adetsim/hafx_src/X123Stack.py:37-39 | the absorbed fraction is one minus the volume's photoelectric transmission, whatever mechanisms were chosen; no edges fail first, then a missing volume |
| VectorStack.VolumeOfOneLayer | adetsim/hafx_src/X123Stack.py:33-40 | with one window layer the X-123 response is the window's transmission times the volume's absorption, bin by bin, dispersed on request |
| VectorStack.ThreeLayersFail | adetsim/hafx_src/HafxStack.py:34-41 | a stack as written with three or more materials never produces a response |
| VectorStack.CorrectedHafxResponse | adetsim/hafx_src/HafxStack.py:34-41 | the intended undispersed HaFX response has one entry per bin |
| VectorStack.CorrectedHafxIsProduct | adetsim/hafx_src/HafxStack.py:34-41 | with the scintillator on, the intended undispersed response at each bin is the fraction crossing all materials times the fraction then absorbed |
| VectorStack.Area | adetsim/sim_src/DetectorStack.py:38-40 | the stack's area is that of its outermost material; with none, IndexError |
| Nudging.EqualNeverRepeats | clean_format_xcom.py:23-28 | under the equality rule with a non-zero step, no energy comes out equal to the one before it, and the first differs from the starting value |
| Nudging.TripleExample | clean_format_xcom.py:23-28 | a triple `a, a, a` comes out as `a, a + δ, a`: neighbours differ, yet the energies need not increase |
| Nudging.WithinMovesAtMost | adetsim/sim_src/material_manager.py:121-124 | under the closeness rule with a non-negative step, each energy moves up by at most the step and never down |
| Nudging.NudgedUnchanged | attenuation-data-files/second_clean.py:11-15 | energies that already differ from their predecessors pass through unchanged |
| Nudging.NudgedUnique | clean_format_xcom.py:23-28 | the walk's output is the only sequence satisfying its recurrence |
| XcomCleaning.NonBlankMembers | clean_format_xcom.py:20 | the rows read are exactly the rows of the file that hold at least one number |
| XcomCleaning.Unpack | clean_format_xcom.py:20 | ragged rows are refused; an empty file and a single number cannot be unpacked; unpacking succeeds exactly for a four-column table of two or more rows, or four numbers along one row or down one column; a table's columns transposed back give the rows read |
| XcomCleaning.UnpackScalars | clean_format_xcom.py:20 | four numbers read from a squeezed array are its entries in order |
| XcomCleaning.Rows | clean_format_xcom.py:29-30 | the transposed output has one row per energy holding the four columns' entries |
| XcomCleaning.RowsOfColumns | clean_format_xcom.py:29-30 | a four-column table is the transpose of its own columns |
| XcomCleaning.LoadRows | clean_format_xcom.py:20-30 | reading back a written table gives its columns, and a single row gives its four numbers |
| XcomCleaning.NonBlankKeeps | clean_format_xcom.py:20 | a table without blank rows is read as it is |
| XcomCleaning.RowsInjective | clean_format_xcom.py:29-30 | different columns never write the same table |
| XcomCleaning.OnePerLine | attenuation-data-files/cleaner.py:11-12 | saving a one-dimensional array writes one number per line, in order |
| XcomCleaning.SeparateRepeats | clean_format_xcom.py:23-28 | the in-place loop raises an energy by `1e-8` exactly when it equals the previous processed value (the first against -1), and computes the equality-rule walk |
| XcomCleaning.Clean | clean_format_xcom.py:20-30 | a read error passes through; four numbers from a single row fail on indexing; otherwise the table cleans |
| XcomCleaning.CleanedRows | clean_format_xcom.py:20-30 | one row out per row in, coefficients reordered to (photoelectric, Rayleigh, Compton), energy in keV raised by at most `1e-8`, and no energy equal to the one before it |
| XcomCleaning.CleanedColumns | grips-piggyback/att-data/full_clean.py:13-23 | the same cleaning stated on the columns read |
| XcomCleaning.NudgeBounds | clean_format_xcom.py:25-27 | each separated energy is the input or the input plus `1e-8` |
| XcomCleaning.CleanTriple | clean_format_xcom.py:22-28 | three rows of one energy come out at `1000a`, `1000a + 1e-8`, `1000a` keV |
| XcomCleaning.SecondClean | attenuation-data-files/second_clean.py:8-18 | a read error passes through; four numbers from a single row fail on indexing; otherwise the table cleans |
| XcomCleaning.SecondCleanedRows | attenuation-data-files/second_clean.py:8-18 | one row out per row in, coefficients untouched, and no energy equal to the one before it |
| XcomCleaning.SecondCleanAfterClean | attenuation-data-files/second_clean.py:8-18 | the second cleaning is idempotent on what the first cleaning wrote: it changes nothing |
| XcomCleaning.Cleaner | attenuation-data-files/cleaner.py:8-12 | a read error passes through, otherwise the conversion succeeds |
| XcomCleaning.CleanerRows | attenuation-data-files/cleaner.py:9-12 | each row is written with its energy in keV and its coefficients reordered; four numbers come out one per line |
| XcomCleaning.CleanerColumns | attenuation-data-files/cleaner.py:9-12 | the same conversion stated on the columns read |
| XcomCleaning.CleanIsCleanerThenSecondClean | clean_format_xcom.py:20-30 | the full cleaning equals `cleaner.py` followed by `second_clean.py` |
| XcomCleaning.ReadTabs | attenuation-data-files/cleaner.py:9 | a tab-delimited read of a space-separated file succeeds only when no line holds more than one number |
| XcomCleaning.SecondCleanScript | attenuation-data-files/second_clean.py:8-18 | without an argument, IndexError; a missing file, OSError; otherwise only the named file is rewritten, space-separated, and every other file stays as it was |
| XcomCleaning.CleanerScript | attenuation-data-files/cleaner.py:8-12 | without an argument, IndexError; a missing file, OSError; a space-separated file cannot be converted; otherwise only the named file is rewritten, still tab-separated |
| XcomCleaning.CleanEntry | clean_format_xcom.py:17-20 | a sub-directory of the raw directory cannot be read; a file is cleaned |
| XcomCleaning.CleanEach | clean_format_xcom.py:16-30 | the run writes at most one file per listed entry, and stops exactly when it does not get through them all |
| XcomCleaning.CleanEachStopsAtFirstFailure | clean_format_xcom.py:16-30 | the run writes exactly the entries before the first one it cannot get past, each cleaned under its own name in the output directory, and stops with that entry's refusal, in the order the loop checks |
| XcomCleaning.CleanFormatXcom | clean_format_xcom.py:8-30 | missing arguments exit with status -1 and write nothing; a missing raw directory cannot be listed; otherwise the loop runs over its listing |
| XcomCleaning.FullClean | grips-piggyback/att-data/full_clean.py:6-23 | the same loop from `nist` into `cleaned` |
| XcomCleaning.CleanEachWritesAll | clean_format_xcom.py:16-30 | tables that all clean, none shadowed in the working directory, into an existing directory are all written, in listing order |
| Text.Split | adetsim/sim_src/material_manager.py:109 | splitting on one character gives parts free of it, whose join on it is the text again |
| Text.SplitJoin | adetsim/sim_src/material_manager.py:109 | splitting a join recovers the parts when no part holds the separator |
| Text.Tokens | adetsim/sim_src/material_manager.py:115 | `split()` gives non-empty runs without whitespace, and nothing exactly for an all-blank line |
| Text.TokensOfJoin | adetsim/sim_src/material_manager.py:115 | space-joined words split back into the same words |
| Text.Strip | adetsim/sim_src/material_manager.py:115 | `strip()` leaves no whitespace at either end, and the empty text exactly for an all-blank one |
| Text.StripOfTrimmed | adetsim/sim_src/material_manager.py:115 | stripping text with non-blank ends changes nothing |
| Text.TitleFrom | adetsim/sim_src/material_manager.py:19 | `title()` keeps the length, keeps every non-letter and changes letters only in case |
| Text.TitleIdempotent | adetsim/sim_src/material_manager.py:19 | title-casing twice is title-casing once |
| Text.TitleOfWord | adetsim/sim_src/material_manager.py:19 | a word of letters comes out capitalised: an upper-case first letter, the rest lower-case |
| Text.RemoveAbsent | adetsim/atmoatt/atmospheric_attenuator.py:157 | removing a pattern that does not occur leaves the text unchanged |
| Dicts.Put | adetsim/sim_src/material_manager.py:43-44 | assigning under a present key keeps its place and changes only its value; a new key goes last |
| Dicts.GetOfDistinct | adetsim/sim_src/material_manager.py:53 | in a dictionary the value read under an entry's key is that entry's |
| Text.ParseFloat | adetsim/sim_src/material_manager.py:115 | every refusal is a ValueError, and text the model accepts is a signed decimal literal once stripped; Python's `float` accepts more (see "## Left out") |
| Text.ParseFloatOfDigits | adetsim/sim_src/material_manager.py:115 | a run of digits, with or without a minus sign, is read as its value |

## Left out

- **File and network I/O.** The model leaves out the NIST download and its cache, asdf, npz, pickle, lzma and JSON files, `os.mkdir`, `subprocess.Popen` and `input()` in the IDL bridges, and all plotting and printing. The model keeps the values these produce or consume:
  - what a download returns is the `download` parameter of `MaterialManager`;
  - the tables a working attenuation reader would give are the `load` parameter of `Instruments`; the constructors as written call `from_nist_file` through a `Reader` parameter instead;
  - IDL's standard output is a string argument;
  - a saved file is the `Saved` record it holds.
- **The NRLMSIS run.** `msis.run` is left out: its output array is the argument of `AtmosphereTable.FromMsis`.
- **Floating-point library functions.** `exp`, `log`, `sqrt`, `cos`, `π`, SciPy `quad` and `interp1d` are left out as numerics. They are fields of `RealMath.Transcendentals`, or are built from tables by `Attenuation`. No numerical accuracy is claimed, including for `trapz` and for the sums of kernel rows.
- **The thermal spectrum.** The thermal emission of sunxspex in `adetsim/sim_src/FlareSpectrum.py` is a parameter. So is IDL's `f_vth` in `sim_src/FlareSpectrum.py`.
- **The Battaglia formulas.** Only the switch between the two spectral-index coefficients is stated. The formulas themselves are computed through the parameters.
- **The slant path.** `thickness_through_zenith` (a cosine) is left out. The slant path is the `slant` argument of `AtmosphericAttenuator.AttenuateThroughLayers`.
- **Float formatting.** `f'{x:.3e}'`, `f'{m:0.2f}'` and `str(float)` are the `format` parameter, so any formatting is allowed.
- **Rounding of the nudges.** The nudges of `1e-8` and `1e-10` and the unit scaling are exact on reals. Float rounding, which can swallow a nudge on large energies, is not modelled.
- **NaN and infinities.** NaN stands for the infinities NumPy would produce as well, so a division by zero in the lookup table gives NaN. Elsewhere values are reals, which hold neither.
- **Scripts that only orchestrate.** Plotting and analysis scripts, and orchestration loops over the engine, are not part of this model. This covers the `cebr3-scripts`, `x123-scripts` and `projects` scripts other than the GRIPS stack, plus `impress*.py`, `post_process_v2.py`, `common*.py` and the others.
- **Snapshots that cannot run as shown.** The top-level `Material.py`, `DetectorStack.py`, `AttenuationData.py` and `FlareSpectrum.py`, and `X123ResolutionDetector.py`, are not part of this model.
- **Constant tables.** `HafxMaterialProperties.py` and `impress_constants.py` are not modelled as modules. The values used are constants of `Instruments` and `Calibrator`.
- **The abstract detector of `adetsim`.** `adetsim/sim_src/PhotonDetector.py` is left out: its only behaviour is raising NotImplementedError, which `Dispersion` models for the `sim_src` base class.
- **Compton scattering.** Every version treats it as the neutral factor. No scattering operator is invented.
- Container.New: the top-level `HafxSimulationContainer.py` cannot run as shown. Its line 6 imports `SINGLE_DET_AREA`, which the top-level `HafxStack.py` does not define (ImportError). Its line 61 calls `HafxStack()` without the `materials` and `photon_detector` that `__init__` needs (TypeError). The model builds the container around a given stack instead.
- Container.FromSavedFile: loads through the same constructor, so as written it has the same two failures. The model loads around a given stack.
- Attenuation.Evaluate: is 0 on a grid that is not strictly increasing. SciPy's `interp1d` sorts a grid of distinct points first (xs = [2, 1], ys = [4, 2] at 1.5 gives 3.0), refuses fewer than two points, and gives inf or NaN on repeated points. The tables interpolated here are read in increasing order.
- BinnedMaterial.PhotRay: accepts repeated edges. Its errors are stated for every input, but a bin whose two edges are equal is NaN in NumPy (quad's 0 over a zero width at Material.py:55, without an exception). Reals cannot hold NaN, so the contract says nothing about that bin's value. The members built on it, from `BinnedMaterial.Modifying` and `BinnedMaterial.OverallResponse` to the responses of `VectorStack` and `Instruments.X123Response`, accept repeated edges as well and state nothing about such a bin. Where a probability is stated (`BinnedMaterial.FactorIsProbability` and the lemmas that use it), the edges must be increasing.
- FlareSpectrum.BinnedFluxWith: with a non-zero break energy, requires neighbouring edges to differ. On a repeated edge NumPy divides by a zero width and gives inf or NaN, which reals cannot hold. A break energy of zero is the ZeroDivisionError that the integer `0` callers pass raises; a NumPy float zero would give inf instead.
- FlareSpectrum.BinnedFluxAsWritten: the same requirement on the edges, for the same reason.
- FlareSpectrum.BinnedFlux: the same requirement on the edges, for the same reason.
- FlareSpectrum.MakeWithBattagliaScaling: the same requirement on the edges, since it bins through the same function.
- PointFlareSpectrum.MakeWithBattagliaScaling: requires non-zero energy points. At 0 keV `e_pivot / eng_ary` gives inf in NumPy, which reals cannot hold.
- Dispersion.ResolutionKernel: requires `Resolvable` energies for the detectors with a resolution line. A zero first step or a zero FWHM gives NumPy inf or NaN widths, which reals cannot hold.
- MatrixStack.ScintillatorMechanisms: keeps the mechanisms in first-occurrence order. Python's `set` iterates in hash order, which for these small integers is ascending. Only the order of the diagonal factors can differ, along with which unknown mechanism is reported first.
- Instruments.HafxMaterial: builds the layer on the table a working reader gives. As written, `from_nist_file` raises AttributeError first; that construction is `Instruments.ReadHafx`, and `Instruments.HafxReadsAsLoaded` connects the two.
- Instruments.GenMaterials: builds the layers on the loaded tables. As written the first read raises (`Instruments.ReadInOrder`, `Instruments.NistReadingRaises`).
- Instruments.MakeHafx: builds the stack on the loaded tables; the as-written construction is `Instruments.ReadHafx`. It also builds from the layer list without the in-place `pop`. That list is built inside the constructor, and nothing else holds it.
- Instruments.MakeX123: builds the stack on the loaded tables; the as-written construction, which raises at the window, is `Instruments.ReadX123`.
- Instruments.MakeX123CdTe: builds the stack on the loaded tables; the as-written construction, which raises at the window, is `Instruments.ReadX123CdTe`.
- Instruments.KnownMaterial: reads its data from a loader. In the older GRIPS module the tables come from an import that raises as written (`Instruments.PiggybackTables`).
- Instruments.MakeGrips: builds on a loader. For the older module the as-written construction, which cannot pass its import, is `Instruments.PiggybackGrips`.
- Calibrator.Calibrate: the search runs on a fuel bound. When the fuel runs out the outcome is `OutOfFuel`, whereas the script would loop on.
- Calibrator.Search: carries the same fuel bound.
- AtmosphereTable.Arange: computes `start + i·step` exactly. NumPy's floating-point count and accumulation of steps may differ by one element at the stop.
- AtmosphericAttenuator.AttenuateThroughLayers: requires a positive altitude step. As written the first pass always raises, so the step never matters there. The corrected walk would not end with a step of zero or less.
- AtmosphericAttenuator.ConstructLayer: builds the layer's density, thickness and composition. It does not build the attenuation data of the layer's `Material` (`from_compound_dict`), which reads the element files.
- AtmosphericAttenuator.ParseColumn: `str.isnumeric` is taken to be the ASCII digits.
- Text.ParseFloat: states that accepted text is a decimal literal, and gives the value for runs of digits. The value of a literal with a fraction or an exponent is not stated. Python's `float` also accepts `inf`, `infinity` and `nan` in any case and with a sign, and digits grouped by underscores such as `1_000`. The model refuses these with ValueError: reals cannot hold inf or NaN, and underscore grouping is not modelled. So `FlareSpectrum.GoesClassLookup` and `FlareSpectrum.GoesFlux` refuse a class such as `Minf` or `M1_0`, which the source accepts.
- Text.TitleFrom: `str.title` over ASCII letters only.
- XcomCleaning.Load: `np.loadtxt` is modelled on tables already split into numbers. Comment lines and the text form of numbers are not modelled.
- XcomCleaning.CleanEach: the working directory is the set of file names `os.path.isfile` would find.

## Findings

| source | as written | input that shows it | evidently intended | confidence | as-written member | corrected member |
|---|---|---|---|---|---|---|
| adetsim/sim_src/FlareSpectrum.py:68-76 | the bin straddling the break integrates the lower law from the break up and the upper law from below up to the break, so the two laws are swapped | a flat law below a break at 1 keV, a 1/E law above, and edges e⁻¹, e: the bin gets e, where the broken law integrates to 2 - e⁻¹ | the lower law below the break plus the upper law above it, so that the flux integrates to the broken law over every bin | not executed | FlareSpectrum.StraddleCounterexample | FlareSpectrum.BinnedFluxTimesWidths |
| adetsim/sim_src/DetectorStack.py:27-32 | each layer's transmission vector is `np.matmul`-ed into a running response that starts as `np.identity(n)` | two layers give a scalar, the dot product of their transmissions; the HaFX stack with its three windows gives no response for any spectrum | the entrywise product of the layers' transmissions, as `Material` itself does with its mechanisms | not executed | VectorStack.TwoLayersAsWritten | VectorStack.CorrectedIsProduct |
| adetsim/hafx_src/HafxStack.py:43-49 | `ident - T` for the scintillator's transmission vector `T` broadcasts `T` across every row | two bins with `T = [0.5, 0.5]` give the full matrix `[[0.5, -0.5], [-0.5, 0.5]]` | the absorbed fraction `1 - T` bin by bin, the diagonal of `I - diag(T)` as in `sim_src` | not executed | VectorStack.ScintillatorAsWritten | VectorStack.CorrectedScintillatorIsDiagonalAbsorption |
| adetsim/hafx_src/HafxSimulationContainer.py:127-128 | `None in self.matrices` looks for `None` among the dictionary's keys, which are two strings | a container that never simulated: the guard passes and its missing matrices are saved | refuse to save while either matrix is missing | not executed | ContainerFiles.SaveGuardNeverFires | ContainerFiles.SaveGuardRefusesUncomputed |
| adetsim/atmoatt/atmospheric_attenuator.py:94-105 | each layer builds a base `DetectorStack`, whose response calls `_generate_attenuation_response_due_to`, a method no class defines | any atmosphere whose first layer can be built: its attenuation raises AttributeError and the walk ends there | each layer multiplies the spectrum by its transmission, so the walk reaches the ground | not executed | AtmosphericAttenuator.AsWrittenStopsAtFirstLayer | AtmosphericAttenuator.CorrectedWalk |
| adetsim/hafx_src/HafxStack.py:20 | `gen_materials` reads each table with `AttenuationData.from_nist_file`, which the `adetsim` `AttenuationData` (adetsim/sim_src/AttenuationData.py) does not define | `HafxStack()` with any arguments, and so every `HafxSimulationContainer`: AttributeError at the first table | a reader of the tab-delimited NIST tables, as the older engine's `AttenuationData.from_nist_file` (AttenuationData.py:13-24) | not executed | Instruments.HafxAsWrittenRaises | Instruments.HafxReadsAsLoaded |
| adetsim/hafx_src/X123Stack.py:23 | the window's table is read with the missing `from_nist_file` | `X123Stack()`: AttributeError before the silicon is read | the same working reader | not executed | Instruments.X123AsWrittenRaises | Instruments.X123ReadsAsLoaded |
| adetsim/hafx_src/X123CdTeStack.py:26 | the window's table is read with the missing `from_nist_file` | `X123CdTeStack()`: AttributeError before the CdTe is read | the same working reader | not executed | Instruments.X123CdTeAsWrittenRaises | Instruments.X123CdTeReadsAsLoaded |
| grips-piggyback/grips_stack.py:19 | the module-level `MAT_DAT` reads its tables with the missing `from_nist_file` | importing the module: AttributeError at the teflon table, so no `GripsStack` is ever built | the same working reader | not executed | Instruments.PiggybackAsWrittenRaises | Instruments.PiggybackReadsAsLoaded |
