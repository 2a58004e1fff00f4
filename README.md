# Beam emittance reduction, modelled in Dafny

This project models the numerical core of an electron-beam emittance calculator. It follows
the solenoid-scan method, in three stages:

1. **Data processing.** Each measured beam-profile spreadsheet is reduced to the spread of the
   beam along the two transverse axes.
   - In the experiment format, column 0 is a distance in millimetres and columns 1 and 2 are
     counts. The spread is the weighted standard deviation of the distances, weighted by the
     counts.
   - In the modelling format, the two columns are x and y coordinates in millimetres. The
     spread is the plain (population) standard deviation.
   - Files that do not exist are skipped. A file of the wrong shape stops the run.
2. **Physics parameters.** From the beam energy ε come the Lorentz factor γ = ε/(m·c²) and the
   speed β = √(1 − 1/γ²). From these, every solenoid field value B gets a focusing parameter
   w = 1 − d·l·(e·Z·B)²/(2·m·c·γ·β)².
3. **Approximation.**
   - The spread is fitted against w by a parabola a·w² + b·w + c, and the fit is scored by
     R² = 1 − SS_res/SS_tot.
   - The beam matrix is back-solved as σ₀ = a, σ₁ = b/(2d), σ₂ = c/d².
   - The emittance is √(σ₀σ₂ − σ₁²) and the normalised emittance is β·γ times that.
   - The total emittance is the geometric mean of the two axis emittances.
   - Several candidate curves can be compared, and the one with the largest R² is chosen.

How the model represents the program:

- **Numbers.** Values are exact `real`s. Most places where float64 arithmetic would stop
  producing a number are made explicit:
  - a raised exception becomes a `Failure`;
  - a NaN β (γ² < 1) and an infinite or NaN w (γ·β = 0) also become a `Failure`, since the fit
    that takes these w values would then fail (curve_fit rejects non-finite data, and
    fit_function returns None);
  - a NaN in a reported value (the emittance, the normalised and total emittance, np.std of
    an empty column or of one with an empty cell) becomes `None`;
  - an infinite or NaN R² becomes a `Score` that is not `Finite`.
  - One NaN is not made explicit: a negative weighted variance, which only negative counts
    can produce (see "Left out").
- **Square roots.** `np.sqrt` is a parameter `sqrt` that satisfies `IsSqrt`: on a
  non-negative argument it returns the non-negative root.
- **Spreadsheets.** A spreadsheet is a rectangular table whose cells are `Option<real>` (an
  empty cell is `None`). Reading a file is a parameter `read`, and whether a file exists is a
  parameter `fileExists`.
- **The least-squares solver.** Its result is an input: `Option<Fit>` for a candidate curve,
  `Option<(real, real, real)>` for the parabola.
- **Loops.** Each loop of the program is a `method` whose loop invariant ties it to a
  function of the input prefix. The properties are proved as lemmas about those functions.
  This covers:
  - `process_data_files`;
  - `process_data_files_modelling`;
  - `calculate_w_parameter`;
  - `compare_approximations`;
  - the in-place rescaling of the distance column.

Modules:

- `Wrappers`: `Option` and `Result`.
- `RealMath`: sums, means, squared deviations and the square-root contract.
- `DataProcessor`: `src/data_processor.py`.
- `PhysicsParameters`: `src/physics_parameters.py`.
- `Approximation`: `src/approximation.py`.

Where β stops being defined:

- One might expect β to be undefined for γ ≤ 1. The code takes √(1 − 1/γ²), which is NaN
  only when γ² < 1. At γ = 1 it gives β = 0, and the zero denominator shows up in w. The
  model therefore has `BetaUndefined` exactly when γ² < 1, and `ZeroMomentum` when γ·β = 0.
- The error cases also differ from a single up-front check:
  - A zero energy raises at once (Python's float `ZeroDivisionError`).
  - The NaN and infinity cases appear in w only when there is a field value to compute.
  - `WParameters` therefore returns `Success([])` for an empty field list unless ε = 0.

## Model

| member | source | states |
|---|---|---|
| DataProcessor.WeightedMeanOfEqualValues | src/data_processor.py:26 | np.average of equal values is that value, whatever the weights. |
| DataProcessor.WeightedStd | src/data_processor.py:11-34 | Returns 0 for no values or a zero total weight. With non-negative weights and a non-zero total it returns the non-negative root of the weighted variance. |
| DataProcessor.WeightedVariance | src/data_processor.py:26-29 | The weighted variance about the weighted mean is non-negative when the weights are. |
| DataProcessor.WeightedStdZeroIff | src/data_processor.py:22-32 | With positive weights the spread is 0 exactly when all values are equal. |
| DataProcessor.WeightedStdOfUniformWeights | src/data_processor.py:26-32 | With equal positive weights the weighted spread is the square root of the population variance, which is what np.std computes. |
| DataProcessor.ScaleDistances | src/data_processor.py:48 | Column 0 of every row is multiplied by 0.001. Empty cells stay empty and the other columns are untouched. |
| DataProcessor.RescaleDistances | src/data_processor.py:48 | The in-place update of the frame leaves exactly the rescaled rows. |
| DataProcessor.KeepRow | src/data_processor.py:51 | The mask keeps a row only when its count cell and its distance cell are both present, so both can be read. |
| DataProcessor.KeptRows | src/data_processor.py:51-57 | Row i is kept for an axis exactly when its count cell is present and non-zero and its distance is present. The kept indices are strictly increasing, so row order is preserved. |
| DataProcessor.AxisSamples | src/data_processor.py:51-57 | The distances and weights have equal length, one per kept row, and every weight is non-zero. |
| DataProcessor.AxisSamplesSelect | src/data_processor.py:52-57 | Sample j takes its distance and its weight from the same row: the j-th kept row. |
| DataProcessor.KeptRowsOfScaled | src/data_processor.py:48-55 | Rescaling the distances does not change which rows the count masks keep. |
| DataProcessor.ReadExcelData | src/data_processor.py:37-58 | Fails with a missing-column error exactly when the table has fewer than three columns. Otherwise returns the samples of axes 1 and 2. |
| DataProcessor.ReadExcelDataSamples | src/data_processor.py:48-57 | Each returned distance is 0.001 × the raw distance of the corresponding kept raw row. The weight is that row's raw count. |
| DataProcessor.ExistingIndices | src/data_processor.py:77-79 | The positions of the files that exist: position i is listed exactly when file i exists, and the positions are strictly increasing. |
| DataProcessor.Existing | src/data_processor.py:77-79 | A file is kept exactly when it is in the list and exists. There are at most as many as the input files. |
| DataProcessor.ExistingInOrder | src/data_processor.py:77-84 | Kept file j is the file at the j-th existing position, so the list order is kept and a file listed twice is processed twice. |
| DataProcessor.Spreads | src/data_processor.py:94-95 | Non-negative counts give non-negative spreads along both axes. |
| DataProcessor.SpreadsOf | src/data_processor.py:72-106 | On success, the two spread lists are equally long: one entry per existing file. |
| DataProcessor.SpreadsOfFailure | src/data_processor.py:79-84 | The run fails exactly when some existing file has fewer than three columns. |
| DataProcessor.SpreadsOfElements | src/data_processor.py:84-97 | Entry j of each list is the weighted spread of that axis of the j-th existing file. |
| DataProcessor.ProcessDataFiles | src/data_processor.py:61-106 | The loop returns the spreads of the file list, or the first error. The field values are returned unchanged. |
| DataProcessor.CheckExcelStructure | src/data_processor.py:109-119 | Raises the modelling error exactly when the width differs from the expected one, the type is "modelling" and the width is not 2. Raises the experiment error exactly when the width differs, the type is "experiment" and the width is 2. Never raises when the width matches. |
| DataProcessor.CheckExcelStructureForTwo | src/data_processor.py:114-118 | With two expected columns, it fails only for the modelling type with a width other than 2. The experiment branch is unreachable. |
| DataProcessor.ToMetres | src/data_processor.py:130-131 | Every present value is multiplied by 0.001, and empty cells stay empty. |
| DataProcessor.ReadExcelDataModelling | src/data_processor.py:122-133 | Fails exactly when the width is not 2. Otherwise x and y are both columns in metres, and there is one unit weight per row. |
| DataProcessor.Std | src/data_processor.py:149-150 | np.std is a number exactly for a non-empty column without empty cells. It is then the non-negative root of the population variance. |
| DataProcessor.StdIsUnitWeightedStd | src/data_processor.py:132 | np.std of a column equals the weighted spread with the unit weights the reader returns. |
| DataProcessor.ModellingSpreads | src/data_processor.py:145-150 | One existing file fails exactly when its width is not 2. The error comes from the structure check for the modelling type, and from the reader otherwise. |
| DataProcessor.ModellingSpreadsOf | src/data_processor.py:141-156 | On success there is one x and one y spread per existing file. |
| DataProcessor.ModellingSpreadsOfFailure | src/data_processor.py:145-148 | Whatever the processing type, the run fails exactly when some existing file does not have two columns. |
| DataProcessor.ModellingSpreadsOfElements | src/data_processor.py:143-150 | Entry j is np.std of the x and y columns, in metres, of the j-th existing file. |
| DataProcessor.ProcessDataFilesModelling | src/data_processor.py:136-156 | The loop returns the spreads of the file list, or the first error. The field values are returned unchanged. |
| PhysicsParameters.RestEnergyPositive | src/physics_parameters.py:10-23 | The electron rest energy m·c² is positive. |
| PhysicsParameters.Relativistic | src/physics_parameters.py:26-38 | Fails with a zero-division error exactly when ε = 0, and with β undefined exactly when γ² < 1, so it succeeds exactly when ε ≠ 0 and γ² ≥ 1. Otherwise γ = ε/(m·c²), γ² ≥ 1, 0 ≤ β < 1 and β² = 1 − 1/γ². |
| PhysicsParameters.BetaBelowOne | src/physics_parameters.py:37 | β = √(1 − 1/γ²) is below 1. |
| PhysicsParameters.MomentumSquared | src/physics_parameters.py:36-37 | (γβ)² = γ² − 1 for every beam the calculator accepts. |
| PhysicsParameters.TwiceRestEnergy | src/physics_parameters.py:36-37 | An energy of twice the rest energy gives γ = 2 and β² = 3/4. |
| PhysicsParameters.W | src/physics_parameters.py:59-62 | With d·l = 0 or Z = 0 nothing focuses: w = 1. |
| PhysicsParameters.WAtZeroField | src/physics_parameters.py:59-62 | w = 1 at B = 0, whatever d, l, Z and the beam are. |
| PhysicsParameters.WEven | src/physics_parameters.py:60-62 | w(−B) = w(B). |
| PhysicsParameters.WAtMostOne | src/physics_parameters.py:60-62 | w ≤ 1 whenever d·l ≥ 0. |
| PhysicsParameters.WValues | src/physics_parameters.py:58-63 | One w per field value, at the same position. |
| PhysicsParameters.WParameters | src/physics_parameters.py:41-65 | A zero energy always fails. It succeeds exactly when ε ≠ 0 and either there are no field values or γ² > 1 (at γ² = 1, β = 0 and the denominator of w is zero). A successful result has exactly one w per field value. |
| PhysicsParameters.WParametersElements | src/physics_parameters.py:55-63 | On success, every w comes from the field value at its position and one shared beam with γβ ≠ 0. A zero field gives w = 1, and every w ≤ 1 when d·l ≥ 0. |
| PhysicsParameters.CalculateWParameter | src/physics_parameters.py:41-65 | The appending loop computes exactly `WParameters`. |
| Approximation.Linear | src/approximation.py:23 | The line a·x + b is the parabola 0·x² + a·x + b. |
| Approximation.Quadratic | src/approximation.py:39 | The parabola takes the value c at x = 0. |
| Approximation.Predict | src/approximation.py:250 | There is one prediction per x, and prediction i is the curve at x[i]. |
| Approximation.FitFunction | src/approximation.py:74-97 | A fit is returned exactly when the solver succeeded, the data pair up and there are at least as many points as parameters. |
| Approximation.SSRes | src/approximation.py:111 | The residual sum of squares is non-negative, and zero exactly when the prediction equals the data. |
| Approximation.SSTot | src/approximation.py:112 | The total sum of squares is non-negative. |
| Approximation.SSTotZeroIff | src/approximation.py:112 | SS_tot is 0 exactly on constant data. |
| Approximation.RSquared | src/approximation.py:100-114 | R² is a real number exactly when SS_tot ≠ 0. It is NaN exactly when both SS_tot and SS_res are 0. |
| Approximation.RSquaredBounds | src/approximation.py:111-113 | R² is real exactly on non-constant data. It is then at most 1, and equals 1 exactly when the prediction equals the data. |
| Approximation.RSquaredOfConstantData | src/approximation.py:111-113 | On constant data R² is NaN for an exact prediction and −inf otherwise. |
| Approximation.MeanSquaredError | src/approximation.py:147 | The mean squared error is non-negative. |
| Approximation.BackSolve | src/approximation.py:263-265 | σ₀ = a, σ₁ = 0 exactly when b = 0, and σ₂ has the sign of c. |
| Approximation.ToCoefficientsOfBackSolve | src/approximation.py:263-265 | The back-solved σ₀, σ₁, σ₂ reproduce the coefficients a, b, c over the drift d. |
| Approximation.BackSolveOfToCoefficients | src/approximation.py:263-265 | The back-solve recovers any beam matrix from the coefficients it produces. |
| Approximation.QuadraticInSigmas | src/approximation.py:238-265 | The fitted parabola equals σ₀w² + 2dσ₁w + d²σ₂. |
| Approximation.Radicand | src/approximation.py:268 | σ₀σ₂ − σ₁² never exceeds σ₀σ₂, and equals it exactly when σ₁ = 0. |
| Approximation.Emittance | src/approximation.py:268 | The emittance is a number exactly when σ₀σ₂ − σ₁² ≥ 0. It is then non-negative and its square is that radicand. |
| Approximation.BackSolveExample | src/approximation.py:263-268 | d = 0.5 and coefficients (1e-6, 1e-7, 2e-8) give σ = (1e-6, 1e-7, 8e-8) and a squared emittance of 7e-14. |
| Approximation.ParamNames | src/approximation.py:274-277 | Axis "x" gets the x names, and any other axis gets the y names. |
| Approximation.FitParabolaAndCalculateEmittance | src/approximation.py:215-296 | A result exists exactly when the fit succeeds. The result holds: the fitted parameters; a beam matrix that reproduces them; one quadratic prediction per w; R² of those predictions; the emittance as a root of the radicand; β·γ·emittance; and the axis names. |
| Approximation.Normalised | src/approximation.py:271 | β·γ·ε is non-negative when β, γ and ε are, and zero when ε is. |
| Approximation.NormalisedEmittanceSquared | src/approximation.py:271 | (β·γ·emittance)² = (γ² − 1)·emittance² for every accepted beam. |
| Approximation.TotalEmittance | src/approximation.py:299-312 | The total emittance is a number exactly when εx·εy ≥ 0. It is then non-negative and its square is εx·εy. |
| Approximation.TotalEmittanceOfEqual | src/approximation.py:311 | Equal axis emittances give that emittance as the total. |
| Approximation.TotalEmittanceBetween | src/approximation.py:310-311 | The total emittance lies between the two axis emittances. |
| Approximation.Approximate | src/approximation.py:136-157 | A candidate gets an entry exactly when its fit succeeds. The entry holds the fitted parameters, the predictions of the curve and their R². |
| Approximation.Compared | src/approximation.py:129-162 | There are no more entries than candidates. |
| Approximation.ComparedSound | src/approximation.py:139-157 | Every entry is the successful fit of a candidate with that name. |
| Approximation.ComparedComplete | src/approximation.py:139-157 | Every candidate whose fit succeeds has an entry under its name. |
| Approximation.ComparedNamesDistinct | src/approximation.py:131-151 | Candidates with distinct names give results without repeated keys. |
| Approximation.CompareApproximations | src/approximation.py:117-162 | The loop builds exactly the `Compared` results. |
| Approximation.Greater | src/approximation.py:182 | Only a real score can be greater, never than NaN. A real score is greater than −inf. |
| Approximation.BestIndex | src/approximation.py:182 | max returns one of the keys. |
| Approximation.BestIndexIsFirstMaximum | src/approximation.py:181 | Over real scores, max picks a maximal R², and it is the first maximal one. |
| Approximation.BestIndexWithoutFinite | src/approximation.py:181 | Without a real score, max keeps the first key. |
| Approximation.ComparedScoresFinite | src/approximation.py:141-144 | Either every R² in the results is real (non-constant data) or none is. |
| Approximation.FindBestApproximation | src/approximation.py:164-190 | Returns nothing exactly when no fit succeeded. Otherwise returns the name, parameters and predictions of the entry max picks. |
| Approximation.FindBestApproximationIsBest | src/approximation.py:180-182 | On non-constant data, the chosen curve's R² is at least every other entry's R², and exceeds the R² of every entry before it. |
| Approximation.FindBestApproximationOnConstantData | src/approximation.py:180-182 | On constant data the first successful fit is returned, even when a later one reproduces the data exactly. |

## Left out

- Spreadsheet reading (`pd.read_excel`), `os.path.exists` and `os.path.join`: these are file I/O. A table and file existence are parameters (`read`, `fileExists`), and files are named by the joined path.
- The data frame that `read_excel_data` returns alongside the samples, and the frame that `check_excel_structure` returns: only their shape and cells are used downstream.
- `verbose` printing, `print_physics_parameters`, `print_approximation_equation` and every console message: these are logging only. This includes the `field_values[i]` lookup made only for a verbose message.
- `curve_fit` and the body of `fit_function`: least-squares solving is a foreign call. Its outcome is an input, and the covariance matrix `pcov` is not modelled.
- `exponential_function` and `power_function`: `exp` and real powers are transcendental floating-point numerics. `Fit` has only the linear and quadratic shapes.
- `src/visualization.py`, `main.py` and `read_excel.py`: these are plotting, orchestration and a one-off I/O script.
- IEEE float64 rounding: the model computes over exact reals. Overflow, underflow and rounding of the constants are not captured.
- `np.sqrt`: it is an abstract parameter, pinned down only on non-negative arguments.
- Approximation.FitParabolaAndCalculateEmittance: requires d ≠ 0. With d = 0, numpy produces inf or NaN beam-matrix elements, and the model does not represent those values.
- Approximation.FitFunction: the solver's own failures arrive as `None`. The model returns `None` whenever the x and y data differ in length. numpy broadcasting of a single y value (or a single x value) against the other array is not modelled: there `curve_fit` can return a fit, and its parameter-count check is skipped for a single y value. The model also returns `None` when there are fewer points than parameters. With bounds, scipy may still return a fit for such data. Both outcomes are left out, and so are the fits `compare_approximations` would report for them.
- Approximation.FitParabolaAndCalculateEmittance: the same broadcast is not modelled. Three w values and a single surviving spread (one of three files present) make the source return a result whose R² is NaN or −inf. The model returns `None`.
- DataProcessor.WeightedStd: the masks keep any non-zero count, so negative counts get through. With negative counts the weighted variance can be negative, and np.sqrt then gives NaN. The model returns `sqrt` of that negative number, which `IsSqrt` leaves unconstrained, and `ProcessDataFiles` passes it on as a spread. The contract speaks only of non-negative weights.
- DataProcessor.ReadExcelData: the pandas reading of the frame is abstracted. `ScaleDistances` is the function the reader uses, and `RescaleDistances` is the in-place update it specifies.
