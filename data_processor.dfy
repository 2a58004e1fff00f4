/** Reading beam-profile spreadsheets and reducing each one to the spread (weighted standard
    deviation) of the beam along the two transverse axes. */
module DataProcessor {
  import opened Wrappers
  import opened RealMath

  /** Distances are entered in millimetres and worked with in metres. */
  const MillimetresToMetres: real := 0.001

  /** A spreadsheet read without a header row: every row has `width` cells, a cell is empty
      (pandas NaN) or holds a number. */
  datatype Sheet = Sheet(width: nat, rows: seq<seq<Option<real>>>)

  type Table = t: Sheet | forall i :: 0 <= i < |t.rows| ==> |t.rows[i]| == t.width
    witness Sheet(0, [])

  /** Why reading a data set stops the whole run. */
  datatype ReadError =
    | MissingColumn(path: string)        // the experiment format needs columns 0, 1 and 2
    | NotModellingFormat(path: string)   // the modelling reader needs exactly two columns
    | ModellingStructure(path: string)   // the structure check for the modelling type failed
    | ExperimentStructure(path: string)  // the structure check for the experiment type failed

  /** The positions a measurement was taken at and the counts recorded there. */
  datatype Samples = Samples(distances: seq<real>, weights: seq<real>)

  predicate HasColumn(rows: seq<seq<Option<real>>>, col: nat)
  {
    forall i :: 0 <= i < |rows| ==> col < |rows[i]|
  }

  // ---------------------------------------------------------------- weighted spread

  /** np.average(values, weights). */
  function WeightedMean(values: seq<real>, weights: seq<real>): real
    requires |values| == |weights| && Sum(weights) != 0.0
  {
    WeightedSum(values, weights) / Sum(weights)
  }

  /** The weighted average of equal values is that value, whatever the weights. */
  lemma {:induction false} WeightedMeanOfEqualValues(values: seq<real>, weights: seq<real>)
    requires |values| == |weights| > 0 && Sum(weights) != 0.0
    requires forall i :: 0 <= i < |values| ==> values[i] == values[0]
    ensures WeightedMean(values, weights) == values[0]
  {
    WeightedSumOfConstantValues(values, weights, values[0]);
    CancelWeight(WeightedSum(values, weights), values[0], Sum(weights));
  }

  /** np.average((values - mean)², weights). */
  function WeightedVariance(values: seq<real>, weights: seq<real>): (r: real)
    requires |values| == |weights| && Sum(weights) != 0.0
    ensures NonNegative(weights) ==> 0.0 <= r
  {
    var r := WeightedSqDev(values, weights, WeightedMean(values, weights)) / Sum(weights);
    assert NonNegative(weights) ==> 0.0 <= r by {
      if NonNegative(weights) {
        DivNonNegative(WeightedSqDev(values, weights, WeightedMean(values, weights)), Sum(weights));
      }
    }
    r
  }

  /** The weighted standard deviation; 0 when there is nothing to weigh. With non-negative
      weights it is the non-negative square root of the weighted variance. */
  function WeightedStd(values: seq<real>, weights: seq<real>, sqrt: real -> real): (r: real)
    requires |values| == |weights| && IsSqrt(sqrt)
    ensures |values| == 0 || Sum(weights) == 0.0 ==> r == 0.0
    ensures |values| > 0 && Sum(weights) != 0.0 && NonNegative(weights) ==>
      0.0 <= r && Square(r) == WeightedVariance(values, weights)
  {
    if |values| == 0 || Sum(weights) == 0.0 then 0.0
    else sqrt(WeightedVariance(values, weights))
  }

  /** With positive weights the spread is zero exactly when all values coincide. */
  lemma WeightedStdZeroIff(values: seq<real>, weights: seq<real>, sqrt: real -> real)
    requires |values| == |weights| > 0 && Positive(weights) && IsSqrt(sqrt)
    ensures WeightedStd(values, weights, sqrt) == 0.0 <==>
      forall i :: 0 <= i < |values| ==> values[i] == values[0]
  {
    assert 0.0 < Sum(weights) by { PositiveSum(weights); }
    var mu := WeightedMean(values, weights);
    var dev := WeightedSqDev(values, weights, mu);
    WeightedSqDevZeroIff(values, weights, mu);
    if forall i :: 0 <= i < |values| ==> values[i] == values[0] {
      WeightedSumOfConstantValues(values, weights, values[0]);
      assert mu == values[0];
    } else {
      var i :| 0 <= i < |values| && values[i] != values[0];
      assert values[i] != mu || values[0] != mu;
      assert dev != 0.0;
      assert 0.0 < dev / Sum(weights);
    }
  }

  /** A non-empty sequence of positive weights has a positive sum. */
  lemma {:induction false} PositiveSum(ws: seq<real>)
    requires |ws| > 0 && Positive(ws)
    ensures 0.0 < Sum(ws)
  {
    if |ws| > 1 {
      PositiveSum(ws[1..]);
    }
  }

  /** Uniform weights do not change the spread: it is the square root of the population
      variance, as np.std computes it. */
  lemma {:induction false} WeightedStdOfUniformWeights(values: seq<real>, weights: seq<real>, c: real, sqrt: real -> real)
    requires |values| == |weights| > 0 && IsSqrt(sqrt)
    requires 0.0 < c && forall i :: 0 <= i < |weights| ==> weights[i] == c
    ensures WeightedStd(values, weights, sqrt) == sqrt(PopVariance(values))
  {
    UniformWeightedMean(values, weights, c);
    UniformWeightedVariance(values, weights, c);
  }

  /** Equal positive weights give the plain mean. */
  lemma {:induction false} UniformWeightedMean(values: seq<real>, weights: seq<real>, c: real)
    requires |values| == |weights| > 0
    requires 0.0 < c && forall i :: 0 <= i < |weights| ==> weights[i] == c
    ensures Sum(weights) != 0.0 && WeightedMean(values, weights) == Mean(values)
  {
    var n := |values| as real;
    SumOfConstant(weights, c);
    WeightedSumOfConstant(values, weights, c);
    MulPositive(c, n);
    CancelFactor(WeightedSum(values, weights), Sum(weights), c, Sum(values), n);
  }

  /** Equal positive weights give the population variance. */
  lemma {:induction false} UniformWeightedVariance(values: seq<real>, weights: seq<real>, c: real)
    requires |values| == |weights| > 0
    requires 0.0 < c && forall i :: 0 <= i < |weights| ==> weights[i] == c
    requires Sum(weights) != 0.0 && WeightedMean(values, weights) == Mean(values)
    ensures WeightedVariance(values, weights) == PopVariance(values)
  {
    UniformSqDevQuotient(values, weights, c, Mean(values));
  }

  /** With equal weights c, Σc(x − mu)²/Σc is Σ(x − mu)²/n. */
  lemma {:induction false} UniformSqDevQuotient(values: seq<real>, weights: seq<real>, c: real, mu: real)
    requires |values| == |weights| > 0
    requires 0.0 < c && forall i :: 0 <= i < |weights| ==> weights[i] == c
    requires Sum(weights) != 0.0
    ensures WeightedSqDev(values, weights, mu) / Sum(weights) == SqDev(values, mu) / (|values| as real)
  {
    SumOfConstant(weights, c);
    WeightedSqDevOfConstant(values, weights, c, mu);
    CancelFactor(WeightedSqDev(values, weights, mu), Sum(weights), c, SqDev(values, mu), |values| as real);
  }

  lemma CancelWeight(p: real, v: real, k: real)
    requires k != 0.0 && p == v * k
    ensures p / k == v
  {}

  lemma CancelFactor(p: real, q: real, c: real, a: real, n: real)
    requires c != 0.0 && n != 0.0 && p == c * a && q == c * n
    ensures p / q == a / n
  {}

  // ---------------------------------------------------------------- experiment format

  /** Column 0 converted from millimetres to metres; empty cells stay empty. */
  function ScaleDistances(rows: seq<seq<Option<real>>>): (r: seq<seq<Option<real>>>)
    requires HasColumn(rows, 0)
    ensures |r| == |rows|
    ensures forall i :: 0 <= i < |rows| ==>
      |r[i]| == |rows[i]| && r[i][1..] == rows[i][1..] && r[i][0].Some? == rows[i][0].Some? &&
      (rows[i][0].Some? ==> r[i][0].value == MillimetresToMetres * rows[i][0].value)
  {
    seq(|rows|, i requires 0 <= i < |rows| =>
      [if rows[i][0].Some? then Some(MillimetresToMetres * rows[i][0].value) else None] + rows[i][1..])
  }

  /** The in-place rescaling of the distance column of the frame, one row at a time. */
  method RescaleDistances(rows: array<seq<Option<real>>>)
    requires HasColumn(rows[..], 0)
    modifies rows
    ensures rows[..] == ScaleDistances(old(rows[..]))
  {
    ghost var original := rows[..];
    for i := 0 to rows.Length
      invariant rows[..i] == ScaleDistances(original)[..i]
      invariant rows[i..] == original[i..]
    {
      var row := rows[i];
      assert row == original[i];
      var d := if row[0].Some? then Some(MillimetresToMetres * row[0].value) else None;
      rows[i] := [d] + row[1..];
    }
  }

  /** The row mask: a count is present and non-zero, and the distance is present. A kept
      row therefore has both cells to read. */
  predicate KeepRow(row: seq<Option<real>>, col: nat)
    requires col < |row|
    ensures KeepRow(row, col) ==> row[0].Some? && row[col].Some?
  {
    row[col].Some? && row[col].value != 0.0 && row[0].Some?
  }

  /** The rows the mask keeps, in order. */
  function KeptRows(rows: seq<seq<Option<real>>>, col: nat): (k: seq<nat>)
    requires HasColumn(rows, col)
    ensures forall j :: 0 <= j < |k| ==> k[j] < |rows|
    ensures forall j, j' :: 0 <= j < j' < |k| ==> k[j] < k[j']
    ensures forall i :: 0 <= i < |rows| ==> (i in k <==> KeepRow(rows[i], col))
  {
    if rows == [] then []
    else
      var n := |rows| - 1;
      KeptRows(rows[..n], col) + if KeepRow(rows[n], col) then [n] else []
  }

  /** The distances and counts of the rows that pass the mask, in row order. */
  function AxisSamples(rows: seq<seq<Option<real>>>, col: nat): (s: Samples)
    requires HasColumn(rows, col)
    ensures |s.distances| == |s.weights| == |KeptRows(rows, col)|
    ensures forall j :: 0 <= j < |s.weights| ==> s.weights[j] != 0.0
  {
    if rows == [] then Samples([], [])
    else
      var n := |rows| - 1;
      var s := AxisSamples(rows[..n], col);
      if KeepRow(rows[n], col) then
        Samples(s.distances + [rows[n][0].value], s.weights + [rows[n][col].value])
      else s
  }

  /** Sample j is the distance and count of row k[j], for every j. */
  predicate Selects(rows: seq<seq<Option<real>>>, col: nat, k: seq<nat>, s: Samples)
    requires HasColumn(rows, col)
  {
    |s.distances| == |s.weights| == |k| &&
    forall j :: 0 <= j < |k| ==>
      k[j] < |rows| && rows[k[j]][0].Some? && rows[k[j]][col].Some? &&
      s.distances[j] == rows[k[j]][0].value && s.weights[j] == rows[k[j]][col].value
  }

  /** The samples of an axis are the distances and counts of the kept rows, in order. */
  lemma {:induction false} AxisSamplesSelect(rows: seq<seq<Option<real>>>, col: nat)
    requires HasColumn(rows, col)
    ensures Selects(rows, col, KeptRows(rows, col), AxisSamples(rows, col))
  {
    if rows != [] {
      var n := |rows| - 1;
      AxisSamplesSelect(rows[..n], col);
      var s, k := AxisSamples(rows, col), KeptRows(rows, col);
      var s', k' := AxisSamples(rows[..n], col), KeptRows(rows[..n], col);
      forall j | 0 <= j < |k|
        ensures k[j] < |rows| && rows[k[j]][0].Some? && rows[k[j]][col].Some? &&
          s.distances[j] == rows[k[j]][0].value && s.weights[j] == rows[k[j]][col].value
      {
        if j < |k'| {
          assert k[j] == k'[j] && s.distances[j] == s'.distances[j] && s.weights[j] == s'.weights[j];
          assert rows[..n][k'[j]] == rows[k'[j]];
        } else {
          assert KeepRow(rows[n], col) && k[j] == n;
          assert s.distances == s'.distances + [rows[n][0].value];
          assert s.weights == s'.weights + [rows[n][col].value];
        }
      }
    }
  }

  /** Scaling column 0 does not change which rows pass the mask. */
  lemma {:induction false} KeptRowsOfScaled(rows: seq<seq<Option<real>>>, col: nat)
    requires 1 <= col && HasColumn(rows, col)
    ensures KeptRows(ScaleDistances(rows), col) == KeptRows(rows, col)
  {
    if rows != [] {
      var n := |rows| - 1;
      assert ScaleDistances(rows)[..n] == ScaleDistances(rows[..n]);
      KeptRowsOfScaled(rows[..n], col);
      assert ScaleDistances(rows)[n][col] == rows[n][1..][col - 1] == rows[n][col];
    }
  }

  /** read_excel_data: distances in metres and counts for column 1 (x) and column 2 (y).
      A table narrower than three columns has no column 2 to index. */
  function ReadExcelData(path: string, t: Table): (r: Result<(Samples, Samples), ReadError>)
    ensures r.Failure? <==> t.width < 3
    ensures r.Failure? ==> r.error == MissingColumn(path)
  {
    if t.width < 3 then Failure(MissingColumn(path))
    else
      var scaled := ScaleDistances(t.rows);
      Success((AxisSamples(scaled, 1), AxisSamples(scaled, 2)))
  }

  /** What read_excel_data yields for one axis: sample j is the j-th row whose count is present
      and non-zero and whose distance is present, its distance converted to metres and its
      count unchanged. */
  lemma ReadExcelDataSamples(path: string, t: Table, col: nat)
    requires 3 <= t.width && (col == 1 || col == 2)
    ensures var s := if col == 1 then ReadExcelData(path, t).value.0 else ReadExcelData(path, t).value.1;
      var k := KeptRows(t.rows, col);
      |s.distances| == |s.weights| == |k| &&
      forall j :: 0 <= j < |k| ==>
        s.distances[j] == MillimetresToMetres * t.rows[k[j]][0].value &&
        s.weights[j] == t.rows[k[j]][col].value
  {
    var scaled := ScaleDistances(t.rows);
    KeptRowsOfScaled(t.rows, col);
    AxisSamplesSelect(scaled, col);
    var k := KeptRows(t.rows, col);
    forall j | 0 <= j < |k|
      ensures scaled[k[j]][col] == t.rows[k[j]][col]
    {
      assert scaled[k[j]][col] == t.rows[k[j]][1..][col - 1];
    }
  }

  // ---------------------------------------------------------------- experiment pipeline

  /** The positions of the files that exist, in increasing order. */
  function ExistingIndices(files: seq<string>, fileExists: string -> bool): (k: seq<nat>)
    ensures forall j :: 0 <= j < |k| ==> k[j] < |files|
    ensures forall j, j' :: 0 <= j < j' < |k| ==> k[j] < k[j']
    ensures forall i :: 0 <= i < |files| ==> (i in k <==> fileExists(files[i]))
  {
    if files == [] then []
    else
      var n := |files| - 1;
      ExistingIndices(files[..n], fileExists) + if fileExists(files[n]) then [n] else []
  }

  /** The files of the list that exist, in order. */
  function Existing(files: seq<string>, fileExists: string -> bool): (e: seq<string>)
    ensures |e| <= |files|
    ensures forall f :: f in e <==> f in files && fileExists(f)
  {
    if files == [] then []
    else
      var n := |files| - 1;
      Existing(files[..n], fileExists) + if fileExists(files[n]) then [files[n]] else []
  }

  /** Entry j of the existing files is the file at the j-th existing position: the order of
      the list is kept, and a file listed twice is kept twice. */
  lemma {:induction false} ExistingInOrder(files: seq<string>, fileExists: string -> bool)
    ensures |Existing(files, fileExists)| == |ExistingIndices(files, fileExists)|
    ensures forall j :: 0 <= j < |Existing(files, fileExists)| ==>
      Existing(files, fileExists)[j] == files[ExistingIndices(files, fileExists)[j]]
  {
    if files != [] {
      var n := |files| - 1;
      ExistingInOrder(files[..n], fileExists);
      var e, k := Existing(files, fileExists), ExistingIndices(files, fileExists);
      var e', k' := Existing(files[..n], fileExists), ExistingIndices(files[..n], fileExists);
      forall j | 0 <= j < |e|
        ensures e[j] == files[k[j]]
      {
        if j < |e'| {
          assert e[j] == e'[j] && k[j] == k'[j];
          assert files[..n][k'[j]] == files[k'[j]];
        }
      }
    }
  }

  /** The spreads along x and y of one data set; non-negative counts give non-negative
      spreads. */
  function Spreads(s: (Samples, Samples), sqrt: real -> real): (r: (real, real))
    requires |s.0.distances| == |s.0.weights| && |s.1.distances| == |s.1.weights| && IsSqrt(sqrt)
    ensures NonNegative(s.0.weights) ==> 0.0 <= r.0
    ensures NonNegative(s.1.weights) ==> 0.0 <= r.1
  {
    (WeightedStd(s.0.distances, s.0.weights, sqrt), WeightedStd(s.1.distances, s.1.weights, sqrt))
  }

  /** process_data_files as a function of the file list: the spreads of every existing file in
      order, or the error of the first existing file that cannot be read. */
  function SpreadsOf(files: seq<string>, fileExists: string -> bool, read: string -> Table,
                     sqrt: real -> real): (r: Result<(seq<real>, seq<real>), ReadError>)
    requires IsSqrt(sqrt)
    ensures r.Success? ==> |r.value.0| == |r.value.1| == |Existing(files, fileExists)|
  {
    if files == [] then Success(([], []))
    else
      var n := |files| - 1;
      var f := files[n];
      match SpreadsOf(files[..n], fileExists, read, sqrt)
      case Failure(e) => Failure(e)
      case Success(acc) =>
        if !fileExists(f) then Success(acc)
        else
          match ReadExcelData(f, read(f))
          case Failure(e) => Failure(e)
          case Success(s) =>
            assert |s.0.distances| == |s.0.weights| && |s.1.distances| == |s.1.weights|;
            var (sx, sy) := Spreads(s, sqrt);
            Success((acc.0 + [sx], acc.1 + [sy]))
  }

  /** The run fails exactly when some existing file has fewer than three columns. */
  lemma {:induction false} SpreadsOfFailure(files: seq<string>, fileExists: string -> bool,
                                           read: string -> Table, sqrt: real -> real)
    requires IsSqrt(sqrt)
    ensures SpreadsOf(files, fileExists, read, sqrt).Failure? <==>
      exists i :: 0 <= i < |files| && fileExists(files[i]) && read(files[i]).width < 3
  {
    if files != [] {
      var n := |files| - 1;
      SpreadsOfFailure(files[..n], fileExists, read, sqrt);
      if exists i :: 0 <= i < n && fileExists(files[..n][i]) && read(files[..n][i]).width < 3 {
        var i :| 0 <= i < n && fileExists(files[..n][i]) && read(files[..n][i]).width < 3;
        assert files[i] == files[..n][i];
      }
      if exists i :: 0 <= i < |files| && fileExists(files[i]) && read(files[i]).width < 3 {
        var i :| 0 <= i < |files| && fileExists(files[i]) && read(files[i]).width < 3;
        if i < n {
          assert files[..n][i] == files[i];
        }
      }
    }
  }

  /** On success, entry j is the pair of spreads of the j-th existing file. */
  lemma {:induction false} SpreadsOfElements(files: seq<string>, fileExists: string -> bool,
                                            read: string -> Table, sqrt: real -> real)
    requires IsSqrt(sqrt)
    requires SpreadsOf(files, fileExists, read, sqrt).Success?
    ensures var r, e := SpreadsOf(files, fileExists, read, sqrt).value, Existing(files, fileExists);
      forall j :: 0 <= j < |e| ==>
        ReadExcelData(e[j], read(e[j])).Success? &&
        (r.0[j], r.1[j]) == Spreads(ReadExcelData(e[j], read(e[j])).value, sqrt)
  {
    if files != [] {
      var n := |files| - 1;
      SpreadsOfElements(files[..n], fileExists, read, sqrt);
      var e, e' := Existing(files, fileExists), Existing(files[..n], fileExists);
      var r, r' := SpreadsOf(files, fileExists, read, sqrt).value, SpreadsOf(files[..n], fileExists, read, sqrt).value;
      assert r.0[..|e'|] == r'.0 && r.1[..|e'|] == r'.1;
      forall j | 0 <= j < |e|
        ensures ReadExcelData(e[j], read(e[j])).Success? &&
          (r.0[j], r.1[j]) == Spreads(ReadExcelData(e[j], read(e[j])).value, sqrt)
      {
        if j < |e'| {
          assert e[j] == e'[j] && r.0[j] == r'.0[j] && r.1[j] == r'.1[j];
        }
      }
    }
  }

  /** process_data_files: the loop over the file list. The field values pass through
      unchanged. */
  method ProcessDataFiles(files: seq<string>, fieldValues: seq<real>, fileExists: string -> bool,
                          read: string -> Table, sqrt: real -> real)
    returns (r: Result<(seq<real>, seq<real>, seq<real>), ReadError>)
    requires IsSqrt(sqrt)
    ensures r.Success? <==> SpreadsOf(files, fileExists, read, sqrt).Success?
    ensures r.Success? ==>
      (r.value.0, r.value.1) == SpreadsOf(files, fileExists, read, sqrt).value && r.value.2 == fieldValues
    ensures r.Failure? ==> r.error == SpreadsOf(files, fileExists, read, sqrt).error
  {
    var col2: seq<real> := [];
    var col3: seq<real> := [];
    for i := 0 to |files|
      invariant SpreadsOf(files[..i], fileExists, read, sqrt) == Success((col2, col3))
    {
      assert files[..i + 1][..i] == files[..i];
      var f := files[i];
      if fileExists(f) {
        var data := ReadExcelData(f, read(f));
        if data.Failure? {
          assert SpreadsOf(files[..i + 1], fileExists, read, sqrt).Failure?;
          PrefixFailure(files, i + 1, fileExists, read, sqrt);
          return Failure(data.error);
        }
        var s := data.value;
        col2 := col2 + [WeightedStd(s.0.distances, s.0.weights, sqrt)];
        col3 := col3 + [WeightedStd(s.1.distances, s.1.weights, sqrt)];
      }
    }
    assert files[..|files|] == files;
    return Success((col2, col3, fieldValues));
  }

  /** A failure in a prefix of the list is the failure of the whole list. */
  lemma {:induction false} PrefixFailure(files: seq<string>, i: nat, fileExists: string -> bool,
                                        read: string -> Table, sqrt: real -> real)
    requires IsSqrt(sqrt) && i <= |files|
    requires SpreadsOf(files[..i], fileExists, read, sqrt).Failure?
    ensures SpreadsOf(files, fileExists, read, sqrt) == SpreadsOf(files[..i], fileExists, read, sqrt)
    decreases |files| - i
  {
    if i < |files| {
      assert files[..i + 1][..i] == files[..i];
      PrefixFailure(files, i + 1, fileExists, read, sqrt);
    } else {
      assert files[..i] == files;
    }
  }

  // ---------------------------------------------------------------- modelling format

  /** check_excel_structure: a width that differs from the expected one is an error when the
      processing type is modelling and the width is not two, or when it is experiment and the
      width is two. */
  function CheckExcelStructure(path: string, width: nat, expectedCols: nat, dataType: string): (r: Option<ReadError>)
    ensures r.Some? ==> width != expectedCols
    ensures r == Some(ModellingStructure(path)) <==> width != expectedCols && dataType == "modelling" && width != 2
    ensures r == Some(ExperimentStructure(path)) <==> width != expectedCols && dataType == "experiment" && width == 2
    ensures r.None? || r == Some(ModellingStructure(path)) || r == Some(ExperimentStructure(path))
  {
    if width != expectedCols then
      if dataType == "modelling" && width != 2 then Some(ModellingStructure(path))
      else if dataType == "experiment" && width == 2 then Some(ExperimentStructure(path))
      else None
    else None
  }

  /** As the modelling pipeline calls it (two expected columns), the check rejects exactly the
      modelling files whose width is not two; its experiment branch can never fire. */
  lemma CheckExcelStructureForTwo(path: string, width: nat, dataType: string)
    ensures CheckExcelStructure(path, width, 2, dataType).Some? <==> dataType == "modelling" && width != 2
    ensures CheckExcelStructure(path, width, 2, dataType) != Some(ExperimentStructure(path))
  {}

  /** Column col of a table, every cell as read. */
  function Column(rows: seq<seq<Option<real>>>, col: nat): (c: seq<Option<real>>)
    requires HasColumn(rows, col)
    ensures |c| == |rows| && forall i :: 0 <= i < |rows| ==> c[i] == rows[i][col]
  {
    seq(|rows|, i requires 0 <= i < |rows| => rows[i][col])
  }

  /** Millimetres to metres, cell by cell; an empty cell (NaN) stays empty. */
  function ToMetres(c: seq<Option<real>>): (m: seq<Option<real>>)
    ensures |m| == |c|
    ensures forall i :: 0 <= i < |c| ==>
      m[i].Some? == c[i].Some? && (c[i].Some? ==> m[i].value == MillimetresToMetres * c[i].value)
  {
    seq(|c|, i requires 0 <= i < |c| => if c[i].Some? then Some(MillimetresToMetres * c[i].value) else None)
  }

  /** read_excel_data_modelling: the x and y columns in metres, with unit weights. */
  function ReadExcelDataModelling(path: string, t: Table): (r: Result<(seq<Option<real>>, seq<Option<real>>, seq<real>), ReadError>)
    ensures r.Failure? <==> t.width != 2
    ensures r.Failure? ==> r.error == NotModellingFormat(path)
    ensures r.Success? ==>
      |r.value.0| == |r.value.1| == |r.value.2| == |t.rows| &&
      forall i :: 0 <= i < |t.rows| ==> r.value.2[i] == 1.0
    ensures r.Success? ==> forall i :: 0 <= i < |t.rows| ==>
      r.value.0[i].Some? == t.rows[i][0].Some? && r.value.1[i].Some? == t.rows[i][1].Some? &&
      (t.rows[i][0].Some? ==> r.value.0[i].value == MillimetresToMetres * t.rows[i][0].value) &&
      (t.rows[i][1].Some? ==> r.value.1[i].value == MillimetresToMetres * t.rows[i][1].value)
  {
    if t.width != 2 then Failure(NotModellingFormat(path))
    else
      Success((ToMetres(Column(t.rows, 0)), ToMetres(Column(t.rows, 1)), seq(|t.rows|, _ => 1.0)))
  }

  /** The values of a column none of whose cells is empty. */
  function Values(c: seq<Option<real>>): (v: seq<real>)
    requires forall i :: 0 <= i < |c| ==> c[i].Some?
    ensures |v| == |c| && forall i :: 0 <= i < |c| ==> v[i] == c[i].value
  {
    seq(|c|, i requires 0 <= i < |c| => c[i].value)
  }

  /** np.std of a column: None (NaN) when it is empty or has an empty cell, otherwise the square
      root of the population variance. */
  function Std(c: seq<Option<real>>, sqrt: real -> real): (r: Option<real>)
    requires IsSqrt(sqrt)
    ensures r.Some? <==> |c| > 0 && forall i :: 0 <= i < |c| ==> c[i].Some?
    ensures r.Some? ==> 0.0 <= r.value && Square(r.value) == PopVariance(Values(c))
  {
    if |c| > 0 && forall i :: 0 <= i < |c| ==> c[i].Some? then Some(sqrt(PopVariance(Values(c))))
    else None
  }

  /** The modelling reader's unit weights make np.std the weighted spread of the experiment
      format. */
  lemma StdIsUnitWeightedStd(c: seq<Option<real>>, sqrt: real -> real)
    requires IsSqrt(sqrt) && |c| > 0 && forall i :: 0 <= i < |c| ==> c[i].Some?
    ensures Std(c, sqrt) == Some(WeightedStd(Values(c), seq(|c|, _ => 1.0), sqrt))
  {
    WeightedStdOfUniformWeights(Values(c), seq(|c|, _ => 1.0), 1.0, sqrt);
  }

  /** The outcome of one existing modelling file: the structure check, then the reader. */
  function ModellingSpreads(f: string, t: Table, dataType: string, sqrt: real -> real)
    : (r: Result<(Option<real>, Option<real>), ReadError>)
    requires IsSqrt(sqrt)
    ensures r.Failure? <==> t.width != 2
    ensures r.Failure? ==>
      r.error == if dataType == "modelling" then ModellingStructure(f) else NotModellingFormat(f)
  {
    match CheckExcelStructure(f, t.width, 2, dataType)
    case Some(e) => Failure(e)
    case None =>
      match ReadExcelDataModelling(f, t)
      case Failure(e) => Failure(e)
      case Success((x, y, _)) => Success((Std(x, sqrt), Std(y, sqrt)))
  }

  /** process_data_files_modelling as a function of the file list. */
  function ModellingSpreadsOf(files: seq<string>, fileExists: string -> bool, read: string -> Table,
                              dataType: string, sqrt: real -> real)
    : (r: Result<(seq<Option<real>>, seq<Option<real>>), ReadError>)
    requires IsSqrt(sqrt)
    ensures r.Success? ==> |r.value.0| == |r.value.1| == |Existing(files, fileExists)|
  {
    if files == [] then Success(([], []))
    else
      var n := |files| - 1;
      var f := files[n];
      match ModellingSpreadsOf(files[..n], fileExists, read, dataType, sqrt)
      case Failure(e) => Failure(e)
      case Success(acc) =>
        if !fileExists(f) then Success(acc)
        else
          match ModellingSpreads(f, read(f), dataType, sqrt)
          case Failure(e) => Failure(e)
          case Success((sx, sy)) => Success((acc.0 + [sx], acc.1 + [sy]))
  }

  /** Whatever the processing type, the modelling run fails exactly when some existing file
      does not have two columns. */
  lemma {:induction false} ModellingSpreadsOfFailure(files: seq<string>, fileExists: string -> bool,
                                                    read: string -> Table, dataType: string,
                                                    sqrt: real -> real)
    requires IsSqrt(sqrt)
    ensures ModellingSpreadsOf(files, fileExists, read, dataType, sqrt).Failure? <==>
      exists i :: 0 <= i < |files| && fileExists(files[i]) && read(files[i]).width != 2
  {
    if files != [] {
      var n := |files| - 1;
      ModellingSpreadsOfFailure(files[..n], fileExists, read, dataType, sqrt);
      if exists i :: 0 <= i < n && fileExists(files[..n][i]) && read(files[..n][i]).width != 2 {
        var i :| 0 <= i < n && fileExists(files[..n][i]) && read(files[..n][i]).width != 2;
        assert files[i] == files[..n][i];
      }
      if exists i :: 0 <= i < |files| && fileExists(files[i]) && read(files[i]).width != 2 {
        var i :| 0 <= i < |files| && fileExists(files[i]) && read(files[i]).width != 2;
        if i < n {
          assert files[..n][i] == files[i];
        }
      }
    }
  }

  /** On success, entry j is np.std of the x and y columns, in metres, of the j-th existing
      file. */
  lemma {:induction false} ModellingSpreadsOfElements(files: seq<string>, fileExists: string -> bool,
                                                     read: string -> Table, dataType: string,
                                                     sqrt: real -> real)
    requires IsSqrt(sqrt)
    requires ModellingSpreadsOf(files, fileExists, read, dataType, sqrt).Success?
    ensures var r, e := ModellingSpreadsOf(files, fileExists, read, dataType, sqrt).value, Existing(files, fileExists);
      forall j :: 0 <= j < |e| ==>
        read(e[j]).width == 2 &&
        r.0[j] == Std(ToMetres(Column(read(e[j]).rows, 0)), sqrt) &&
        r.1[j] == Std(ToMetres(Column(read(e[j]).rows, 1)), sqrt)
  {
    if files != [] {
      var n := |files| - 1;
      ModellingSpreadsOfElements(files[..n], fileExists, read, dataType, sqrt);
      var e, e' := Existing(files, fileExists), Existing(files[..n], fileExists);
      var r := ModellingSpreadsOf(files, fileExists, read, dataType, sqrt).value;
      var r' := ModellingSpreadsOf(files[..n], fileExists, read, dataType, sqrt).value;
      assert r.0[..|e'|] == r'.0 && r.1[..|e'|] == r'.1;
      forall j | 0 <= j < |e|
        ensures read(e[j]).width == 2 &&
          r.0[j] == Std(ToMetres(Column(read(e[j]).rows, 0)), sqrt) &&
          r.1[j] == Std(ToMetres(Column(read(e[j]).rows, 1)), sqrt)
      {
        if j < |e'| {
          assert e[j] == e'[j] && r.0[j] == r'.0[j] && r.1[j] == r'.1[j];
        }
      }
    }
  }

  /** process_data_files_modelling: the loop over the file list; field values pass through. */
  method ProcessDataFilesModelling(files: seq<string>, fieldValues: seq<real>, fileExists: string -> bool,
                                   read: string -> Table, dataType: string, sqrt: real -> real)
    returns (r: Result<(seq<Option<real>>, seq<Option<real>>, seq<real>), ReadError>)
    requires IsSqrt(sqrt)
    ensures r.Success? <==> ModellingSpreadsOf(files, fileExists, read, dataType, sqrt).Success?
    ensures r.Success? ==>
      (r.value.0, r.value.1) == ModellingSpreadsOf(files, fileExists, read, dataType, sqrt).value &&
      r.value.2 == fieldValues
    ensures r.Failure? ==> r.error == ModellingSpreadsOf(files, fileExists, read, dataType, sqrt).error
  {
    var stdX: seq<Option<real>> := [];
    var stdY: seq<Option<real>> := [];
    for i := 0 to |files|
      invariant ModellingSpreadsOf(files[..i], fileExists, read, dataType, sqrt) == Success((stdX, stdY))
    {
      assert files[..i + 1][..i] == files[..i];
      var f := files[i];
      if fileExists(f) {
        var t := read(f);
        var check := CheckExcelStructure(f, t.width, 2, dataType);
        if check.Some? {
          ModellingPrefixFailure(files, i + 1, fileExists, read, dataType, sqrt);
          return Failure(check.value);
        }
        var data := ReadExcelDataModelling(f, t);
        if data.Failure? {
          ModellingPrefixFailure(files, i + 1, fileExists, read, dataType, sqrt);
          return Failure(data.error);
        }
        var (x, y, _) := data.value;
        stdX := stdX + [Std(x, sqrt)];
        stdY := stdY + [Std(y, sqrt)];
      }
    }
    assert files[..|files|] == files;
    return Success((stdX, stdY, fieldValues));
  }

  lemma {:induction false} ModellingPrefixFailure(files: seq<string>, i: nat, fileExists: string -> bool,
                                                 read: string -> Table, dataType: string, sqrt: real -> real)
    requires IsSqrt(sqrt) && i <= |files|
    requires ModellingSpreadsOf(files[..i], fileExists, read, dataType, sqrt).Failure?
    ensures ModellingSpreadsOf(files, fileExists, read, dataType, sqrt) ==
      ModellingSpreadsOf(files[..i], fileExists, read, dataType, sqrt)
    decreases |files| - i
  {
    if i < |files| {
      assert files[..i + 1][..i] == files[..i];
      ModellingPrefixFailure(files, i + 1, fileExists, read, dataType, sqrt);
    } else {
      assert files[..i] == files;
    }
  }
}
