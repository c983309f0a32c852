// Frame corruption detection for YUY2 frames: a size-ratio check, a stride
// alignment check and a sampled adjacent-row difference, at four levels of
// strictness.

module FrameValidation {
  import opened Common

  /** Rows whose sampled Y values differ more than this on average are banded. */
  const STRICT_ROW_DIFF_THRESHOLD: real := 40.0

  datatype ValidationLevel = Strict | Moderate | Minimal | Off

  /** The level used when none is configured. */
  const DEFAULT_LEVEL: ValidationLevel := Strict

  /** ASCII lower case of one character. */
  function LowerChar(c: char): (l: char)
    ensures 'A' <= c <= 'Z' ==> l as int == c as int + 32
    ensures !('A' <= c <= 'Z') ==> l == c
  {
    if 'A' <= c <= 'Z' then (c as int + 32) as char else c
  }

  function Lower(s: string): (l: string)
    ensures |l| == |s|
    ensures forall i :: 0 <= i < |s| ==> l[i] == LowerChar(s[i])
  {
    if |s| == 0 then [] else [LowerChar(s[0])] + Lower(s[1..])
  }

  /** Lower-casing twice is lower-casing once. */
  lemma LowerIdempotent(s: string)
    ensures Lower(Lower(s)) == Lower(s)
  {
    var l := Lower(s);
    forall i | 0 <= i < |s| ensures Lower(l)[i] == l[i] {
      assert LowerChar(LowerChar(s[i])) == LowerChar(s[i]);
    }
  }

  /** The validation level named by an environment string, read without regard to case. */
  function FromEnvStr(s: string): (level: ValidationLevel)
    ensures level == Off <==> Lower(s) in {"off", "none", "disabled"}
    ensures level == Moderate <==> Lower(s) == "moderate"
    ensures level == Minimal <==> Lower(s) == "minimal"
    ensures level == Strict <==> !(Lower(s) in {"moderate", "minimal", "off", "none", "disabled"})
  {
    match Lower(s)
    case "strict" => Strict
    case "moderate" => Moderate
    case "minimal" => Minimal
    case "off" => Off
    case "none" => Off
    case "disabled" => Off
    case _ => Strict
  }

  /** Strings that differ only in case name the same level, and lower-casing a name keeps its level. */
  lemma FromEnvStrCaseInsensitive(s: string, t: string)
    requires Lower(s) == Lower(t)
    ensures FromEnvStr(s) == FromEnvStr(t)
    ensures FromEnvStr(Lower(s)) == FromEnvStr(s)
  {
    LowerIdempotent(s);
  }

  lemma FromEnvStrExamples()
    ensures FromEnvStr("STRICT") == Strict
    ensures FromEnvStr("None") == Off
    ensures FromEnvStr("invalid") == Strict
  {
    LowerLiteral("STRICT", "strict");
    LowerLiteral("None", "none");
    LowerLiteral("invalid", "invalid");
  }

  lemma LowerLiteral(s: string, l: string)
    requires |s| == |l| && forall i :: 0 <= i < |s| ==> LowerChar(s[i]) == l[i]
    ensures Lower(s) == l
  {
  }

  // ---------------------------------------------------------------------
  // Row similarity

  /** A running sum of absolute differences and the number of samples in it. */
  datatype Tally = Tally(total: nat, samples: nat)
  {
    function Add(other: Tally): Tally
    {
      Tally(total + other.total, samples + other.samples)
    }
  }

  /** Sample positions in a row: every 32nd byte, i.e. every 16th pixel's Y value. */
  function Positions(stride: nat): nat
  {
    (stride + 31) / 32
  }

  /** A sample index whose offset is less than one step past the row is at most the number of positions, and equal to it once the offset reaches the row's end. */
  lemma PositionsBound(stride: nat, k: nat)
    requires 32 * k < stride + 32
    ensures k <= Positions(stride)
    ensures stride <= 32 * k ==> k == Positions(stride)
  {
  }

  /**
   * Sample `j` between row `row` and the next: the difference of the two Y
   * values at byte `32*j`, when the lower row's byte lies inside the data.
   */
  function Sample(data: seq<byte>, stride: nat, row: nat, j: nat): (t: Tally)
    ensures t.samples <= 1 && t.total <= 255 * t.samples
  {
    if row * stride + stride + 32 * j < |data| then
      Tally(AbsDiff(data[row * stride + 32 * j], data[row * stride + stride + 32 * j]), 1)
    else
      Tally(0, 0)
  }

  /** Sample `j` read through the byte offsets of the upper and lower row. */
  lemma SampleAt(data: seq<byte>, stride: nat, row: nat, j: nat, upper: nat, lower: nat)
    requires upper == row * stride + 32 * j && lower == upper + stride && lower < |data|
    ensures Sample(data, stride, row, j) == Tally(AbsDiff(data[upper], data[lower]), 1)
  {
  }

  /** Samples 0 to k-1 between row `row` and the next. */
  function RowTally(data: seq<byte>, stride: nat, row: nat, k: nat): Tally
  {
    if k == 0 then Tally(0, 0) else RowTally(data, stride, row, k - 1).Add(Sample(data, stride, row, k - 1))
  }

  /** All samples of the first `rows` row pairs. */
  function Totals(data: seq<byte>, stride: nat, rows: nat): Tally
  {
    if rows == 0 then Tally(0, 0) else Totals(data, stride, rows - 1).Add(RowTally(data, stride, rows - 1, Positions(stride)))
  }

  /** The row pairs examined: at most three, and never past the last row. */
  function RowsToCheck(height: nat): nat
    requires height >= 1
  {
    Min(3, height - 1)
  }

  /** The average sampled difference between adjacent rows, 0 when nothing was sampled. */
  function RowSimilarity(data: seq<byte>, stride: nat, height: nat): real
    requires height >= 1
  {
    var t := Totals(data, stride, RowsToCheck(height));
    if t.samples == 0 then 0.0 else t.total as real / t.samples as real
  }

  /** Once the lower row runs past the data, no later sample of that row counts. */
  lemma {:induction false} RowTallyRest(data: seq<byte>, stride: nat, row: nat, k: nat, n: nat)
    requires k <= n
    requires row * stride + stride + 32 * k >= |data|
    ensures RowTally(data, stride, row, n) == RowTally(data, stride, row, k)
    decreases n
  {
    if n > k {
      RowTallyRest(data, stride, row, k, n - 1);
    }
  }

  lemma {:induction false} RowTallyBound(data: seq<byte>, stride: nat, row: nat, k: nat)
    ensures RowTally(data, stride, row, k).total <= 255 * RowTally(data, stride, row, k).samples
  {
    if k > 0 {
      RowTallyBound(data, stride, row, k - 1);
    }
  }

  lemma {:induction false} TotalsBound(data: seq<byte>, stride: nat, rows: nat)
    ensures Totals(data, stride, rows).total <= 255 * Totals(data, stride, rows).samples
  {
    if rows > 0 {
      TotalsBound(data, stride, rows - 1);
      RowTallyBound(data, stride, rows - 1, Positions(stride));
    }
  }

  /** Comparing a quotient with a bound is comparing the dividend with the bound times the divisor. */
  lemma QuotientBounds(a: real, d: real, bound: real)
    requires d > 0.0
    ensures a / d <= bound <==> a <= bound * d
    ensures bound <= a / d <==> bound * d <= a
  {
    var q := a / d;
    assert q * d == a;
    if q <= bound {
      assert q * d <= bound * d;
    } else {
      assert q * d > bound * d;
    }
    if bound <= q {
      assert bound * d <= q * d;
    } else {
      assert bound * d > q * d;
    }
  }

  /** The average lies between 0 and 255, and is 0 when nothing was sampled. */
  lemma RowSimilarityRange(data: seq<byte>, stride: nat, height: nat)
    requires height >= 1
    ensures 0.0 <= RowSimilarity(data, stride, height) <= 255.0
    ensures Totals(data, stride, RowsToCheck(height)).samples == 0 ==> RowSimilarity(data, stride, height) == 0.0
  {
    var t := Totals(data, stride, RowsToCheck(height));
    TotalsBound(data, stride, RowsToCheck(height));
    if t.samples > 0 {
      QuotientBounds(t.total as real, t.samples as real, 255.0);
      QuotientBounds(t.total as real, t.samples as real, 0.0);
    }
  }

  /** The threshold test on the average is the integer test `total > 40 * samples`. */
  lemma RowSimilarityAboveThreshold(data: seq<byte>, stride: nat, height: nat)
    requires height >= 1
    ensures var t := Totals(data, stride, RowsToCheck(height));
            RowSimilarity(data, stride, height) > STRICT_ROW_DIFF_THRESHOLD <==> t.total > 40 * t.samples
  {
    var t := Totals(data, stride, RowsToCheck(height));
    TotalsBound(data, stride, RowsToCheck(height));
    if t.samples > 0 {
      QuotientBounds(t.total as real, t.samples as real, 40.0);
      assert (40 * t.samples) as real == 40.0 * t.samples as real;
    }
  }

  /** A frame whose bytes are all equal has no row difference at all. */
  lemma UniformFrameNoRowDiff(data: seq<byte>, stride: nat, height: nat)
    requires height >= 1
    requires forall i :: 0 <= i < |data| ==> data[i] == data[0]
    ensures RowSimilarity(data, stride, height) == 0.0
  {
    UniformTotals(data, stride, RowsToCheck(height));
  }

  lemma UniformSample(data: seq<byte>, stride: nat, row: nat, j: nat)
    requires forall i :: 0 <= i < |data| ==> data[i] == data[0]
    ensures Sample(data, stride, row, j).total == 0
  {
    if row * stride + stride + 32 * j < |data| {
      var i0 := row * stride + 32 * j;
      var i1 := row * stride + stride + 32 * j;
      assert data[i0] == data[0] && data[i1] == data[0];
    }
  }

  lemma {:induction false} UniformRowTally(data: seq<byte>, stride: nat, row: nat, k: nat)
    requires forall i :: 0 <= i < |data| ==> data[i] == data[0]
    ensures RowTally(data, stride, row, k).total == 0
  {
    if k > 0 {
      UniformRowTally(data, stride, row, k - 1);
      UniformSample(data, stride, row, k - 1);
    }
  }

  lemma {:induction false} UniformTotals(data: seq<byte>, stride: nat, rows: nat)
    requires forall i :: 0 <= i < |data| ==> data[i] == data[0]
    ensures Totals(data, stride, rows).total == 0
  {
    if rows > 0 {
      UniformTotals(data, stride, rows - 1);
      UniformRowTally(data, stride, rows - 1, Positions(stride));
    }
  }

  /**
   * The samples between row `row` and the next, added to a running tally:
   * every 32nd byte of the row, stopping at the end of the row or of the data.
   */
  method SampleRowPair(data: seq<byte>, stride: nat, row: nat, total0: nat, samples0: nat)
    returns (totalDiff: nat, samples: nat)
    ensures Tally(totalDiff, samples) == Tally(total0, samples0).Add(RowTally(data, stride, row, Positions(stride)))
  {
    totalDiff, samples := total0, samples0;
    var row0Start := row * stride;
    var row1Start := row0Start + stride;
    var x := 0;
    ghost var k := 0;
    while x < stride && row1Start + x < |data|
      invariant x == 32 * k && x < stride + 32
      invariant Tally(totalDiff, samples) == Tally(total0, samples0).Add(RowTally(data, stride, row, k))
    {
      var y0 := data[row0Start + x];
      var y1 := data[row1Start + x];
      SampleAt(data, stride, row, k, row0Start + x, row1Start + x);
      totalDiff := totalDiff + AbsDiff(y0, y1);
      samples := samples + 1;
      x := x + 32;
      k := k + 1;
    }
    PositionsBound(stride, k);
    if x < stride {
      RowTallyRest(data, stride, row, k, Positions(stride));
    }
  }

  /**
   * The sampled row-difference metric, computed by scanning the first rows
   * in steps of 32 bytes and stopping a row at the end of the data.
   */
  method ComputeRowSimilarity(data: seq<byte>, stride: nat, height: nat) returns (avg: real)
    requires height >= 1
    ensures avg == RowSimilarity(data, stride, height)
  {
    var rowsToCheck := Min(3, height - 1);
    var totalDiff: nat := 0;
    var samples: nat := 0;
    var row := 0;
    while row < rowsToCheck
      invariant 0 <= row <= rowsToCheck
      invariant Tally(totalDiff, samples) == Totals(data, stride, row)
    {
      totalDiff, samples := SampleRowPair(data, stride, row, totalDiff, samples);
      row := row + 1;
    }
    if samples == 0 {
      return 0.0;
    }
    avg := totalDiff as real / samples as real;
  }

  // ---------------------------------------------------------------------
  // Frame validation

  datatype Failure = SizeMismatch | StrideMisalignment | HighRowDifference

  /**
   * The verdict and its diagnostics; `failureReason` lists the failed
   * checks in the order they run, or is None when the frame passed.
   */
  datatype ValidationResult = ValidationResult(
    valid: bool,
    avgRowDiff: Option<real>,
    actualSize: nat,
    expectedSize: nat,
    sizeRatio: real,
    strideAligned: bool,
    failureReason: Option<seq<Failure>>)

  /** Actual over expected size, counting an expected size of 0 as 1. */
  function SizeRatio(actual: nat, expected: nat): real
  {
    actual as real / Max(expected, 1) as real
  }

  /** Whether a size ratio is acceptable at a level. */
  function SizeOk(level: ValidationLevel, ratio: real): bool
  {
    match level
    case Minimal => 0.5 <= ratio <= 2.0
    case Moderate => 0.9 <= ratio <= 1.1
    case Strict => 0.9 <= ratio <= 1.1
    case Off => true
  }

  /** Rust's `is_multiple_of`: a multiple of 0 is only 0 itself. */
  function IsMultipleOf(n: nat, d: nat): bool
  {
    if d == 0 then n == 0 else n % d == 0
  }

  /** The stride test: whole rows, or within one row of the expected size. */
  function StrideAligned(level: ValidationLevel, actual: nat, expected: nat, width: nat): bool
  {
    if level == Strict || level == Moderate then
      IsMultipleOf(actual, 2 * width) || AbsDiff(actual, expected) < 2 * width
    else
      true
  }

  /** Whether the row metric is computed: Strict only, with at least four rows present. */
  function RowCheckApplies(level: ValidationLevel, dataLen: nat, width: nat, height: nat): bool
  {
    level == Strict && height >= 4 && dataLen >= 2 * width * 4
  }

  function ValidateYuy2Frame(data: seq<byte>, width: nat, height: nat, expectedSize: nat, level: ValidationLevel): (r: ValidationResult)
    requires |data| < 0x8000_0000 && expectedSize < 0x8000_0000 && 2 * width < U32_LIMIT
    ensures r.actualSize == |data| && r.expectedSize == expectedSize
    ensures r.sizeRatio == SizeRatio(|data|, expectedSize)
    ensures level == Off ==> r.valid && r.strideAligned && r.avgRowDiff == None && r.failureReason == None
    // only Strict and Moderate test the stride: whole rows, or within one row of the expected size
    ensures r.strideAligned <==>
              ((level == Strict || level == Moderate) ==>
                 IsMultipleOf(|data|, 2 * width) || AbsDiff(|data|, expectedSize) < 2 * width)
    ensures r.valid <==> r.failureReason == None
    ensures r.avgRowDiff.Some? <==> RowCheckApplies(level, |data|, width, height)
    ensures r.avgRowDiff.Some? ==> r.avgRowDiff.value == RowSimilarity(data, 2 * width, height)
    ensures level != Off ==>
              (r.valid <==> SizeOk(level, r.sizeRatio) && r.strideAligned
                            && !(r.avgRowDiff.Some? && r.avgRowDiff.value > STRICT_ROW_DIFF_THRESHOLD))
    ensures r.failureReason.Some? ==>
              (SizeMismatch in r.failureReason.value <==> !SizeOk(level, r.sizeRatio))
              && (StrideMisalignment in r.failureReason.value <==> !r.strideAligned)
  {
    var actualSize := |data|;
    var sizeRatio := SizeRatio(actualSize, expectedSize);
    if level == Off then
      ValidationResult(true, None, actualSize, expectedSize, sizeRatio, true, None)
    else
      var sizeValid := SizeOk(level, sizeRatio);
      var stride := width * 2;
      var strideAligned := StrideAligned(level, actualSize, expectedSize, width);
      var avgRowDiff :=
        if RowCheckApplies(level, actualSize, width, height) then Some(RowSimilarity(data, stride, height)) else None;
      var rowDiffValid := !(level == Strict && avgRowDiff.Some? && avgRowDiff.value > STRICT_ROW_DIFF_THRESHOLD);
      var failures :=
        (if sizeValid then [] else [SizeMismatch])
        + (if strideAligned then [] else [StrideMisalignment])
        + (if rowDiffValid then [] else [HighRowDifference]);
      ValidationResult(
        sizeValid && strideAligned && rowDiffValid,
        avgRowDiff, actualSize, expectedSize, sizeRatio, strideAligned,
        if |failures| == 0 then None else Some(failures))
  }

  /** The size check on the ratio is the integer comparison `lo*e <= 10*a <= hi*e` on the sizes. */
  lemma SizeOkCrossMultiplied(level: ValidationLevel, actual: nat, expected: nat)
    ensures var e := Max(expected, 1);
            SizeOk(level, SizeRatio(actual, expected)) <==>
              match level
              case Minimal => 5 * e <= 10 * actual <= 20 * e
              case Moderate => 9 * e <= 10 * actual <= 11 * e
              case Strict => 9 * e <= 10 * actual <= 11 * e
              case Off => true
  {
    var e := Max(expected, 1) as real;
    QuotientBounds(actual as real, e, 0.5);
    QuotientBounds(actual as real, e, 2.0);
    QuotientBounds(actual as real, e, 0.9);
    QuotientBounds(actual as real, e, 1.1);
  }

  /**
   * A 64x48 frame 200 bytes longer than expected passes the size check at
   * Moderate but is neither whole rows nor within one row: it is rejected
   * for stride misalignment alone.
   */
  lemma MisalignedFrameRejected(data: seq<byte>)
    requires |data| == 6344
    ensures var r := ValidateYuy2Frame(data, 64, 48, 6144, Moderate);
            !r.valid && !r.strideAligned && r.failureReason == Some([StrideMisalignment])
  {
    SizeOkCrossMultiplied(Moderate, 6344, 6144);
    assert [] + [StrideMisalignment] + [] == [StrideMisalignment];
  }

  /**
   * The levels are ordered: a frame valid at Strict is valid at Moderate,
   * one valid at Moderate is valid at Minimal, and everything is valid at Off.
   */
  lemma LevelsOrderedByStrictness(data: seq<byte>, width: nat, height: nat, expectedSize: nat)
    requires |data| < 0x8000_0000 && expectedSize < 0x8000_0000 && 2 * width < U32_LIMIT
    ensures var strict := ValidateYuy2Frame(data, width, height, expectedSize, Strict);
            var moderate := ValidateYuy2Frame(data, width, height, expectedSize, Moderate);
            strict.valid ==> moderate.valid
    ensures var moderate := ValidateYuy2Frame(data, width, height, expectedSize, Moderate);
            var minimal := ValidateYuy2Frame(data, width, height, expectedSize, Minimal);
            moderate.valid ==> minimal.valid
    ensures ValidateYuy2Frame(data, width, height, expectedSize, Off).valid
  {
  }
}
