/**
 Column evaluation: partition a column into null and non-null cells, detect
 its pattern, and check every non-null cell against the pattern and, for
 number columns only, against a band of +/-30% around the average text length.
 */
module Evaluator {
  import opened Cells
  import opened Classifiers
  import opened Detector
  import opened Sequences

  /** Length of a cell's display text, as len(to_text(x)). */
  function TextLength(c: Cell): nat {
    |ToText(c)|
  }

  predicate NotNull(c: Cell) {
    !IsNull(c)
  }

  /** Sum of the text lengths of `cells`. */
  function LengthSum(cells: seq<Cell>): nat
    decreases |cells|
  {
    if |cells| == 0 then 0
    else LengthSum(cells[..|cells| - 1]) + TextLength(cells[|cells| - 1])
  }

  /**
   The length band avg*0.70 <= len <= avg*1.30 with avg = sum / count,
   multiplied through by 10 * count so that it is exact over integers.
   */
  predicate WithinBand(sum: nat, count: nat, len: nat) {
    7 * sum <= 10 * count * len && 10 * count * len <= 13 * sum
  }

  /** A non-null cell is consistent when it matches the pattern and, for number columns, lies in the band. */
  predicate Conforms(lib: Lib, p: Pattern, sum: nat, count: nat, c: Cell) {
    PatternMatches(lib, c, p) && (p == Number ==> WithinBand(sum, count, TextLength(c)))
  }

  /** The verdict "inconsistent" for a column with pattern `p`, length sum `sum` and `count` non-null cells. */
  function Rejects(lib: Lib, p: Pattern, sum: nat, count: nat): Cell -> bool {
    c => !Conforms(lib, p, sum, count, c)
  }

  /** What the per-cell loop accumulates: the consistent count and the inconsistent cells. */
  datatype Tally = Tally(consistent: nat, flagged: seq<Cell>)

  /** The loop over the non-null cells: count each consistent cell, append each inconsistent one. */
  function CheckCells(lib: Lib, p: Pattern, sum: nat, count: nat, cells: seq<Cell>): (t: Tally)
    ensures t.consistent + |t.flagged| == |cells|
    decreases |cells|
  {
    if |cells| == 0 then Tally(0, [])
    else
      var t := CheckCells(lib, p, sum, count, cells[..|cells| - 1]);
      var c := cells[|cells| - 1];
      if Conforms(lib, p, sum, count, c) then Tally(t.consistent + 1, t.flagged)
      else Tally(t.consistent, t.flagged + [c])
  }

  /** The loop's inconsistent list is exactly the rejected cells, in order. */
  lemma {:induction false} CheckCellsFlagsRejected(lib: Lib, p: Pattern, sum: nat, count: nat, cells: seq<Cell>)
    ensures CheckCells(lib, p, sum, count, cells).flagged == Filter(Rejects(lib, p, sum, count), cells)
    decreases |cells|
  {
    if |cells| > 0 {
      CheckCellsFlagsRejected(lib, p, sum, count, cells[..|cells| - 1]);
    }
  }

  /** Outside number columns the length band is never consulted. */
  lemma {:induction false} LengthGateOnlyForNumber(
    lib: Lib, p: Pattern, sum: nat, count: nat, sum': nat, count': nat, cells: seq<Cell>)
    requires p != Number
    ensures CheckCells(lib, p, sum, count, cells) == CheckCells(lib, p, sum', count', cells)
    decreases |cells|
  {
    if |cells| > 0 {
      LengthGateOnlyForNumber(lib, p, sum, count, sum', count', cells[..|cells| - 1]);
    }
  }

  /** `m` is the floor of a / d. */
  predicate IsFloorOf(m: int, a: int, d: int) {
    m * d <= a < (m + 1) * d
  }

  /** `m` is the ceiling of a / d. */
  predicate IsCeilOf(m: int, a: int, d: int) {
    (m - 1) * d < a <= m * d
  }

  /** Integer division rounds down. */
  lemma DivisionIsFloor(a: nat, d: nat)
    requires d > 0
    ensures a / d >= 0 && IsFloorOf(a / d, a, d)
  {
    var q := a / d;
    assert a == q * d + a % d;
    assert (q + 1) * d == q * d + d;
  }

  /** Dividing a + d - 1 instead of a rounds up. */
  lemma DivisionRoundedUpIsCeil(a: nat, d: nat)
    requires d > 0
    ensures IsCeilOf((a + d - 1) / d, a, d)
  {
    var q := (a + d - 1) / d;
    DivisionIsFloor(a + d - 1, d);
    assert (q - 1) * d == q * d - d;
  }

  /** floor(avg * 0.70), the reported allowed minimum length (0 for an empty column). */
  function AllowedMin(sum: nat, count: nat): (m: nat)
    ensures count > 0 ==> IsFloorOf(m, 7 * sum, 10 * count)
    ensures count == 0 ==> m == 0
  {
    if count == 0 then 0
    else
      var d := 10 * count;
      var q := 7 * sum / d;
      DivisionIsFloor(7 * sum, d);
      q
  }

  /** ceil(avg * 1.30), the reported allowed maximum length (0 for an empty column). */
  function AllowedMax(sum: nat, count: nat): (m: nat)
    ensures count > 0 ==> IsCeilOf(m, 13 * sum, 10 * count)
    ensures count == 0 ==> m == 0
  {
    if count == 0 then 0
    else
      var d := 10 * count;
      var q := (13 * sum + d - 1) / d;
      DivisionIsFloor(13 * sum + d - 1, d);
      DivisionRoundedUpIsCeil(13 * sum, d);
      q
  }

  /** The metrics evaluate_column reports for one column. */
  datatype Metrics = Metrics(
    total: nat,
    nonNull: nat,
    nullCount: nat,
    pattern: Pattern,
    lengthSum: nat,
    allowedMin: nat,
    allowedMax: nat,
    consistent: nat,
    inconsistent: nat,
    inconsistentValues: seq<Cell>)

  /** evaluate_column. */
  function EvaluateColumn(lib: Lib, col: seq<Cell>): (m: Metrics)
    ensures m.total == |col| && m.nonNull + m.nullCount == m.total
    ensures m.nonNull == |Filter(NotNull, col)| && m.lengthSum == LengthSum(Filter(NotNull, col))
    ensures m.pattern == DetectPattern(lib, col)
    ensures m.consistent + m.inconsistent == m.nonNull && |m.inconsistentValues| == m.inconsistent
    ensures m.nonNull == 0 ==> m.pattern == Other && m.consistent == 0 && m.inconsistentValues == []
    ensures m.inconsistentValues == Filter(Rejects(lib, m.pattern, m.lengthSum, m.nonNull), Filter(NotNull, col))
    ensures m.allowedMin == AllowedMin(m.lengthSum, m.nonNull) && m.allowedMax == AllowedMax(m.lengthSum, m.nonNull)
  {
    var nonNull := Filter(NotNull, col);
    var n := |nonNull|;
    if n == 0 then
      FilterEmpty(NotNull, col);
      Metrics(|col|, 0, |col|, Other, 0, 0, 0, 0, 0, [])
    else
      var p := DetectPattern(lib, col);
      var sum := LengthSum(nonNull);
      var t := CheckCells(lib, p, sum, n, nonNull);
      CheckCellsFlagsRejected(lib, p, sum, n, nonNull);
      Metrics(|col|, n, |col| - n, p, sum, AllowedMin(sum, n), AllowedMax(sum, n),
              t.consistent, n - t.consistent, t.flagged)
  }

  /**
   The report of a column with at least one non-null cell, assembled from the
   non-null cells, the detected pattern and the rejected cells.
   */
  lemma EvaluateFromParts(lib: Lib, col: seq<Cell>, kept: seq<Cell>, p: Pattern, flagged: seq<Cell>)
    requires Filter(NotNull, col) == kept && |kept| > 0
    requires DetectPattern(lib, col) == p
    requires Filter(Rejects(lib, p, LengthSum(kept), |kept|), kept) == flagged
    ensures var m := EvaluateColumn(lib, col);
      && m.nonNull == |kept| && m.nullCount == |col| - |kept| && m.pattern == p
      && m.lengthSum == LengthSum(kept) && m.inconsistentValues == flagged
      && m.consistent == |kept| - |flagged| && m.inconsistent == |flagged|
  {
  }

  /** avg_len before rounding: the mean text length of the non-null cells (0 when there are none). */
  function AverageLength(m: Metrics): (avg: real)
    ensures m.nonNull > 0 ==> avg * (m.nonNull as real) == m.lengthSum as real
    ensures m.nonNull == 0 ==> avg == 0.0
  {
    if m.nonNull == 0 then 0.0 else (m.lengthSum as real) / (m.nonNull as real)
  }

  /**
   The integer band is the band of the source read over exact reals:
   avg * 0.70 <= len <= avg * 1.30 with avg = sum / count.
   */
  lemma WithinBandIsRealBand(sum: nat, count: nat, len: nat)
    requires count > 0
    ensures WithinBand(sum, count, len) <==>
      (sum as real / count as real) * 0.70 <= len as real <= (sum as real / count as real) * 1.30
  {
    var avg := sum as real / count as real;
    var n := count as real;
    assert avg * n == sum as real;
    assert (7 * sum <= 10 * count * len) <==> avg * 0.70 <= len as real by {
      assert (7 * sum) as real == 7.0 * avg * n;
      assert (10 * count * len) as real == 10.0 * (len as real) * n;
    }
    assert (10 * count * len <= 13 * sum) <==> len as real <= avg * 1.30 by {
      assert (13 * sum) as real == 13.0 * avg * n;
      assert (10 * count * len) as real == 10.0 * (len as real) * n;
    }
  }

  /** The consistency percentage before rounding: the consistent share of the non-null cells, 100.0 for an all-null column. */
  function ConsistencyPercentage(m: Metrics): (pct: real)
    requires m.consistent + m.inconsistent == m.nonNull
    ensures 0.0 <= pct <= 100.0
    ensures pct == 100.0 <==> m.inconsistent == 0
    ensures m.nonNull == 0 ==> pct == 100.0
    ensures m.nonNull > 0 ==> pct * (m.nonNull as real) == 100.0 * (m.consistent as real)
  {
    if m.nonNull == 0 then 100.0
    else
      var c := m.consistent as real;
      var n := m.nonNull as real;
      assert c <= n;
      assert c / n <= 1.0;
      assert c / n == 1.0 ==> c == n;
      (c / n) * 100.0
  }

  /** The null count is the number of null cells, counted independently of the non-null ones. */
  lemma NullCountCountsNulls(lib: Lib, col: seq<Cell>)
    ensures EvaluateColumn(lib, col).nullCount == |Filter(IsNull, col)|
  {
    FilterSplit(NotNull, IsNull, col);
  }

  /** A column is reported as having no data exactly when every cell is null, and then nothing is inconsistent. */
  lemma AllNullColumnReport(lib: Lib, col: seq<Cell>)
    ensures var m := EvaluateColumn(lib, col);
      && (m.nonNull == 0 <==> AllNull(col))
      && (AllNull(col) ==>
            && m.pattern == Other && m.nullCount == |col|
            && m.consistent == 0 && m.inconsistent == 0 && m.inconsistentValues == []
            && m.allowedMin == 0 && m.allowedMax == 0
            && ConsistencyPercentage(m) == 100.0)
  {
    FilterEmpty(NotNull, col);
  }

  /** The inconsistent values appear in the order the column holds them. */
  lemma InconsistentValuesInColumnOrder(lib: Lib, col: seq<Cell>)
    ensures IsSubsequence(EvaluateColumn(lib, col).inconsistentValues, col)
  {
    var m := EvaluateColumn(lib, col);
    var nonNull := Filter(NotNull, col);
    FilterIsSubsequence(NotNull, col);
    FilterIsSubsequence(Rejects(lib, m.pattern, m.lengthSum, m.nonNull), nonNull);
    SubsequenceTransitive(m.inconsistentValues, nonNull, col);
  }

  /** Each value occurs in the inconsistent list as often as in the column if it is a non-null misfit, else never. */
  lemma InconsistentValuesOccurrences(lib: Lib, col: seq<Cell>, x: Cell)
    ensures var m := EvaluateColumn(lib, col);
      multiset(m.inconsistentValues)[x] ==
        if !IsNull(x) && !Conforms(lib, m.pattern, m.lengthSum, m.nonNull, x) then multiset(col)[x] else 0
  {
    var m := EvaluateColumn(lib, col);
    FilterOccurrences(NotNull, col, x);
    FilterOccurrences(Rejects(lib, m.pattern, m.lengthSum, m.nonNull), Filter(NotNull, col), x);
  }

  /** A value of the column is listed as inconsistent exactly when it is non-null and does not conform. */
  lemma FlaggedExactlyWhenNonConforming(lib: Lib, col: seq<Cell>, x: Cell)
    requires x in col
    ensures var m := EvaluateColumn(lib, col);
      x in m.inconsistentValues <==> !IsNull(x) && !Conforms(lib, m.pattern, m.lengthSum, m.nonNull, x)
  {
    InconsistentValuesOccurrences(lib, col, x);
    var m := EvaluateColumn(lib, col);
    assert x in m.inconsistentValues <==> multiset(m.inconsistentValues)[x] > 0;
    assert multiset(col)[x] > 0;
  }

  /** Outside number columns a non-null value is flagged exactly when the pattern's classifier rejects it. */
  lemma NonNumberColumnFlagsPatternMisses(lib: Lib, col: seq<Cell>, x: Cell)
    requires x in col
    requires EvaluateColumn(lib, col).pattern != Number
    ensures var m := EvaluateColumn(lib, col);
      x in m.inconsistentValues <==> !IsNull(x) && !PatternMatches(lib, x, m.pattern)
  {
    FlaggedExactlyWhenNonConforming(lib, col, x);
  }

  /** In a number column a non-null value is flagged exactly when it is not a number or its length is out of band. */
  lemma NumberColumnFlags(lib: Lib, col: seq<Cell>, x: Cell)
    requires x in col
    requires EvaluateColumn(lib, col).pattern == Number
    ensures var m := EvaluateColumn(lib, col);
      x in m.inconsistentValues <==>
        !IsNull(x) && (!IsNumber(lib, x) || !WithinBand(m.lengthSum, m.nonNull, TextLength(x)))
  {
    FlaggedExactlyWhenNonConforming(lib, col, x);
  }

  /** In a date column a non-null value is flagged exactly when the date classifier rejects it. */
  lemma DateColumnFlags(lib: Lib, col: seq<Cell>, x: Cell)
    requires x in col
    requires EvaluateColumn(lib, col).pattern == Date
    ensures x in EvaluateColumn(lib, col).inconsistentValues <==> !IsNull(x) && !IsDate(lib, x)
  {
    FlaggedExactlyWhenNonConforming(lib, col, x);
  }

  /** In an Arabic column a non-null value is flagged exactly when it is not Arabic words. */
  lemma ArabicColumnFlags(lib: Lib, col: seq<Cell>, x: Cell)
    requires x in col
    requires EvaluateColumn(lib, col).pattern == Arabic
    ensures x in EvaluateColumn(lib, col).inconsistentValues <==> !IsNull(x) && !IsArabicWords(x)
  {
    FlaggedExactlyWhenNonConforming(lib, col, x);
  }

  /** In an English column a non-null value is flagged exactly when it is not English words. */
  lemma EnglishColumnFlags(lib: Lib, col: seq<Cell>, x: Cell)
    requires x in col
    requires EvaluateColumn(lib, col).pattern == English
    ensures x in EvaluateColumn(lib, col).inconsistentValues <==> !IsNull(x) && !IsEnglishWords(x)
  {
    FlaggedExactlyWhenNonConforming(lib, col, x);
  }

  /** An "other" column flags nothing: every non-null cell is consistent. */
  lemma OtherColumnFlagsNothing(lib: Lib, col: seq<Cell>)
    requires EvaluateColumn(lib, col).pattern == Other
    ensures var m := EvaluateColumn(lib, col);
      m.inconsistentValues == [] && m.consistent == m.nonNull && ConsistencyPercentage(m) == 100.0
  {
    var m := EvaluateColumn(lib, col);
    var nonNull := Filter(NotNull, col);
    FilterEmpty(Rejects(lib, Other, m.lengthSum, m.nonNull), nonNull);
  }

  /** Outside number columns the cell that fixed the pattern is itself consistent. */
  lemma SampleConsistentOutsideNumber(lib: Lib, col: seq<Cell>, i: int)
    requires FirstNonNullAt(col, i)
    requires EvaluateColumn(lib, col).pattern != Number
    ensures col[i] !in EvaluateColumn(lib, col).inconsistentValues
  {
    SampleMatchesDetectedPattern(lib, col, i);
    NonNumberColumnFlagsPatternMisses(lib, col, col[i]);
  }

  /**
   A number as the first non-null cell locks the column to "number": every
   non-null value the number classifier rejects is then listed as inconsistent.
   */
  lemma LeadingNumberFlagsNonNumbers(lib: Lib, col: seq<Cell>, i: int, x: Cell)
    requires FirstNonNullAt(col, i) && IsNumber(lib, col[i])
    requires x in col && !IsNull(x) && !IsNumber(lib, x)
    ensures x in EvaluateColumn(lib, col).inconsistentValues
  {
    NumberTakesPriority(lib, col, i);
    NumberColumnFlags(lib, col, x);
  }

  /** If every cell has text length `len`, the length sum is count times `len`. */
  lemma {:induction false} LengthSumUniform(cells: seq<Cell>, len: nat)
    requires forall k :: 0 <= k < |cells| ==> TextLength(cells[k]) == len
    ensures LengthSum(cells) == |cells| * len
    decreases |cells|
  {
    if |cells| == 0 {
      assert LengthSum(cells) == 0;
    } else {
      var init := cells[..|cells| - 1];
      assert forall k :: 0 <= k < |init| ==> init[k] == cells[k];
      LengthSumUniform(init, len);
      assert TextLength(cells[|cells| - 1]) == len;
      assert LengthSum(cells) == |init| * len + len;
      assert |init| * len + len == (|init| + 1) * len;
    }
  }

  /** When every length equals the average, every length is inside the band. */
  lemma UniformLengthWithinBand(count: nat, len: nat)
    ensures WithinBand(count * len, count, len)
  {
    assert 10 * count * len == 10 * (count * len);
  }

  /** A number column whose non-null values are all numbers of one text length is fully consistent. */
  lemma UniformNumberColumnConsistent(lib: Lib, col: seq<Cell>, len: nat)
    requires EvaluateColumn(lib, col).pattern == Number
    requires forall k :: 0 <= k < |col| && !IsNull(col[k]) ==> IsNumber(lib, col[k]) && TextLength(col[k]) == len
    ensures var m := EvaluateColumn(lib, col);
      m.inconsistentValues == [] && m.consistent == m.nonNull
  {
    var m := EvaluateColumn(lib, col);
    var nonNull := Filter(NotNull, col);
    var fits := (x: Cell) => !IsNull(x) ==> IsNumber(lib, x) && TextLength(x) == len;
    FilterPreserves(NotNull, fits, col);
    assert forall k :: 0 <= k < |nonNull| ==> TextLength(nonNull[k]) == len && IsNumber(lib, nonNull[k]);
    LengthSumUniform(nonNull, len);
    UniformLengthWithinBand(|nonNull|, len);
    FilterEmpty(Rejects(lib, Number, m.lengthSum, m.nonNull), nonNull);
  }

  /** A length inside the band lies between the reported (rounded-outward) minimum and maximum. */
  lemma ReportedBoundsContainBand(sum: nat, count: nat, len: nat)
    requires count > 0 && WithinBand(sum, count, len)
    ensures AllowedMin(sum, count) <= len <= AllowedMax(sum, count)
  {
    var d := 10 * count;
    assert 10 * count * len == len * d;
    CancelFactor(AllowedMin(sum, count), len, d);
    CancelFactor(len, AllowedMax(sum, count), d);
  }

  /** Cancelling a positive factor on both sides of `<=`. */
  lemma CancelFactor(a: nat, b: nat, d: nat)
    requires d > 0 && a * d <= b * d
    ensures a <= b
  {
    assert (b - a) * d == b * d - a * d;
  }
}
