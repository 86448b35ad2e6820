/**
 Single-sample pattern detection: a column's shape is decided by its first
 non-null cell alone, trying the classifiers in a fixed priority order.
 */
module Detector {
  import opened Cells
  import opened Classifiers

  predicate AllNull(col: seq<Cell>) {
    forall k :: 0 <= k < |col| ==> IsNull(col[k])
  }

  /** `i` is the position of the first non-null cell of `col`. */
  predicate FirstNonNullAt(col: seq<Cell>, i: int) {
    && 0 <= i < |col|
    && !IsNull(col[i])
    && AllNull(col[..i])
  }

  /** A column either is all null or has a first non-null cell. */
  lemma {:induction false} FirstNonNullExists(col: seq<Cell>)
    requires !AllNull(col)
    ensures exists i :: FirstNonNullAt(col, i)
    decreases |col|
  {
    if !IsNull(col[0]) {
      assert FirstNonNullAt(col, 0);
    } else {
      FirstNonNullExists(col[1..]);
      var i :| FirstNonNullAt(col[1..], i);
      assert col[..i + 1] == [col[0]] + col[1..][..i];
      assert FirstNonNullAt(col, i + 1);
    }
  }

  /**
   The classifier chain applied to one sample: number, then date, then
   Arabic, then English, otherwise other. The result is the highest-priority
   pattern that accepts the cell.
   */
  function Classify(lib: Lib, c: Cell): (r: Pattern)
    requires !IsNull(c)
    ensures r == Number ==> IsNumber(lib, c)
    ensures r == Date ==> IsDate(lib, c)
    ensures r == Arabic ==> IsArabicWords(c)
    ensures r == English ==> IsEnglishWords(c)
    ensures r != Number ==> !IsNumber(lib, c)
    ensures r != Number && r != Date ==> !IsDate(lib, c)
    ensures r == English || r == Other ==> !IsArabicWords(c)
    ensures r == Other ==> !IsEnglishWords(c)
  {
    if IsNumber(lib, c) then Number
    else if IsDate(lib, c) then Date
    else if IsArabicWords(c) then Arabic
    else if IsEnglishWords(c) then English
    else Other
  }

  /**
   detect_pattern_from_first_non_empty: skip null cells, classify the first
   non-null one and stop; an all-null column is "other".
   */
  function DetectPattern(lib: Lib, col: seq<Cell>): (r: Pattern)
    ensures AllNull(col) ==> r == Other
    ensures forall i :: FirstNonNullAt(col, i) ==> r == Classify(lib, col[i])
    decreases |col|
  {
    if |col| == 0 then Other
    else if IsNull(col[0]) then
      var r := DetectPattern(lib, col[1..]);
      assert forall i :: FirstNonNullAt(col, i) ==> FirstNonNullAt(col[1..], i - 1) by {
        forall i | FirstNonNullAt(col, i)
          ensures FirstNonNullAt(col[1..], i - 1)
        {
          assert col[1..][..i - 1] == col[1..i];
        }
      }
      r
    else
      assert forall i :: 0 < i <= |col| ==> col[..i][0] == col[0];
      Classify(lib, col[0])
  }

  /** Cells after the first non-null one never influence the detected pattern. */
  lemma DetectIgnoresLaterCells(lib: Lib, a: seq<Cell>, b: seq<Cell>, i: int)
    requires FirstNonNullAt(a, i)
    requires i < |b| && b[..i + 1] == a[..i + 1]
    ensures DetectPattern(lib, b) == DetectPattern(lib, a)
  {
    assert b[..i] == b[..i + 1][..i] == a[..i + 1][..i] == a[..i];
    assert b[i] == b[..i + 1][i] == a[i];
    assert FirstNonNullAt(b, i);
  }

  /** Leading nulls, a non-null sample, and anything at all after it: the sample alone decides. */
  lemma DetectFromSample(lib: Lib, nulls: seq<Cell>, c: Cell, rest: seq<Cell>)
    requires AllNull(nulls) && !IsNull(c)
    ensures DetectPattern(lib, nulls + [c] + rest) == Classify(lib, c)
  {
    var col := nulls + [c] + rest;
    assert col[..|nulls|] == nulls;
    assert FirstNonNullAt(col, |nulls|);
  }

  /** A non-null cell matches the pattern it is classified as. */
  lemma ClassifiedCellMatches(lib: Lib, c: Cell)
    requires !IsNull(c)
    ensures PatternMatches(lib, c, Classify(lib, c))
  {
  }

  /** The first non-null cell always conforms to the pattern detected from it. */
  lemma SampleMatchesDetectedPattern(lib: Lib, col: seq<Cell>, i: int)
    requires FirstNonNullAt(col, i)
    ensures PatternMatches(lib, col[i], DetectPattern(lib, col))
  {
  }

  /** A cell the number classifier accepts is detected as number, whatever else accepts it. */
  lemma NumberTakesPriority(lib: Lib, col: seq<Cell>, i: int)
    requires FirstNonNullAt(col, i) && IsNumber(lib, col[i])
    ensures DetectPattern(lib, col) == Number
  {
  }
}
