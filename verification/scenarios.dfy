/**
 Worked columns: the reports evaluate_column produces for a few small inputs,
 under the stated assumptions about the parsing library.
 */
module Scenarios {
  import opened Cells
  import opened Classifiers
  import opened Detector
  import opened Sequences
  import opened Evaluator

  /** A word of ASCII letters that float() rejects is detected as English when no letter counts as a digit. */
  lemma LetterWordIsEnglish(lib: Lib, s: string)
    requires s != [] && forall i :: 0 <= i < |s| ==> AsciiLetter(s[i])
    requires forall ch :: AsciiLetter(ch) ==> !lib.isDigit(ch)
    requires !lib.floatParses(s)
    ensures !IsNull(Str(s)) && Classify(lib, Str(s)) == English
  {
    StripKeepsTrimmed(s);
    assert !IsSpace(s[0]);
    assert !InClass(ArabicClass, s[0]);
  }

  /** Three non-null values survive the null filter and the first decides the pattern. */
  lemma ThreeValueShape(lib: Lib, a: Cell, b: Cell, c: Cell)
    requires !IsNull(a) && !IsNull(b) && !IsNull(c)
    ensures Filter(NotNull, [a, b, c]) == [a, b, c] && DetectPattern(lib, [a, b, c]) == Classify(lib, a)
  {
    FilterKeepsAll(NotNull, [a, b, c]);
    assert FirstNonNullAt([a, b, c], 0);
  }

  /** Outside number columns a cell that matches the pattern is not rejected. */
  lemma MatchingCellConforms(lib: Lib, p: Pattern, sum: nat, count: nat, c: Cell)
    requires p != Number && PatternMatches(lib, c, p)
    ensures !Rejects(lib, p, sum, count)(c)
  {
  }

  /** No cell of three is rejected, so the filter of rejected cells is empty. */
  lemma NoneOfThreeRejected(rejects: Cell -> bool, a: Cell, b: Cell, c: Cell)
    requires !rejects(a) && !rejects(b) && !rejects(c)
    ensures Filter(rejects, [a, b, c]) == []
  {
    FilterNone(rejects, [a, b, c]);
  }

  /**
   Three non-null cells, the first classified as `p` (not number) and the
   other two matching it: the column is `p` and fully consistent.
   */
  lemma ThreeMatchingCells(lib: Lib, a: Cell, b: Cell, c: Cell, p: Pattern)
    requires !IsNull(a) && !IsNull(b) && !IsNull(c)
    requires p != Number && Classify(lib, a) == p
    requires PatternMatches(lib, b, p) && PatternMatches(lib, c, p)
    ensures var m := EvaluateColumn(lib, [a, b, c]);
      && m.pattern == p && m.nonNull == 3 && m.nullCount == 0
      && m.consistent == 3 && m.inconsistentValues == []
  {
    ThreeValueShape(lib, a, b, c);
    ClassifiedCellMatches(lib, a);
    var sum := LengthSum([a, b, c]);
    MatchingCellConforms(lib, p, sum, 3, a);
    MatchingCellConforms(lib, p, sum, 3, b);
    MatchingCellConforms(lib, p, sum, 3, c);
    NoneOfThreeRejected(Rejects(lib, p, sum, 3), a, b, c);
    EvaluateFromParts(lib, [a, b, c], [a, b, c], p, []);
  }

  /**
   Any column of three words made of ASCII letters (names, say) that float()
   rejects is English and fully consistent, provided no ASCII letter counts as
   a digit.
   */
  lemma LetterWordsColumn(lib: Lib, a: string, b: string, c: string)
    requires forall ch :: AsciiLetter(ch) ==> !lib.isDigit(ch)
    requires a != [] && forall i :: 0 <= i < |a| ==> AsciiLetter(a[i])
    requires b != [] && forall i :: 0 <= i < |b| ==> AsciiLetter(b[i])
    requires c != [] && forall i :: 0 <= i < |c| ==> AsciiLetter(c[i])
    requires !lib.floatParses(a) && !lib.floatParses(b) && !lib.floatParses(c)
    ensures var m := EvaluateColumn(lib, [Str(a), Str(b), Str(c)]);
      && m.pattern == English && m.nonNull == 3 && m.nullCount == 0
      && m.consistent == 3 && m.inconsistentValues == []
      && ConsistencyPercentage(m) == 100.0
  {
    LetterWordIsEnglish(lib, a);
    LetterWordIsEnglish(lib, b);
    LetterWordIsEnglish(lib, c);
    ThreeMatchingCells(lib, Str(a), Str(b), Str(c), English);
  }

  /** The pattern of the column of `EnglishColumnListsNumber`: the leading letter word decides it. */
  lemma WordThenNumberShape(lib: Lib, a: string, t: string)
    requires forall ch :: AsciiLetter(ch) ==> !lib.isDigit(ch)
    requires a != [] && forall i :: 0 <= i < |a| ==> AsciiLetter(a[i])
    requires !lib.floatParses(a)
    ensures DetectPattern(lib, [Str(a), Num(false, t)]) == English && IsEnglishWords(Str(a))
  {
    LetterWordIsEnglish(lib, a);
    assert FirstNonNullAt([Str(a), Num(false, t)], 0);
  }

  /**
   A letter word followed by a number: the word makes the column English, and
   the number, which is not a string, is listed as inconsistent.
   */
  lemma EnglishColumnListsNumber(lib: Lib, a: string, t: string)
    requires forall ch :: AsciiLetter(ch) ==> !lib.isDigit(ch)
    requires a != [] && forall i :: 0 <= i < |a| ==> AsciiLetter(a[i])
    requires !lib.floatParses(a)
    ensures var m := EvaluateColumn(lib, [Str(a), Num(false, t)]);
      m.pattern == English && Num(false, t) in m.inconsistentValues && Str(a) !in m.inconsistentValues
  {
    var col := [Str(a), Num(false, t)];
    WordThenNumberShape(lib, a, t);
    assert !IsEnglishWords(Num(false, t));
    EnglishColumnFlags(lib, col, Num(false, t));
    EnglishColumnFlags(lib, col, Str(a));
  }

  /** A length sum of 8 over 4 cells is reported with bounds floor(1.4) = 1 and ceil(2.6) = 3. */
  lemma ReportedBoundsOfEightOverFour()
    ensures AllowedMin(8, 4) == 1 && AllowedMax(8, 4) == 3
  {
    assert IsFloorOf(AllowedMin(8, 4), 56, 40);
    assert IsCeilOf(AllowedMax(8, 4), 104, 40);
  }

  /** The detected pattern and the length sum of the column of `LengthBandColumn`. */
  lemma LengthBandShape(lib: Lib, x: string, y: string, z: string, w: string)
    requires |x| == 1 && |y| == 2 && |z| == 1
    requires |w| == 4 && !AllSpace(w)
    ensures var col := [Num(false, x), Num(false, y), Num(false, z), Str(w)];
      && Filter(NotNull, col) == col && DetectPattern(lib, col) == Number && LengthSum(col) == 8
  {
    var col := [Num(false, x), Num(false, y), Num(false, z), Str(w)];
    FilterKeepsAll(NotNull, col);
    assert FirstNonNullAt(col, 0);
    assert col[..3][..2] == col[..2] && col[..2][..1] == col[..1] && col[..1][..0] == [];
    assert LengthSum(col[..1]) == 1;
    assert LengthSum(col[..2]) == 3;
    assert LengthSum(col[..3]) == 4;
  }

  /** Each cell of the column of `LengthBandColumn` against the band 1.4 to 2.6: only the 2-character number passes. */
  lemma LengthBandCellVerdicts(lib: Lib, x: string, y: string, z: string, w: string)
    requires |x| == 1 && |y| == 2 && |z| == 1
    requires |w| == 4 && !AllSpace(w) && !lib.floatParses(w)
    ensures var rejects := Rejects(lib, Number, 8, 4);
      rejects(Num(false, x)) && !rejects(Num(false, y)) && rejects(Num(false, z)) && rejects(Str(w))
  {
  }

  /** The filter of rejected cells in the column of `LengthBandColumn`: only the 2-character number is kept out. */
  lemma LengthBandVerdicts(lib: Lib, x: string, y: string, z: string, w: string)
    requires |x| == 1 && |y| == 2 && |z| == 1
    requires |w| == 4 && !AllSpace(w) && !lib.floatParses(w)
    ensures Filter(Rejects(lib, Number, 8, 4), [Num(false, x), Num(false, y), Num(false, z), Str(w)])
      == [Num(false, x), Num(false, z), Str(w)]
  {
    LengthBandCellVerdicts(lib, x, y, z, w);
    OnlySecondAccepted(Rejects(lib, Number, 8, 4), Num(false, x), Num(false, y), Num(false, z), Str(w));
  }

  /** Of four cells only the second escapes the verdict, so the other three are listed, in order. */
  lemma OnlySecondAccepted(rejects: Cell -> bool, a: Cell, b: Cell, c: Cell, d: Cell)
    requires rejects(a) && !rejects(b) && rejects(c) && rejects(d)
    ensures Filter(rejects, [a, b, c, d]) == [a, c, d]
  {
    FilterDropsOne(rejects, [a], b, [c, d]);
    assert [a] + [b] + [c, d] == [a, b, c, d];
    assert [a] + [c, d] == [a, c, d];
  }

  /**
   Finite numbers whose texts have 1, 2 and 1 characters, then a 4-character
   word that float() rejects: the length sum is 8 over 4 cells, so the band is
   1.4 to 2.6 characters and only the 2-character number is consistent; the
   short numbers fail the length check and the word the number check.
   */
  lemma LengthBandColumn(lib: Lib, x: string, y: string, z: string, w: string)
    requires |x| == 1 && |y| == 2 && |z| == 1
    requires |w| == 4 && !AllSpace(w) && !lib.floatParses(w)
    ensures var m := EvaluateColumn(lib, [Num(false, x), Num(false, y), Num(false, z), Str(w)]);
      && m.pattern == Number && m.nonNull == 4 && m.nullCount == 0 && m.lengthSum == 8
      && m.allowedMin == 1 && m.allowedMax == 3
      && m.consistent == 1 && m.inconsistent == 3
      && m.inconsistentValues == [Num(false, x), Num(false, z), Str(w)]
      && ConsistencyPercentage(m) == 25.0
  {
    var col := [Num(false, x), Num(false, y), Num(false, z), Str(w)];
    LengthBandShape(lib, x, y, z, w);
    LengthBandVerdicts(lib, x, y, z, w);
    ReportedBoundsOfEightOverFour();
    EvaluateFromParts(lib, col, col, Number, [Num(false, x), Num(false, z), Str(w)]);
  }

  /** The column 5, 12, 9, "nine": 1 consistent value out of 4 (25%), bounds 1 and 3. */
  lemma MixedNumberColumn(lib: Lib)
    requires !lib.floatParses("nine")
    ensures var m := EvaluateColumn(lib, [Num(false, "5"), Num(false, "12"), Num(false, "9"), Str("nine")]);
      && m.pattern == Number && m.consistent == 1
      && m.inconsistentValues == [Num(false, "5"), Num(false, "9"), Str("nine")]
      && ConsistencyPercentage(m) == 25.0
  {
    assert !IsSpace("nine"[0]);
    LengthBandColumn(lib, "5", "12", "9", "nine");
  }

  /** A single non-null value survives the null filter and decides the pattern. */
  lemma SingleValueShape(lib: Lib, c: Cell)
    requires !IsNull(c)
    ensures Filter(NotNull, [c]) == [c] && DetectPattern(lib, [c]) == Classify(lib, c)
  {
    FilterSingleton(NotNull, c);
    assert [c][..0] == [];
    assert FirstNonNullAt([c], 0);
  }

  /** A column holding one non-null value classified as `p` (not number) has pattern `p` and is fully consistent. */
  lemma SingleValueColumn(lib: Lib, c: Cell, p: Pattern)
    requires !IsNull(c) && p != Number && Classify(lib, c) == p && PatternMatches(lib, c, p)
    ensures var m := EvaluateColumn(lib, [c]);
      && m.pattern == p && m.nonNull == 1 && m.consistent == 1 && m.inconsistentValues == []
  {
    SingleValueShape(lib, c);
    var rejects := Rejects(lib, p, LengthSum([c]), 1);
    assert Filter(rejects, [c]) == [] by {
      assert !rejects(c);
      FilterSingleton(rejects, c);
    }
    EvaluateFromParts(lib, [c], [c], p, []);
  }

  /**
   Text made only of Arabic-block characters and inner spaces, which float()
   rejects, is detected as Arabic: with no separator and no ASCII letter the
   date prefilter fails whether or not the text holds digits.
   */
  lemma ArabicBlockTextIsArabic(lib: Lib, s: string)
    requires s != [] && ArabicBlock(s[0]) && ArabicBlock(s[|s| - 1])
    requires forall i :: 0 <= i < |s| ==> ArabicBlock(s[i]) || s[i] == ' '
    requires !lib.floatParses(s)
    ensures !IsNull(Str(s)) && Classify(lib, Str(s)) == Arabic
  {
    StripKeepsTrimmed(s);
    assert !HasSeparator(s);
    assert forall i :: !LetterRunAt(s, i);
    assert !IsDate(lib, Str(s));
  }

  /**
   The single value "١٢٣ ابجد" (Arabic-Indic digits, a space, Arabic letters)
   is Arabic and consistent: the Arabic-Indic digits lie inside U+0600..U+06FF.
   */
  lemma ArabicDigitsAndLettersColumn(lib: Lib)
    requires !lib.floatParses("\U{0661}\U{0662}\U{0663} \U{0627}\U{0628}\U{062C}\U{062F}")
    ensures var m := EvaluateColumn(lib, [Str("\U{0661}\U{0662}\U{0663} \U{0627}\U{0628}\U{062C}\U{062F}")]);
      && m.pattern == Arabic && m.nonNull == 1 && m.consistent == 1 && m.inconsistentValues == []
  {
    var s := "\U{0661}\U{0662}\U{0663} \U{0627}\U{0628}\U{062C}\U{062F}";
    ArabicBlockTextIsArabic(lib, s);
    SingleValueColumn(lib, Str(s), Arabic);
  }

  /** Two missing cells and an empty string: nothing to check, the report is "other" at 100%. */
  lemma AllNullColumn(lib: Lib)
    ensures var m := EvaluateColumn(lib, [Missing, Missing, Str("")]);
      && m.total == 3 && m.nonNull == 0 && m.nullCount == 3 && m.pattern == Other
      && m.inconsistentValues == [] && ConsistencyPercentage(m) == 100.0
  {
    var col := [Missing, Missing, Str("")];
    assert AllNull(col);
    AllNullColumnReport(lib, col);
  }
}
