/**
 The shape classifiers: number, date, Arabic words and English words, plus the
 dispatch from a pattern tag to its classifier (the implicit "other" accepts
 everything).
 */
module Classifiers {
  import opened Cells

  /**
   Library behaviour outside the model, supplied by the caller:
   whether float(s) returns instead of raising, whether dateutil's
   parse(s, fuzzy=False) returns instead of raising, and str.isdigit on one
   character (a Unicode database property).
   */
  datatype Lib = Lib(
    floatParses: string -> bool,
    dateParses: string -> bool,
    isDigit: char -> bool)

  /** The five column shapes, as the detector reports them. */
  datatype Pattern = Number | Date | Arabic | English | Other

  predicate AsciiDigit(ch: char) {
    '0' <= ch <= '9'
  }

  predicate AsciiLetter(ch: char) {
    'A' <= ch <= 'Z' || 'a' <= ch <= 'z'
  }

  /** The symbols both word classes admit besides letters: space, underscore, hyphen, period. */
  predicate WordSymbol(ch: char) {
    ch == ' ' || ch == '_' || ch == '-' || ch == '.'
  }

  /** The two character classes of the word regular expressions. */
  datatype CharClass = EnglishClass | ArabicClass

  /** The Arabic Unicode block, U+0600 to U+06FF. */
  predicate ArabicBlock(ch: char) {
    '\U{0600}' <= ch <= '\U{06FF}'
  }

  predicate InClass(k: CharClass, ch: char) {
    match k
    case EnglishClass => AsciiLetter(ch) || WordSymbol(ch)
    case ArabicClass => ArabicBlock(ch) || WordSymbol(ch)
  }

  /** fullmatch of `^[class]+$`: consume one class character, then the rest or nothing. */
  function FullMatchPlus(k: CharClass, s: string): (r: bool)
    ensures r <==> |s| > 0 && forall i :: 0 <= i < |s| ==> InClass(k, s[i])
    decreases |s|
  {
    |s| > 0 && InClass(k, s[0]) && (|s| == 1 || FullMatchPlus(k, s[1..]))
  }

  /** Three consecutive ASCII letters starting at offset `i`. */
  predicate LetterRunAt(s: string, i: int) {
    0 <= i && i + 3 <= |s| && AsciiLetter(s[i]) && AsciiLetter(s[i + 1]) && AsciiLetter(s[i + 2])
  }

  /** re.search of `[A-Za-z]{3,}`: try each start offset in turn. */
  function HasLetterRun(s: string): (r: bool)
    ensures r <==> exists i :: LetterRunAt(s, i)
    decreases |s|
  {
    if |s| < 3 then
      assert forall i :: !LetterRunAt(s, i);
      false
    else if LetterRunAt(s, 0) then true
    else
      var r := HasLetterRun(s[1..]);
      assert forall i :: LetterRunAt(s[1..], i) <==> LetterRunAt(s, i + 1);
      assert forall i :: LetterRunAt(s, i) ==> LetterRunAt(s[1..], i - 1);
      r
  }

  predicate HasDigit(lib: Lib, s: string) {
    exists i :: 0 <= i < |s| && lib.isDigit(s[i])
  }

  predicate DateSeparator(ch: char) {
    ch == '-' || ch == '/' || ch == ':' || ch == '.'
  }

  predicate HasSeparator(s: string) {
    exists i :: 0 <= i < |s| && DateSeparator(s[i])
  }

  /** The cheap test run before the date parser is consulted. */
  predicate LooksLikeDate(lib: Lib, s: string) {
    HasDigit(lib, s) && (HasSeparator(s) || HasLetterRun(s))
  }

  /**
   is_number: a non-boolean numeric value other than an infinite Python float,
   or any other value whose text float() accepts.
   */
  function IsNumber(lib: Lib, c: Cell): (r: bool)
    ensures IsNull(c) ==> !r
    ensures c.Num? ==> (r <==> !c.floatInf)
    ensures c.Bool? ==> (r <==> lib.floatParses(if c.b then "True" else "False"))
    ensures c.Str? && !IsNull(c) ==> (r <==> lib.floatParses(c.s))
    ensures c.Stamp? || c.Obj? ==> (r <==> lib.floatParses(c.text))
  {
    if IsNull(c) then false
    else if c.Num? then !c.floatInf
    else lib.floatParses(ToText(c))
  }

  /**
   is_date: a date-typed value, or stripped text that has a digit, has a
   separator or a run of three ASCII letters, and that the date parser accepts.
   */
  function IsDate(lib: Lib, c: Cell): (r: bool)
    ensures IsNull(c) ==> !r
    ensures c.Stamp? ==> r
    ensures r && !c.Stamp? ==>
      var t := Strip(ToText(c));
      && (exists i :: 0 <= i < |t| && lib.isDigit(t[i]))
      && ((exists i :: 0 <= i < |t| && DateSeparator(t[i])) || (exists i :: LetterRunAt(t, i)))
      && lib.dateParses(t)
    ensures !IsNull(c) && LooksLikeDate(lib, Strip(ToText(c))) && lib.dateParses(Strip(ToText(c))) ==> r
  {
    if IsNull(c) then false
    else if c.Stamp? then true
    else
      var t := Strip(ToText(c));
      LooksLikeDate(lib, t) && lib.dateParses(t)
  }

  /** is_english_words: a string whose stripped form is one or more of A-Z a-z space _ - . */
  function IsEnglishWords(c: Cell): (r: bool)
    ensures r <==> (c.Str? && Strip(c.s) != [] &&
      forall i :: 0 <= i < |Strip(c.s)| ==> AsciiLetter(Strip(c.s)[i]) || WordSymbol(Strip(c.s)[i]))
  {
    if IsNull(c) then false
    else c.Str? && FullMatchPlus(EnglishClass, Strip(c.s))
  }

  /** is_arabic_words: a string whose stripped form is one or more of U+0600..U+06FF space _ - . */
  function IsArabicWords(c: Cell): (r: bool)
    ensures r <==> (c.Str? && Strip(c.s) != [] &&
      forall i :: 0 <= i < |Strip(c.s)| ==>
        ArabicBlock(Strip(c.s)[i]) || WordSymbol(Strip(c.s)[i]))
  {
    if IsNull(c) then false
    else c.Str? && FullMatchPlus(ArabicClass, Strip(c.s))
  }

  /** pattern_matches: null cells and the "other" pattern always match; otherwise the pattern's own classifier decides. */
  function PatternMatches(lib: Lib, c: Cell, p: Pattern): (r: bool)
    ensures IsNull(c) || p == Other ==> r
    ensures !IsNull(c) && p == Number ==> (r <==> IsNumber(lib, c))
    ensures !IsNull(c) && p == Date ==> (r <==> IsDate(lib, c))
    ensures !IsNull(c) && p == Arabic ==> (r <==> IsArabicWords(c))
    ensures !IsNull(c) && p == English ==> (r <==> IsEnglishWords(c))
  {
    if IsNull(c) then true
    else
      match p
      case Number => IsNumber(lib, c)
      case Date => IsDate(lib, c)
      case Arabic => IsArabicWords(c)
      case English => IsEnglishWords(c)
      case Other => true
  }

  /** Every classifier rejects a null cell. */
  lemma NullMatchesNoClassifier(lib: Lib, c: Cell)
    requires IsNull(c)
    ensures !IsNumber(lib, c) && !IsDate(lib, c) && !IsArabicWords(c) && !IsEnglishWords(c)
  {
  }

  /** Text with an ASCII digit in it is neither English nor Arabic words. */
  lemma WordsRejectAsciiDigits(c: Cell, i: int)
    requires c.Str? && 0 <= i < |Strip(c.s)| && AsciiDigit(Strip(c.s)[i])
    ensures !IsEnglishWords(c) && !IsArabicWords(c)
  {
    var t := Strip(c.s);
    assert !InClass(EnglishClass, t[i]) && !InClass(ArabicClass, t[i]);
  }
}
