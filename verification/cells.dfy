/**
 Raw spreadsheet cells as the workbook reader hands them over (object dtype,
 no numeric coercion), and the null/text normaliser every classifier builds on.
 */
module Cells {

  /**
   One raw cell value of a column. `floatInf` marks an infinity of Python's
   own float type (np.float64 included); other numpy infinities do not have it.
   */
  datatype Cell =
    | Missing                          // None, NaN, NaT: whatever pandas reports as missing
    | Num(floatInf: bool, text: string)  // int, float, np.integer or np.floating, never a bool; text is its str()
    | Bool(b: bool)
    | Stamp(text: string)              // date, datetime or Timestamp; text is its str()
    | Str(s: string)
    | Obj(text: string)                // any other object (a time of day, say); text is its str()

  /** Python's str.isspace on one character (the characters str.strip removes). */
  predicate IsSpace(ch: char) {
    || ('\t' <= ch <= '\r')
    || ('\U{1C}' <= ch <= ' ')
    || ch == '\U{85}' || ch == '\U{A0}' || ch == '\U{1680}'
    || ('\U{2000}' <= ch <= '\U{200A}')
    || ch == '\U{2028}' || ch == '\U{2029}' || ch == '\U{202F}'
    || ch == '\U{205F}' || ch == '\U{3000}'
  }

  predicate AllSpace(s: string) {
    forall k :: 0 <= k < |s| ==> IsSpace(s[k])
  }

  /** Index of the first non-space character at or after `i` (|s| if there is none). */
  function SkipSpace(s: string, i: nat): (j: nat)
    requires i <= |s|
    ensures i <= j <= |s|
    ensures forall k :: i <= k < j ==> IsSpace(s[k])
    ensures j < |s| ==> !IsSpace(s[j])
    decreases |s| - i
  {
    if i < |s| && IsSpace(s[i]) then SkipSpace(s, i + 1) else i
  }

  /** End of `s[lo..j]` once its trailing whitespace is dropped. */
  function SkipSpaceBack(s: string, lo: nat, j: nat): (e: nat)
    requires lo <= j <= |s|
    ensures lo <= e <= j
    ensures forall k :: e <= k < j ==> IsSpace(s[k])
    ensures e > lo ==> !IsSpace(s[e - 1])
    decreases j
  {
    if j > lo && IsSpace(s[j - 1]) then SkipSpaceBack(s, lo, j - 1) else j
  }

  /** `r` is `s` with whitespace-only runs of length `i` before and some length after cut away. */
  ghost predicate StrippedAt(s: string, r: string, i: int) {
    && 0 <= i && i + |r| <= |s|
    && r == s[i..i + |r|]
    && (forall k :: 0 <= k < i ==> IsSpace(s[k]))
    && (forall k :: i + |r| <= k < |s| ==> IsSpace(s[k]))
  }

  /** Python's str.strip() with no arguments. */
  function Strip(s: string): (r: string)
    ensures StrippedAt(s, r, SkipSpace(s, 0))
    ensures r != [] ==> !IsSpace(r[0]) && !IsSpace(r[|r| - 1])
    ensures r == [] <==> AllSpace(s)
  {
    var lo := SkipSpace(s, 0);
    var hi := SkipSpaceBack(s, lo, |s|);
    assert lo < |s| ==> lo < hi;
    s[lo..hi]
  }

  /** Text with no whitespace at either end is left as it is. */
  lemma StripKeepsTrimmed(s: string)
    requires s != [] && !IsSpace(s[0]) && !IsSpace(s[|s| - 1])
    ensures Strip(s) == s
  {
    var r := Strip(s);
    assert SkipSpace(s, 0) == 0;
    assert |r| == |s|;
  }

  /** Stripping twice is stripping once. */
  lemma StripIdempotent(s: string)
    ensures Strip(Strip(s)) == Strip(s)
  {
    if Strip(s) != [] {
      StripKeepsTrimmed(Strip(s));
    }
  }

  /** pd.isna(x), or x a string whose stripped form is empty. */
  function IsNull(c: Cell): (r: bool)
    ensures r <==> c.Missing? || (c.Str? && AllSpace(c.s))
  {
    match c
    case Missing => true
    case Str(s) => Strip(s) == []
    case _ => false
  }

  /** The display text of a cell: empty for a null cell, str() of the value otherwise. */
  function ToText(c: Cell): (r: string)
    ensures IsNull(c) ==> r == []
    ensures c.Str? && !IsNull(c) ==> r == c.s && Strip(r) != []
    ensures c.Num? || c.Stamp? || c.Obj? ==> r == c.text
    ensures c.Bool? ==> r == (if c.b then "True" else "False")
  {
    if IsNull(c) then ""
    else
      match c
      case Missing => ""
      case Num(_, t) => t
      case Bool(b) => if b then "True" else "False"
      case Stamp(t) => t
      case Str(s) => s
      case Obj(t) => t
  }
}
