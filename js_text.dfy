/** JavaScript strings as the route handlers see them: sequences of UTF-16
    code units, so that `s.length` is `|s|`, and `String.prototype.trim`,
    which removes ECMAScript white space and line terminators from both ends. */
module JsText {

  /** One UTF-16 code unit. */
  newtype CodeUnit = c: int | 0 <= c < 0x1_0000

  type JsString = seq<CodeUnit>

  /** The code units of an ASCII literal (used for the fixed words of the API). */
  function FromAscii(s: string): (r: JsString)
    requires forall i :: 0 <= i < |s| ==> s[i] as int < 128
    ensures |r| == |s|
    ensures forall i :: 0 <= i < |s| ==> r[i] as int == s[i] as int
  {
    seq(|s|, i requires 0 <= i < |s| => s[i] as int as CodeUnit)
  }

  /** The code units `trim` removes: the WhiteSpace production of ECMA-262
      (TAB, VT, FF, ZWNBSP and every space separator of Unicode category Zs)
      and its LineTerminator production (LF, CR, LS, PS). */
  predicate IsWhiteSpace(c: CodeUnit) {
    || c == 0x0009 || c == 0x000B || c == 0x000C || c == 0xFEFF
    || c == 0x0020 || c == 0x00A0 || c == 0x1680 || (0x2000 <= c <= 0x200A)
    || c == 0x202F || c == 0x205F || c == 0x3000
    || c == 0x000A || c == 0x000D || c == 0x2028 || c == 0x2029
  }

  /** Every code unit is white space (the empty string is blank). */
  predicate IsBlank(s: JsString) {
    forall i :: 0 <= i < |s| ==> IsWhiteSpace(s[i])
  }

  /** Every code unit at a position in `[lo, hi)` is white space. */
  predicate BlankBetween(s: JsString, lo: nat, hi: nat)
    requires lo <= hi <= |s|
  {
    forall i :: lo <= i < hi ==> IsWhiteSpace(s[i])
  }

  /** Neither end is white space. */
  predicate IsTrimmed(s: JsString) {
    s == [] || (!IsWhiteSpace(s[0]) && !IsWhiteSpace(s[|s| - 1]))
  }

  /** `r` is `s` with its surrounding white space removed: `s` is a blank
      prefix, then `r`, then a blank suffix, and `r` is trimmed. */
  ghost predicate IsTrimOf(r: JsString, s: JsString) {
    && IsTrimmed(r)
    && exists i :: 0 <= i <= |s| - |r| && s[i..i + |r|] == r
         && BlankBetween(s, 0, i) && BlankBetween(s, i + |r|, |s|)
  }

  /** The first position at or after `from` that is not white space, or `|s|`. */
  function SkipLeading(s: JsString, from: nat): (n: nat)
    requires from <= |s|
    ensures from <= n <= |s|
    ensures BlankBetween(s, from, n)
    ensures n == |s| || !IsWhiteSpace(s[n])
    decreases |s| - from
  {
    if from < |s| && IsWhiteSpace(s[from]) then SkipLeading(s, from + 1) else from
  }

  /** The position just past the last code unit in `[lo, hi)` that is not
      white space, or `lo`. */
  function SkipTrailing(s: JsString, lo: nat, hi: nat): (m: nat)
    requires lo <= hi <= |s|
    ensures lo <= m <= hi
    ensures BlankBetween(s, m, hi)
    ensures m == lo || !IsWhiteSpace(s[m - 1])
    decreases hi
  {
    if lo < hi && IsWhiteSpace(s[hi - 1]) then SkipTrailing(s, lo, hi - 1) else hi
  }

  /** `String.prototype.trim`: `s` with its leading and trailing white space
      removed; empty exactly when `s` is blank. */
  function Trim(s: JsString): (r: JsString)
    ensures IsTrimOf(r, s)
    ensures r == [] <==> IsBlank(s)
  {
    var n := SkipLeading(s, 0);
    var m := SkipTrailing(s, n, |s|);
    var r := s[n..m];
    assert r != [] ==> r[0] == s[n] && r[|r| - 1] == s[m - 1];
    r
  }

  /** `trim` is determined by its description: whenever `s` splits into a
      blank prefix, a trimmed middle and a blank suffix, `Trim(s)` is that
      middle. */
  lemma TrimUnique(r: JsString, s: JsString)
    requires IsTrimOf(r, s)
    ensures Trim(s) == r
  {
    var i :| 0 <= i <= |s| - |r| && s[i..i + |r|] == r
             && BlankBetween(s, 0, i) && BlankBetween(s, i + |r|, |s|);
    if r != [] {
      var j := i + |r|;
      assert s[i] == r[0] && s[j - 1] == r[|r| - 1];
      var n := SkipLeading(s, 0);
      assert n == i;
      var m := SkipTrailing(s, n, |s|);
      assert m == j;
    }
  }

  /** Trimming a trimmed string changes nothing; in particular `trim` is
      idempotent. */
  lemma TrimmedIsFixed(s: JsString)
    requires IsTrimmed(s)
    ensures Trim(s) == s
  {
    assert s[0..0 + |s|] == s && BlankBetween(s, 0, 0) && BlankBetween(s, |s|, |s|);
    TrimUnique(s, s);
  }
}
