/** `String.prototype.trim` of ECMAScript: removes leading and trailing
    white space and line terminators. */
module JsTrim {

  /** The ECMAScript WhiteSpace code points (TAB, VT, FF, ZWNBSP and every
      space separator of category Zs) and LineTerminator code points (LF, CR,
      LS, PS): exactly the characters `trim` removes. */
  predicate IsJsWhitespace(c: char) {
    var n := c as int;
    || n == 0x09 || n == 0x0A || n == 0x0B || n == 0x0C || n == 0x0D
    || n == 0x20 || n == 0xA0 || n == 0x1680
    || (0x2000 <= n <= 0x200A)
    || n == 0x2028 || n == 0x2029 || n == 0x202F || n == 0x205F
    || n == 0x3000 || n == 0xFEFF
  }

  /** Every character of `s` in the index range `[lo, hi)` is white space. */
  predicate WhitespaceBetween(s: string, lo: int, hi: int) {
    forall k :: lo <= k < hi && 0 <= k < |s| ==> IsJsWhitespace(s[k])
  }

  /** Neither starts nor ends with a white-space character. */
  predicate IsTrimmed(s: string) {
    |s| == 0 || (!IsJsWhitespace(s[0]) && !IsJsWhitespace(s[|s| - 1]))
  }

  /** `r` is what is left of `s` after deleting the white-space prefix
      `s[..a]` and the white-space suffix `s[a + |r|..]`. */
  predicate TrimmedAt(s: string, r: string, a: int) {
    && 0 <= a && a + |r| <= |s|
    && s[a..a + |r|] == r
    && WhitespaceBetween(s, 0, a)
    && WhitespaceBetween(s, a + |r|, |s|)
  }

  /** The index of the first non-white-space character at or after `from`,
      or `|s|` if there is none. */
  function SkipForward(s: string, from: nat): (k: nat)
    requires from <= |s|
    ensures from <= k <= |s|
    ensures WhitespaceBetween(s, from, k)
    ensures k < |s| ==> !IsJsWhitespace(s[k])
    decreases |s| - from
  {
    if from < |s| && IsJsWhitespace(s[from]) then SkipForward(s, from + 1) else from
  }

  /** The end of `s[lo..hi]` once its trailing white space is dropped: the
      least `k` such that `s[k..hi]` is all white space. */
  function SkipBackward(s: string, lo: nat, hi: nat): (k: nat)
    requires lo <= hi <= |s|
    ensures lo <= k <= hi
    ensures WhitespaceBetween(s, k, hi)
    ensures k > lo ==> !IsJsWhitespace(s[k - 1])
    decreases hi - lo
  {
    if lo < hi && IsJsWhitespace(s[hi - 1]) then SkipBackward(s, lo, hi - 1) else hi
  }

  /** `s.trim()`: the result is trimmed and is `s` without a white-space
      prefix and a white-space suffix. */
  function Trim(s: string): (r: string)
    ensures IsTrimmed(r)
    ensures exists a :: TrimmedAt(s, r, a)
  {
    var a := SkipForward(s, 0);
    var b := SkipBackward(s, a, |s|);
    assert TrimmedAt(s, s[a..b], a);
    s[a..b]
  }

  /** Reference characterisation of `trim`: the trimmed string obtained from
      `s` by deleting a white-space prefix and a white-space suffix is unique,
      and it is `Trim(s)`. */
  lemma TrimUnique(s: string, t: string, a: int)
    requires IsTrimmed(t) && TrimmedAt(s, t, a)
    ensures Trim(s) == t
  {
    var a' := SkipForward(s, 0);
    var b' := SkipBackward(s, a', |s|);
    if |t| == 0 {
      assert WhitespaceBetween(s, 0, |s|);
      assert a' == |s|;
    } else {
      assert s[a] == t[0];
      assert s[a + |t| - 1] == t[|t| - 1];
      assert a' == a;
      assert b' == a + |t|;
    }
  }

  /** A string with no white space at either end is its own trim. */
  lemma TrimOfTrimmed(s: string)
    requires IsTrimmed(s)
    ensures Trim(s) == s
  {
    assert s[0..0 + |s|] == s;
    TrimUnique(s, s, 0);
  }
}
