/** `extractFunctionComponents`: the parameter list and the body of a
    function definition, taken with the single-shot regular expressions
    `/\(([^)]*)\)/` and `/\{([^}]*)\}/`. A pattern of this shape, an opener,
    a run of non-closers and a closer, is matched by index search rather
    than by a regular-expression engine. */
module Extraction {
  import opened Wrappers
  import opened JsTrim
  import opened JsSearch

  /** The pattern `o([^c]*)c` matches `s[i..j + 1]`: an opener at `i`, a
      closer at `j`, and no closer strictly between (openers may occur). */
  predicate MatchAt(s: string, o: char, c: char, i: int, j: int) {
    && 0 <= i < j < |s|
    && s[i] == o && s[j] == c
    && forall k :: i < k < j ==> s[k] != c
  }

  /** The match `String.prototype.match` reports: the one that starts
      leftmost. */
  ghost predicate IsLeftmostMatch(s: string, o: char, c: char, i: int, j: int) {
    && MatchAt(s, o, c, i, j)
    && forall i', j' :: MatchAt(s, o, c, i', j') ==> i <= i'
  }

  ghost predicate NoMatch(s: string, o: char, c: char) {
    forall i, j :: !MatchAt(s, o, c, i, j)
  }

  /** Finds the leftmost match by index search: the first opener, then the
      first closer after it. If no closer follows the first opener, none
      follows any later opener either, so there is no match at all. */
  function FindMatch(s: string, o: char, c: char): (r: Option<(nat, nat)>)
    ensures r.Some? ==> IsLeftmostMatch(s, o, c, r.value.0, r.value.1)
    ensures r.None? ==> NoMatch(s, o, c)
  {
    match IndexOf(s, [o], 0)
    case None =>
      assert NoMatch(s, o, c) by {
        forall i, j ensures !MatchAt(s, o, c, i, j) {
          OccursAtChar(s, o, i);
        }
      }
      None
    case Some(i) =>
      OccursAtChar(s, o, i);
      assert forall i' :: 0 <= i' < i ==> s[i'] != o by {
        forall i' | 0 <= i' < i ensures s[i'] != o {
          OccursAtChar(s, o, i');
        }
      }
      match IndexOf(s, [c], i + 1)
      case None =>
        assert NoMatch(s, o, c) by {
          forall i', j' ensures !MatchAt(s, o, c, i', j') {
            OccursAtChar(s, c, j');
          }
        }
        None
      case Some(j) =>
        OccursAtChar(s, c, j);
        assert forall k :: i < k < j ==> s[k] != c by {
          forall k | i < k < j ensures s[k] != c {
            OccursAtChar(s, c, k);
          }
        }
        Some((i, j))
  }

  /** There is at most one leftmost match. */
  lemma LeftmostUnique(s: string, o: char, c: char, i: int, j: int, i': int, j': int)
    requires IsLeftmostMatch(s, o, c, i, j) && IsLeftmostMatch(s, o, c, i', j')
    ensures i == i' && j == j'
  {
  }

  /** The index search agrees with the regular expression in both
      directions: it reports `(i, j)` exactly when `(i, j)` is the leftmost
      match, and nothing exactly when there is no match. */
  lemma FindMatchIsLeftmost(s: string, o: char, c: char, i: nat, j: nat)
    ensures FindMatch(s, o, c) == Some((i, j)) <==> IsLeftmostMatch(s, o, c, i, j)
    ensures FindMatch(s, o, c).None? <==> NoMatch(s, o, c)
  {
    var r := FindMatch(s, o, c);
    if IsLeftmostMatch(s, o, c, i, j) {
      assert r.Some?;
      LeftmostUnique(s, o, c, i, j, r.value.0, r.value.1);
    }
    if r.Some? {
      assert !NoMatch(s, o, c) by {
        assert MatchAt(s, o, c, r.value.0, r.value.1);
      }
    }
  }

  /** `s.match(/o([^c]*)c/)`, capture group 1 trimmed, or `''` without a
      match. The result is trimmed, contains no closer, and is a substring
      of `s`: the trimmed text strictly between the leftmost match's
      delimiters. */
  function Capture(s: string, o: char, c: char): (r: string)
    ensures NoMatch(s, o, c) ==> r == ""
    ensures forall i, j :: IsLeftmostMatch(s, o, c, i, j) ==> r == Trim(s[i + 1..j])
    ensures IsTrimmed(r) && c !in r
    ensures Contains(s, r)
  {
    var m := FindMatch(s, o, c);
    if m.None? then
      assert OccursAt(s, "", 0);
      ""
    else
      var i, j := m.value.0, m.value.1;
      LeftmostMatchIs(s, o, c, i, j);
      TrimmedSlice(s, i + 1, j, c);
      Trim(s[i + 1..j])
  }

  /** Every leftmost match is the given one. */
  lemma LeftmostMatchIs(s: string, o: char, c: char, i: int, j: int)
    requires IsLeftmostMatch(s, o, c, i, j)
    ensures forall i', j' :: IsLeftmostMatch(s, o, c, i', j') ==> i' == i && j' == j
  {
    forall i', j' | IsLeftmostMatch(s, o, c, i', j') ensures i' == i && j' == j {
      LeftmostUnique(s, o, c, i, j, i', j');
    }
  }

  /** The trim of a closer-free slice of `s` is a closer-free substring of `s`. */
  lemma TrimmedSlice(s: string, lo: nat, hi: nat, c: char)
    requires lo <= hi <= |s|
    requires forall k :: lo <= k < hi ==> s[k] != c
    ensures c !in Trim(s[lo..hi])
    ensures Contains(s, Trim(s[lo..hi]))
  {
    var inner := s[lo..hi];
    var r := Trim(inner);
    var a :| TrimmedAt(inner, r, a);
    assert inner[a..a + |r|] == r;
    SliceOfSlice(s, lo, hi, a, a + |r|);
    assert OccursAt(s, r, lo + a);
    forall k | 0 <= k < |r| ensures r[k] != c {
      assert r[k] == s[lo + a + k];
    }
  }

  /** A match whose opener is the first opener in `s` is the one captured. */
  lemma CaptureAt(s: string, o: char, c: char, i: int, j: int)
    requires MatchAt(s, o, c, i, j)
    requires forall k :: 0 <= k < i ==> s[k] != o
    ensures Capture(s, o, c) == Trim(s[i + 1..j])
  {
    assert IsLeftmostMatch(s, o, c, i, j);
  }

  /** In `pre + o + inner + c + post`, where `pre` holds no opener and
      `inner` no closer, the capture is the trimmed `inner`, whatever `post`
      holds. */
  lemma CaptureOfParts(pre: string, inner: string, post: string, o: char, c: char)
    requires o !in pre && c !in inner
    ensures Capture(pre + [o] + inner + [c] + post, o, c) == Trim(inner)
  {
    var s := pre + [o] + inner + [c] + post;
    var i, j := |pre|, |pre| + 1 + |inner|;
    assert forall k :: i < k < j ==> s[k] == inner[k - i - 1];
    assert forall k :: 0 <= k < i ==> s[k] == pre[k];
    assert s[i + 1..j] == inner;
    CaptureAt(s, o, c, i, j);
  }

  /** Without an opener there is no match. */
  lemma NoOpenerNoMatch(s: string, o: char, c: char)
    requires o !in s
    ensures NoMatch(s, o, c)
  {
  }

  datatype Components = Components(params: string, body: string)

  /** `extractFunctionComponents(code)`: `params` is the trimmed text between
      the first `(` and the first `)` after it, `body` the same for `{` and
      `}`; each silently becomes `''` when its pattern does not match. */
  function ExtractFunctionComponents(code: string): (r: Components)
    ensures NoMatch(code, '(', ')') ==> r.params == ""
    ensures forall i, j :: IsLeftmostMatch(code, '(', ')', i, j) ==>
      r.params == Trim(code[i + 1..j])
    ensures IsTrimmed(r.params) && ')' !in r.params && Contains(code, r.params)
    ensures NoMatch(code, '{', '}') ==> r.body == ""
    ensures forall i, j :: IsLeftmostMatch(code, '{', '}', i, j) ==>
      r.body == Trim(code[i + 1..j])
    ensures IsTrimmed(r.body) && '}' !in r.body && Contains(code, r.body)
  {
    Components(Capture(code, '(', ')'), Capture(code, '{', '}'))
  }
}
