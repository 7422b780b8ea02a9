/** Substring search as JavaScript strings do it: `indexOf` and `replace`
    with a string (not a regular expression) as the pattern. */
module JsSearch {
  import opened Wrappers

  /** `pat` occurs in `s` starting at index `i`. */
  predicate OccursAt(s: string, pat: string, i: int) {
    0 <= i && i + |pat| <= |s| && s[i..i + |pat|] == pat
  }

  predicate Contains(s: string, pat: string) {
    exists i :: 0 <= i <= |s| && OccursAt(s, pat, i)
  }

  /** `i` is the leftmost occurrence of `pat` in `s`. */
  predicate IsFirstOccurrence(s: string, pat: string, i: int) {
    OccursAt(s, pat, i) && forall k :: 0 <= k < i ==> !OccursAt(s, pat, k)
  }

  /** The leftmost occurrence of `pat` at or after `from`. For
      `from <= |s|` this is `s.indexOf(pat, from)`, with `None` for -1;
      JavaScript clamps a larger `from` to `|s|`, which this model does not. */
  function IndexOf(s: string, pat: string, from: nat): (r: Option<nat>)
    ensures r.Some? ==> from <= r.value && OccursAt(s, pat, r.value)
    ensures r.Some? ==> forall k :: from <= k < r.value ==> !OccursAt(s, pat, k)
    ensures r.None? ==> forall k :: from <= k ==> !OccursAt(s, pat, k)
    decreases |s| - from
  {
    if from + |pat| > |s| then None
    else if s[from..from + |pat|] == pat then Some(from)
    else IndexOf(s, pat, from + 1)
  }

  /** A one-character pattern occurs exactly where that character stands. */
  lemma OccursAtChar(s: string, c: char, i: int)
    ensures OccursAt(s, [c], i) <==> 0 <= i < |s| && s[i] == c
  {
    if 0 <= i < |s| && s[i] == c {
      assert s[i..i + 1] == [c];
    }
  }

  /** `indexOf` finds precisely the leftmost occurrence at or after `from`. */
  lemma IndexOfFinds(s: string, pat: string, from: nat, i: nat)
    requires from <= i && OccursAt(s, pat, i)
    requires forall k :: from <= k < i ==> !OccursAt(s, pat, k)
    ensures IndexOf(s, pat, from) == Some(i)
  {
  }

  /** Any string that contains `pat` has a leftmost occurrence of it. */
  lemma FirstOccurrence(s: string, pat: string) returns (i: nat)
    requires Contains(s, pat)
    ensures IsFirstOccurrence(s, pat, i)
  {
    var r := IndexOf(s, pat, 0);
    i := r.value;
  }

  /** `s.replace(pat, rep)` with a string pattern: only the first occurrence
      of `pat` is replaced; with no occurrence `s` is returned unchanged. */
  function ReplaceFirst(s: string, pat: string, rep: string): (r: string)
    ensures !Contains(s, pat) ==> r == s
    ensures forall i :: IsFirstOccurrence(s, pat, i) ==> r == s[..i] + rep + s[i + |pat|..]
    ensures Contains(s, pat) ==> |r| == |s| - |pat| + |rep|
  {
    match IndexOf(s, pat, 0)
    case None => s
    case Some(i) => s[..i] + rep + s[i + |pat|..]
  }

  /** `s.replace(pat, pat + c)`: inserts `c` right after the first
      occurrence of `pat` and copies everything else, so the result is one
      longer and holds one more `c`; without an occurrence nothing changes. */
  lemma AppendAfterFirst(s: string, pat: string, c: char)
    ensures var r := ReplaceFirst(s, pat, pat + [c]);
      && (!Contains(s, pat) ==> r == s)
      && (Contains(s, pat) ==> |r| == |s| + 1 && multiset(r) == multiset(s) + multiset{c})
      && forall p :: IsFirstOccurrence(s, pat, p) ==>
        && r[..p + |pat|] == s[..p + |pat|]
        && r[p + |pat|] == c
        && r[p + |pat| + 1..] == s[p + |pat|..]
  {
    if Contains(s, pat) {
      var p := FirstOccurrence(s, pat);
      AppendAfterOccurrence(s, pat, c, p);
    }
  }

  lemma AppendAfterOccurrence(s: string, pat: string, c: char, p: nat)
    requires IsFirstOccurrence(s, pat, p)
    ensures var r := ReplaceFirst(s, pat, pat + [c]);
      && r[..p + |pat|] == s[..p + |pat|]
      && r[p + |pat|] == c
      && r[p + |pat| + 1..] == s[p + |pat|..]
      && multiset(r) == multiset(s) + multiset{c}
  {
    var r := ReplaceFirst(s, pat, pat + [c]);
    var n := p + |pat|;
    var head, tail := s[..p] + pat, s[n..];
    assert s == head + tail && r == head + ([c] + tail) by {
      assert s[p..n] == pat;
      assert s == s[..p] + s[p..n] + s[n..];
    }
    InsertAfterHead(head, tail, c);
  }

  /** Inserting `c` between `head` and `tail`. */
  lemma InsertAfterHead(head: string, tail: string, c: char)
    ensures var s, r := head + tail, head + ([c] + tail);
      && r[..|head|] == s[..|head|]
      && r[|head|] == c
      && r[|head| + 1..] == s[|head|..]
      && multiset(r) == multiset(s) + multiset{c}
  {
    Halves(head, tail);
    Halves(head, [c] + tail);
  }

  /** The two halves of a concatenation. */
  lemma Halves(x: string, y: string)
    ensures (x + y)[..|x|] == x && (x + y)[|x|..] == y
    ensures multiset(x + y) == multiset(x) + multiset(y)
  {
  }

  /** After inserting right behind the first occurrence, that occurrence is
      still the first one. */
  lemma AppendKeepsFirst(s: string, pat: string, c: char, p: nat)
    requires IsFirstOccurrence(s, pat, p)
    ensures IsFirstOccurrence(ReplaceFirst(s, pat, pat + [c]), pat, p)
  {
    var r := ReplaceFirst(s, pat, pat + [c]);
    var n := p + |pat|;
    AppendAfterOccurrence(s, pat, c, p);
    SameSlices(r, s, n, p, n);
    forall k | 0 <= k < p ensures !OccursAt(r, pat, k) {
      SamePrefixSameOccurrence(r, s, pat, n, k);
    }
  }

  /** An occurrence inside a common prefix is an occurrence in both. */
  lemma SamePrefixSameOccurrence(r: string, s: string, pat: string, n: nat, k: nat)
    requires n <= |r| && n <= |s| && r[..n] == s[..n]
    requires k + |pat| <= n
    ensures OccursAt(r, pat, k) <==> OccursAt(s, pat, k)
  {
    SameSlices(r, s, n, k, k + |pat|);
  }

  /** Strings with a common prefix agree on every slice inside it. */
  lemma SameSlices(r: string, s: string, n: nat, lo: nat, hi: nat)
    requires n <= |r| && n <= |s| && r[..n] == s[..n]
    requires lo <= hi <= n
    ensures r[lo..hi] == s[lo..hi]
  {
    SliceOfSlice(r, 0, n, lo, hi);
    SliceOfSlice(s, 0, n, lo, hi);
  }

  /** A slice of a slice is a slice of the whole. */
  lemma SliceOfSlice(s: string, a: nat, b: nat, lo: nat, hi: nat)
    requires a <= b <= |s| && lo <= hi <= b - a
    ensures s[a..b][lo..hi] == s[a + lo..a + hi]
  {
    var u, v := s[a..b][lo..hi], s[a + lo..a + hi];
    assert |u| == |v|;
    forall k | 0 <= k < |u| ensures u[k] == v[k] {
      assert u[k] == s[a..b][lo + k] == s[a + lo + k];
    }
  }

  /** Occurrences that start after the first one has ended move one place
      to the right and are otherwise untouched. */
  lemma AppendShiftsLater(s: string, pat: string, c: char, p: nat, q: nat)
    requires IsFirstOccurrence(s, pat, p)
    requires OccursAt(s, pat, q) && p + |pat| <= q
    ensures OccursAt(ReplaceFirst(s, pat, pat + [c]), pat, q + 1)
  {
    var r := ReplaceFirst(s, pat, pat + [c]);
    var n := p + |pat|;
    AppendAfterOccurrence(s, pat, c, p);
    SliceOfSlice(r, n + 1, |r|, q - n, q - n + |pat|);
    SliceOfSlice(s, n, |s|, q - n, q - n + |pat|);
  }
}
