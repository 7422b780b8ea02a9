/** `String.prototype.split` with a one-character string separator, and its
    inverse `Array.prototype.join`. */
module JsSplit {
  import opened Wrappers
  import opened JsSearch

  /** No piece contains the separator. */
  predicate SeparatorFree(parts: seq<string>, sep: char) {
    forall k :: 0 <= k < |parts| ==> sep !in parts[k]
  }

  /** `parts.join(sep)`: the pieces with one `sep` between neighbours. */
  function Join(parts: seq<string>, sep: char): string
    decreases |parts|
  {
    if |parts| == 0 then ""
    else if |parts| == 1 then parts[0]
    else parts[0] + [sep] + Join(parts[1..], sep)
  }

  /** `s.split(sep)`: the maximal separator-free pieces of `s`, left to right.
      There is one more piece than there are separators, so the empty string
      splits into the single piece `""`. */
  function Split(s: string, sep: char): (r: seq<string>)
    ensures |r| == multiset(s)[sep] + 1
    ensures SeparatorFree(r, sep)
    decreases |s|
  {
    match IndexOf(s, [sep], 0)
    case None =>
      assert sep !in s by {
        forall k | 0 <= k < |s| ensures s[k] != sep {
          OccursAtChar(s, sep, k);
        }
      }
      [s]
    case Some(i) =>
      OccursAtChar(s, sep, i);
      assert sep !in s[..i] by {
        forall k | 0 <= k < i ensures s[k] != sep {
          OccursAtChar(s, sep, k);
        }
      }
      assert s == s[..i] + [sep] + s[i + 1..];
      var rest := Split(s[i + 1..], sep);
      [s[..i]] + rest
  }

  /** Joining the pieces of a split gives back the original string. */
  lemma {:induction false} JoinSplit(s: string, sep: char)
    ensures Join(Split(s, sep), sep) == s
    decreases |s|
  {
    match IndexOf(s, [sep], 0)
    case None =>
    case Some(i) =>
      OccursAtChar(s, sep, i);
      JoinSplit(s[i + 1..], sep);
      assert s == s[..i] + [sep] + s[i + 1..];
  }

  /** Splitting a join of separator-free pieces gives back the pieces. */
  lemma {:induction false} SplitJoin(parts: seq<string>, sep: char)
    requires |parts| > 0 && SeparatorFree(parts, sep)
    ensures Split(Join(parts, sep), sep) == parts
    decreases |parts|
  {
    var s := Join(parts, sep);
    var p := parts[0];
    if |parts| == 1 {
      forall k | 0 <= k ensures !OccursAt(s, [sep], k) {
        OccursAtChar(s, sep, k);
      }
      assert IndexOf(s, [sep], 0) == None;
    } else {
      forall k | 0 <= k < |p| ensures !OccursAt(s, [sep], k) {
        OccursAtChar(s, sep, k);
        assert s[k] == p[k];
      }
      OccursAtChar(s, sep, |p|);
      IndexOfFinds(s, [sep], 0, |p|);
      assert s[..|p|] == p;
      assert s[|p| + 1..] == Join(parts[1..], sep);
      SplitJoin(parts[1..], sep);
    }
  }

  /** Reference characterisation of `split`: its result is the one non-empty
      list of separator-free pieces whose join is `s`. */
  lemma SplitCharacterised(s: string, sep: char, parts: seq<string>)
    ensures Split(s, sep) == parts <==>
      (|parts| > 0 && SeparatorFree(parts, sep) && Join(parts, sep) == s)
  {
    if |parts| > 0 && SeparatorFree(parts, sep) && Join(parts, sep) == s {
      SplitJoin(parts, sep);
    }
    if Split(s, sep) == parts {
      JoinSplit(s, sep);
    }
  }
}
