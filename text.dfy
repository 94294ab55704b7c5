/** The subset of Python's `str` methods the scraper relies on. */
module Text {
  import opened Outcomes

  /** `pat` occurs in `s` starting at index `i`. */
  predicate IsAt(s: string, pat: string, i: nat) {
    i + |pat| <= |s| && s[i..i + |pat|] == pat
  }

  /** `s.startswith(prefix)`. */
  predicate StartsWith(s: string, prefix: string) {
    IsAt(s, prefix, 0)
  }

  /** `pat` does not occur anywhere in `s` (Python: `pat not in s`). */
  predicate Free(s: string, pat: string) {
    forall j: nat :: j <= |s| ==> !IsAt(s, pat, j)
  }

  /** `i` is the index of the leftmost occurrence of `pat` in `s`. */
  predicate FirstAt(s: string, pat: string, i: nat) {
    IsAt(s, pat, i) && forall j: nat :: j < i ==> !IsAt(s, pat, j)
  }

  /** `s.find(pat, from)`, with `None` for Python's -1. */
  function Find(s: string, pat: string, from: nat): (r: Option<nat>)
    ensures r.Some? ==> from <= r.value && IsAt(s, pat, r.value)
    ensures r.Some? ==> forall j: nat :: from <= j < r.value ==> !IsAt(s, pat, j)
    ensures r.None? ==> forall j: nat :: from <= j ==> !IsAt(s, pat, j)
    decreases |s| - from
  {
    if from + |pat| > |s| then None
    else if IsAt(s, pat, from) then Some(from)
    else Find(s, pat, from + 1)
  }

  /** `s.split(sep)` for a non-empty separator: the pieces between the
      non-overlapping occurrences of `sep`, scanned from the left. */
  function Split(s: string, sep: string): (parts: seq<string>)
    requires sep != ""
    ensures |parts| >= 1
    decreases |s|
  {
    match Find(s, sep, 0)
    case None => [s]
    case Some(i) => [s[..i]] + Split(s[i + |sep|..], sep)
  }

  /** `sep.join(parts)`, the inverse of `Split`. */
  function Join(parts: seq<string>, sep: string): string {
    if |parts| == 0 then ""
    else if |parts| == 1 then parts[0]
    else parts[0] + sep + Join(parts[1..], sep)
  }

  /** Joining the pieces again gives back the text that was split. */
  lemma {:induction false} SplitJoin(s: string, sep: string)
    requires sep != ""
    ensures Join(Split(s, sep), sep) == s
    decreases |s|
  {
    match Find(s, sep, 0)
    case None =>
    case Some(i) =>
      var rest := s[i + |sep|..];
      var parts := [s[..i]] + Split(rest, sep);
      assert Split(s, sep) == parts;
      assert parts[1..] == Split(rest, sep);
      calc {
        Join(parts, sep);
        parts[0] + sep + Join(parts[1..], sep);
        { SplitJoin(rest, sep); }
        s[..i] + sep + rest;
        { assert s[i..i + |sep|] == sep; }
        s;
      }
  }

  /** No piece of a split contains the separator. */
  lemma {:induction false} SplitPiecesFree(s: string, sep: string, k: nat)
    requires sep != ""
    requires k < |Split(s, sep)|
    ensures Free(Split(s, sep)[k], sep)
    decreases |s|
  {
    match Find(s, sep, 0)
    case None =>
    case Some(i) =>
      if k == 0 {
        forall j: nat ensures !IsAt(s[..i], sep, j) {
          if IsAt(s[..i], sep, j) {
            assert s[..i][j..j + |sep|] == s[j..j + |sep|];
            assert IsAt(s, sep, j);
          }
        }
      } else {
        SplitPiecesFree(s[i + |sep|..], sep, k - 1);
      }
  }

  /** `s.split(sep)` has a second piece exactly when `sep` occurs in `s`. */
  lemma SplitHasSecond(s: string, sep: string)
    requires sep != ""
    ensures |Split(s, sep)| >= 2 <==> !Free(s, sep)
  {
    match Find(s, sep, 0)
    case None =>
    case Some(i) =>
  }

  /** `s.split(sep)[0]` is `s` up to the first occurrence of `sep`, or all of
      `s` when there is none. */
  lemma SplitHead(s: string, sep: string, k: nat)
    requires sep != ""
    requires k <= |s|
    requires k == |s| || IsAt(s, sep, k)
    requires forall j: nat :: j < k ==> !IsAt(s, sep, j)
    ensures Split(s, sep)[0] == s[..k]
  {
    match Find(s, sep, 0)
    case None =>
    case Some(i) =>
  }

  /** `s.split(sep)[1]` is the text after the first occurrence of `sep` up to
      the next one, or to the end. */
  lemma SplitSecond(s: string, sep: string, i: nat, k: nat)
    requires sep != ""
    requires FirstAt(s, sep, i)
    requires var t := s[i + |sep|..];
      k <= |t| && (k == |t| || IsAt(t, sep, k)) && forall j: nat :: j < k ==> !IsAt(t, sep, j)
    ensures |Split(s, sep)| >= 2
    ensures Split(s, sep)[1] == s[i + |sep|..][..k]
  {
    assert Find(s, sep, 0) == Some(i);
    var t := s[i + |sep|..];
    assert Split(s, sep) == [s[..i]] + Split(t, sep);
    SplitHead(t, sep, k);
  }

  /** Python's `s[:-1]`: every character but the last; empty stays empty. */
  function DropLast(s: string): (r: string)
    ensures |s| > 0 ==> |r| == |s| - 1
    ensures |s| == 0 ==> r == ""
    ensures r == s[..|r|]
  {
    if |s| == 0 then "" else s[..|s| - 1]
  }

  /** Python's `s[2:]`: the text without its first two characters. */
  function DropTwo(s: string): (r: string)
    ensures |r| == if |s| >= 2 then |s| - 2 else 0
    ensures r == s[|s| - |r|..]
  {
    if |s| < 2 then "" else s[2..]
  }
}
