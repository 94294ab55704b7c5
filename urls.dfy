/** The two pieces of `urllib.parse` the link helpers use: the path component
    of `urlsplit`, and `unquote` (percent-decoding). */
module Urls {
  import opened Outcomes
  import opened Text

  predicate IsAsciiLetter(c: char) {
    'a' <= c <= 'z' || 'A' <= c <= 'Z'
  }

  /** The characters `urlsplit` accepts in a scheme name. */
  predicate IsSchemeChar(c: char) {
    IsAsciiLetter(c) || '0' <= c <= '9' || c == '+' || c == '-' || c == '.'
  }

  /** `urlsplit` takes `url[:i]` as the scheme when `i` is the first colon,
      `i > 0`, the first character is an ASCII letter and every character
      before the colon is a scheme character. */
  predicate HasScheme(url: string, i: nat) {
    Find(url, ":", 0) == Some(i) && i > 0 && IsAsciiLetter(url[0]) &&
    forall j :: 0 <= j < i ==> IsSchemeChar(url[j])
  }

  /** The URL without its scheme and the colon after it. */
  function AfterScheme(url: string): string {
    match Find(url, ":", 0)
    case Some(i) =>
      if HasScheme(url, i) then url[i + 1..] else url
    case None => url
  }

  /** The end of the network location that starts at index 2: the first
      `/`, `?` or `#` after it, or the end of the text. */
  function NetlocEnd(rest: string): (e: nat)
    requires |rest| >= 2
    ensures 2 <= e <= |rest|
  {
    NetlocEndFrom(rest, 2)
  }

  function NetlocEndFrom(rest: string, k: nat): (e: nat)
    requires k <= |rest|
    ensures k <= e <= |rest|
    ensures forall j :: k <= j < e ==> rest[j] != '/' && rest[j] != '?' && rest[j] != '#'
    ensures e < |rest| ==> rest[e] == '/' || rest[e] == '?' || rest[e] == '#'
    decreases |rest| - k
  {
    if k == |rest| || rest[k] == '/' || rest[k] == '?' || rest[k] == '#' then k
    else NetlocEndFrom(rest, k + 1)
  }

  /** The text after a leading `//` network location, if there is one. */
  function WithoutNetloc(rest: string): string {
    if |rest| >= 2 && rest[..2] == "//" then rest[NetlocEnd(rest)..] else rest
  }

  /** The text before the first `#` and then before the first `?`. */
  function BeforeQuery(s: string): string {
    Split(Split(s, "#")[0], "?")[0]
  }

  /** `urlsplit(url).path`: drop the scheme, drop a `//` network location,
      then cut at the first `#` and at the first `?`. */
  function UrlPath(url: string): string {
    BeforeQuery(WithoutNetloc(AfterScheme(url)))
  }

  /** The path never holds a query or a fragment. */
  lemma UrlPathHasNoQuery(url: string)
    ensures Free(UrlPath(url), "?") && Free(UrlPath(url), "#")
  {
    var s := WithoutNetloc(AfterScheme(url));
    var beforeFragment := Split(s, "#")[0];
    var path := Split(beforeFragment, "?")[0];
    SplitPiecesFree(s, "#", 0);
    SplitPiecesFree(beforeFragment, "?", 0);
    forall j: nat | j <= |path| ensures !IsAt(path, "#", j) {
      if IsAt(path, "#", j) {
        SplitPrefix(beforeFragment, "?");
        assert path == beforeFragment[..|path|];
        assert IsAt(beforeFragment, "#", j);
      }
    }
  }

  /** The first piece of a split is a prefix of the text. */
  lemma SplitPrefix(s: string, sep: string)
    requires sep != ""
    ensures |Split(s, sep)[0]| <= |s| && Split(s, sep)[0] == s[..|Split(s, sep)[0]|]
  {
    match Find(s, sep, 0)
    case None =>
    case Some(i) =>
  }

  /** An occurrence of a one-character pattern is that character. */
  lemma IsAtChar(s: string, c: char, j: nat)
    ensures IsAt(s, [c], j) <==> j < |s| && s[j] == c
  {
    if j < |s| {
      assert s[j..j + 1] == [s[j]];
    }
  }

  /** The position of the first `c` in `s` at or after `from`, or `|s|`. */
  lemma FirstCharFrom(s: string, c: char, k: nat)
    requires k <= |s|
    requires k == |s| || s[k] == c
    requires forall j :: 0 <= j < k ==> s[j] != c
    ensures Split(s, [c])[0] == s[..k]
  {
    forall j: nat | j < k ensures !IsAt(s, [c], j) {
      IsAtChar(s, c, j);
    }
    if k < |s| {
      IsAtChar(s, c, k);
    }
    SplitHead(s, [c], k);
  }

  /** A valid scheme name and its colon are removed. */
  lemma AfterSchemeOf(scheme: string, rest: string)
    requires scheme != "" && IsAsciiLetter(scheme[0])
    requires forall j :: 0 <= j < |scheme| ==> IsSchemeChar(scheme[j])
    ensures AfterScheme(scheme + ":" + rest) == rest
  {
    var url := scheme + ":" + rest;
    var n := |scheme|;
    forall j: nat | j < n ensures !IsAt(url, ":", j) {
      IsAtChar(url, ':', j);
      assert url[j] == scheme[j];
    }
    IsAtChar(url, ':', n);
    assert Find(url, ":", 0) == Some(n);
    assert HasScheme(url, n);
    assert url[n + 1..] == rest;
  }

  /** The first index at or after `from` holding `c`, or `|s|`. */
  function IndexOfChar(s: string, c: char, from: nat): (k: nat)
    requires from <= |s|
    ensures from <= k <= |s| && (k == |s| || s[k] == c)
    ensures forall j :: from <= j < k ==> s[j] != c
    decreases |s| - from
  {
    if from == |s| || s[from] == c then from else IndexOfChar(s, c, from + 1)
  }

  /** Cutting `path + tail` at `#` and then at `?` leaves `path` when the
      tail is empty or starts a query or a fragment. */
  lemma PathBeforeQuery(path: string, tail: string)
    requires forall j :: 0 <= j < |path| ==> path[j] != '?' && path[j] != '#'
    requires tail == "" || tail[0] == '?' || tail[0] == '#'
    ensures BeforeQuery(path + tail) == path
  {
    var s := path + tail;
    var k := IndexOfChar(s, '#', |path|);
    if tail != [] && tail[0] == '#' {
      assert k == |path|;
    }
    FirstCharFrom(s, '#', k);
    var beforeFragment := s[..k];
    assert beforeFragment[..|path|] == path;
    FirstCharFrom(beforeFragment, '?', |path|);
  }

  /** For an absolute URL `scheme://host/path` followed by an optional query
      or fragment, the path component is `/path`. */
  lemma UrlPathOfAbsolute(scheme: string, host: string, path: string, tail: string)
    requires scheme != "" && IsAsciiLetter(scheme[0])
    requires forall j :: 0 <= j < |scheme| ==> IsSchemeChar(scheme[j])
    requires forall j :: 0 <= j < |host| ==> host[j] != '/' && host[j] != '?' && host[j] != '#'
    requires path == "" || path[0] == '/'
    requires forall j :: 0 <= j < |path| ==> path[j] != '?' && path[j] != '#'
    requires tail == "" || tail[0] == '?' || tail[0] == '#'
    ensures UrlPath(scheme + "://" + host + path + tail) == path
  {
    var url := scheme + "://" + host + path + tail;
    var after := path + tail;
    var rest := "//" + host + after;
    assert AfterScheme(url) == rest by {
      assert url == scheme + ":" + rest;
      AfterSchemeOf(scheme, rest);
    }
    assert WithoutNetloc(rest) == after by {
      assert after == "" || after[0] == '/' || after[0] == '?' || after[0] == '#' by {
        if path == "" { assert after == tail; } else { assert after[0] == path[0]; }
      }
      WithoutNetlocOf(host, after);
    }
    assert BeforeQuery(after) == path by {
      PathBeforeQuery(path, tail);
    }
  }

  /** A network location without separators is dropped up to what follows. */
  lemma WithoutNetlocOf(host: string, after: string)
    requires forall j :: 0 <= j < |host| ==> host[j] != '/' && host[j] != '?' && host[j] != '#'
    requires after == "" || after[0] == '/' || after[0] == '?' || after[0] == '#'
    ensures WithoutNetloc("//" + host + after) == after
  {
    var rest := "//" + host + after;
    var e := 2 + |host|;
    assert rest[..2] == "//";
    forall j | 2 <= j < e ensures rest[j] != '/' && rest[j] != '?' && rest[j] != '#' {
      assert rest[j] == host[j - 2];
    }
    assert e < |rest| ==> rest[e] == after[0];
    NetlocEndUnique(rest, 2, e);
    assert rest[e..] == after;
  }

  /** `NetlocEndFrom` stops at the first separator. */
  lemma NetlocEndUnique(rest: string, k: nat, e: nat)
    requires k <= e <= |rest|
    requires forall j :: k <= j < e ==> rest[j] != '/' && rest[j] != '?' && rest[j] != '#'
    requires e < |rest| ==> rest[e] == '/' || rest[e] == '?' || rest[e] == '#'
    ensures NetlocEndFrom(rest, k) == e
    decreases e - k
  {
    if k < e {
      NetlocEndUnique(rest, k + 1, e);
    }
  }

  // ---------------------------------------------------------------------
  // Percent-decoding

  predicate IsHexDigit(c: char) {
    '0' <= c <= '9' || 'a' <= c <= 'f' || 'A' <= c <= 'F'
  }

  function HexValue(c: char): (v: nat)
    requires IsHexDigit(c)
    ensures v < 16
  {
    if '0' <= c <= '9' then (c as int) - ('0' as int)
    else if 'a' <= c <= 'f' then (c as int) - ('a' as int) + 10
    else (c as int) - ('A' as int) + 10
  }

  /** The upper-case hexadecimal digit that `quote` writes. */
  function HexChar(v: nat): (c: char)
    requires v < 16
    ensures IsHexDigit(c) && HexValue(c) == v
  {
    "0123456789ABCDEF"[v]
  }

  /** `s` starts with a well-formed escape `%XX`. */
  predicate IsEscape(s: string) {
    |s| >= 3 && s[0] == '%' && IsHexDigit(s[1]) && IsHexDigit(s[2])
  }

  /** `unquote(s)`, read byte by byte: a well-formed `%XX` becomes the
      character with code `XX`; a `%` that does not start one stays as it is. */
  function Unquote(s: string): (r: string)
    ensures |r| <= |s|
    decreases |s|
  {
    if s == [] then ""
    else if IsEscape(s) then [(HexValue(s[1]) * 16 + HexValue(s[2])) as char] + Unquote(s[3..])
    else [s[0]] + Unquote(s[1..])
  }

  /** Without a `%`, `unquote` returns its argument unchanged. */
  lemma {:induction false} UnquoteWithoutPercent(s: string)
    requires '%' !in s
    ensures Unquote(s) == s
    decreases |s|
  {
    if s != [] {
      assert s[0] != '%';
      UnquoteWithoutPercent(s[1..]);
    }
  }

  /** Decoding is done piece by piece: a text that begins with `%` (or is
      empty) cannot complete an escape left open at the end of `a`. */
  lemma {:induction false} UnquoteAppend(a: string, c: string)
    requires c == [] || c[0] == '%'
    ensures Unquote(a + c) == Unquote(a) + Unquote(c)
    decreases |a|
  {
    var ac := a + c;
    if a == [] {
      assert ac == c;
    } else if c == [] {
      assert ac == a;
    } else if IsEscape(a) {
      assert ac[..3] == a[..3];
      assert IsEscape(ac);
      assert ac[3..] == a[3..] + c;
      UnquoteAppend(a[3..], c);
      assert Unquote(ac) == [(HexValue(a[1]) * 16 + HexValue(a[2])) as char] + Unquote(a[3..] + c);
    } else {
      assert !IsEscape(ac) by {
        if |a| < 3 {
          assert ac[|a|] == '%';
        } else {
          assert ac[..3] == a[..3];
        }
      }
      assert ac[0] == a[0];
      assert ac[1..] == a[1..] + c;
      UnquoteAppend(a[1..], c);
      assert Unquote(ac) == [a[0]] + Unquote(a[1..] + c);
    }
  }

  /** An escape of `/`, in either case: `%2F` or `%2f`. */
  predicate IsEncodedSlash(e: string) {
    e == "%2F" || e == "%2f"
  }

  /** An encoded slash decodes to a slash wherever it stands. */
  lemma EncodedSlash(a: string, e: string, b: string)
    requires IsEncodedSlash(e)
    ensures Unquote(a + e + b) == Unquote(a) + "/" + Unquote(b)
  {
    var c := e + b;
    assert a + e + b == a + c;
    UnquoteAppend(a, c);
    assert IsEscape(c);
    assert c[3..] == b;
    assert HexValue('2') * 16 + HexValue(e[2]) == 47;
  }

  /** An ASCII text with every character written as an escape `%XX`. */
  function PercentEncode(s: string): (r: string)
    requires forall i :: 0 <= i < |s| ==> (s[i] as int) < 128
    ensures |r| == 3 * |s|
    decreases |s|
  {
    if s == [] then ""
    else ['%', HexChar((s[0] as int) / 16), HexChar((s[0] as int) % 16)] + PercentEncode(s[1..])
  }

  /** Percent-decoding undoes percent-encoding of an ASCII text. */
  lemma {:induction false} UnquotePercentEncode(s: string)
    requires forall i :: 0 <= i < |s| ==> (s[i] as int) < 128
    ensures Unquote(PercentEncode(s)) == s
    decreases |s|
  {
    if s != [] {
      var e := PercentEncode(s);
      assert IsEscape(e);
      assert e[3..] == PercentEncode(s[1..]);
      UnquotePercentEncode(s[1..]);
      var n := s[0] as int;
      assert HexValue(e[1]) * 16 + HexValue(e[2]) == n;
    }
  }
}
