/** The link helpers of `yahoo_search/core.py`: redirect links, image-proxy
    links and the vertical ("tab") search URLs. */
module Links {
  import opened Outcomes
  import opened Text
  import opened Urls

  /** The query-path marker that precedes the destination in a redirect link. */
  const REDIRECT_MARKER := "RU="
  const HTTPS := "https://"

  /** `get_abs_link`: the percent-decoded text of the URL path after the
      first `RU=`, up to the next `/`. A link without the marker is an
      `IndexError`; an absent or empty link is the empty string. */
  function GetAbsLink(link: Option<string>): (r: Result<string>)
    ensures link.None? || link == Some("") ==> r == Success("")
    ensures r.Failure? ==> r.error == IndexError
  {
    if link.None? || link.value == "" then Success("")
    else
      var parts := Split(UrlPath(link.value), REDIRECT_MARKER);
      if |parts| < 2 then Failure(IndexError)
      else Success(Unquote(Split(parts[1], "/")[0]))
  }

  /** `get_abs_link` raises exactly for a non-empty link whose path has no
      redirect marker; it never returns a value for one. */
  lemma GetAbsLinkFails(link: Option<string>)
    ensures GetAbsLink(link).Failure? <==>
      link.Some? && link.value != "" && Free(UrlPath(link.value), REDIRECT_MARKER)
  {
    if link.Some? && link.value != "" {
      SplitHasSecond(UrlPath(link.value), REDIRECT_MARKER);
    }
  }

  /** The redirect segment: after the first marker at `i`, the text up to
      index `k`, the first `/` or the first further marker, whichever comes
      first (or the end). */
  predicate SegmentEnd(path: string, i: nat, k: nat)
    requires i + |REDIRECT_MARKER| <= |path|
  {
    SegmentEndIn(path[i + |REDIRECT_MARKER|..], k)
  }

  /** `k` ends the segment at the start of `t`. */
  predicate SegmentEndIn(t: string, k: nat) {
    k <= |t| && (k == |t| || t[k] == '/' || IsAt(t, REDIRECT_MARKER, k)) &&
    forall j: nat :: j < k ==> t[j] != '/' && !IsAt(t, REDIRECT_MARKER, j)
  }

  /** For a link whose path contains the marker, the result is exactly the
      percent-decoding of the redirect segment. */
  lemma GetAbsLinkDecodesSegment(link: string, i: nat, k: nat)
    requires link != ""
    requires FirstAt(UrlPath(link), REDIRECT_MARKER, i)
    requires SegmentEnd(UrlPath(link), i, k)
    ensures GetAbsLink(Some(link)) == Success(Unquote(UrlPath(link)[i + |REDIRECT_MARKER|..][..k]))
  {
    var path := UrlPath(link);
    var t := path[i + |REDIRECT_MARKER|..];
    // The piece after the first marker ends at the next marker, at or after k.
    var m := NextMarker(t, k);
    SplitSecond(path, REDIRECT_MARKER, i, m);
    var piece := t[..m];
    assert Split(path, REDIRECT_MARKER)[1] == piece;
    forall j: nat | j < k ensures !IsAt(piece, "/", j) {
      IsAtChar(piece, '/', j);
    }
    if k < m {
      assert t[k] == '/';
      IsAtChar(piece, '/', k);
    }
    SplitHead(piece, "/", k);
    assert piece[..k] == t[..k];
  }

  /** The first occurrence of the marker in `t` at or after `k`, or `|t|`,
      given that none starts before `k`. */
  function NextMarker(t: string, k: nat): (m: nat)
    requires k <= |t|
    requires forall j: nat :: j < k ==> !IsAt(t, REDIRECT_MARKER, j)
    ensures k <= m <= |t| && (m == |t| || IsAt(t, REDIRECT_MARKER, m))
    ensures forall j: nat :: j < m ==> !IsAt(t, REDIRECT_MARKER, j)
  {
    match Find(t, REDIRECT_MARKER, k)
    case Some(m) => m
    case None => |t|
  }

  /** An encoded slash (`%2F` or `%2f`) inside the segment is decoded to `/`
      and does not end the segment, because the path is cut at `/` before it
      is decoded. */
  lemma EncodedSlashKept(link: string, i: nat, a: string, e: string, b: string, rest: string)
    requires link != ""
    requires FirstAt(UrlPath(link), REDIRECT_MARKER, i)
    requires IsEncodedSlash(e)
    requires UrlPath(link)[i + |REDIRECT_MARKER|..] == a + e + b + rest
    requires '/' !in a && '/' !in b
    requires Free(a, REDIRECT_MARKER) && Free(b, REDIRECT_MARKER)
    requires rest == "" || rest[0] == '/'
    ensures GetAbsLink(Some(link)) == Success(Unquote(a) + "/" + Unquote(b))
  {
    var path := UrlPath(link);
    var k := |a| + 3 + |b|;
    SlashSegmentEnd(path[i + |REDIRECT_MARKER|..], a, e, b, rest);
    GetAbsLinkDecodesSegment(link, i, k);
    assert path[i + |REDIRECT_MARKER|..][..k] == a + e + b;
    EncodedSlash(a, e, b);
  }

  /** A segment `a%2Fb` followed by `/` or nothing ends after `b`. */
  lemma SlashSegmentEnd(t: string, a: string, e: string, b: string, rest: string)
    requires IsEncodedSlash(e)
    requires t == a + e + b + rest
    requires '/' !in a && '/' !in b
    requires Free(a, REDIRECT_MARKER) && Free(b, REDIRECT_MARKER)
    requires rest == "" || rest[0] == '/'
    ensures SegmentEndIn(t, |a| + 3 + |b|)
  {
    var k := |a| + 3 + |b|;
    forall j: nat | j < k ensures t[j] != '/' && !IsAt(t, REDIRECT_MARKER, j) {
      if j < |a| {
        MarkerNotInA(t, a, e, b + rest, j);
      } else if j < |a| + 3 {
        assert t[j] == e[j - |a|];
      } else {
        MarkerNotInB(t, a + e, b, rest, j);
      }
    }
    if k < |t| {
      assert t[k] == rest[0];
    }
  }

  /** No marker starts inside `a` in `a%2F...`. */
  lemma MarkerNotInA(t: string, a: string, e: string, more: string, j: nat)
    requires IsEncodedSlash(e)
    requires t == a + e + more
    requires '/' !in a && Free(a, REDIRECT_MARKER)
    requires j < |a|
    ensures t[j] != '/' && !IsAt(t, REDIRECT_MARKER, j)
  {
    assert t[j] == a[j];
    if j + 3 <= |a| {
      assert !IsAt(a, REDIRECT_MARKER, j);
      assert a[j..j + 3] == t[j..j + 3];
    } else {
      assert t[j + 2] == e[j + 2 - |a|];
    }
  }

  /** No marker starts inside `b` in `...b` followed by `/` or nothing. */
  lemma MarkerNotInB(t: string, pre: string, b: string, rest: string, j: nat)
    requires t == pre + b + rest
    requires '/' !in b && Free(b, REDIRECT_MARKER)
    requires rest == "" || rest[0] == '/'
    requires |pre| <= j < |pre| + |b|
    ensures t[j] != '/' && !IsAt(t, REDIRECT_MARKER, j)
  {
    var k := |pre| + |b|;
    assert t[j] == b[j - |pre|];
    if j + 3 <= k {
      assert !IsAt(b, REDIRECT_MARKER, j - |pre|);
      assert b[j - |pre|..j - |pre| + 3] == t[j..j + 3];
    } else if k < |t| {
      assert t[k] == rest[0];
    }
  }

  /** `get_abs_image`: `https://` followed by the text between the first and
      the second `https://` of the link (or to its end). A link without
      `https://` is an `IndexError`; an absent or empty link is the empty
      string. */
  function GetAbsImage(link: Option<string>): (r: Result<string>)
    ensures link.None? || link == Some("") ==> r == Success("")
    ensures r.Failure? ==> r.error == IndexError
    ensures r.Success? && r.value != "" ==> StartsWith(r.value, HTTPS)
  {
    if link.None? || link.value == "" then Success("")
    else
      var parts := Split(link.value, HTTPS);
      if |parts| < 2 then Failure(IndexError)
      else Success(HTTPS + parts[1])
  }

  /** `get_abs_image` raises exactly for a non-empty link without `https://`. */
  lemma GetAbsImageFails(link: Option<string>)
    ensures GetAbsImage(link).Failure? <==> link.Some? && link.value != "" && Free(link.value, HTTPS)
  {
    if link.Some? && link.value != "" {
      SplitHasSecond(link.value, HTTPS);
    }
  }

  /** What follows the leading `https://` of a resolved image link contains
      no further `https://`. */
  lemma GetAbsImageSingleScheme(link: Option<string>)
    requires GetAbsImage(link).Success? && GetAbsImage(link).value != ""
    ensures Free(GetAbsImage(link).value[|HTTPS|..], HTTPS)
  {
    var parts := Split(link.value, HTTPS);
    SplitPiecesFree(link.value, HTTPS, 1);
    assert GetAbsImage(link).value[|HTTPS|..] == parts[1];
  }

  /** For a link whose first `https://` is at `i` and whose next one (after
      it) is at `k` or absent, the result is `https://` and the text between. */
  lemma GetAbsImageBetween(link: string, i: nat, k: nat)
    requires FirstAt(link, HTTPS, i)
    requires var t := link[i + |HTTPS|..];
      k <= |t| && (k == |t| || IsAt(t, HTTPS, k)) && forall j: nat :: j < k ==> !IsAt(t, HTTPS, j)
    ensures GetAbsImage(Some(link)) == Success(HTTPS + link[i + |HTTPS|..][..k])
  {
    SplitSecond(link, HTTPS, i, k);
  }

  // ---------------------------------------------------------------------
  // Vertical search URLs

  const IMAGES_ORIGIN := "https://sg.image.search.yahoo.com"
  const NEWS_ORIGIN := "https://sg.news.search.yahoo.com"
  const VIDEOS_ORIGIN := "https://sg.video.search.yahoo.com"
  const SEARCH_PATH := "/search?q="

  /** The origin of each tab `query_to_tabs` builds. */
  function TabOrigin(tab: string): Option<string> {
    if tab == "images" then Some(IMAGES_ORIGIN)
    else if tab == "news" then Some(NEWS_ORIGIN)
    else if tab == "videos" then Some(VIDEOS_ORIGIN)
    else None
  }

  /** `query_to_tabs`: the images, news and videos search URLs of an (already
      quoted) query. */
  function QueryToTabs(query: string): (tabs: map<string, string>)
    ensures tabs.Keys == {"images", "news", "videos"}
    ensures forall tab :: tab in tabs ==>
      TabOrigin(tab).Some? && tabs[tab] == TabOrigin(tab).value + SEARCH_PATH + query
  {
    map[
      "images" := IMAGES_ORIGIN + SEARCH_PATH + query,
      "news" := NEWS_ORIGIN + SEARCH_PATH + query,
      "videos" := VIDEOS_ORIGIN + SEARCH_PATH + query
    ]
  }

  /** The query of a tab URL: what follows the tab's origin and `/search?q=`. */
  function TabQuery(tab: string, url: string): (q: Option<string>)
    ensures q.Some? ==> TabOrigin(tab).Some? && url == TabOrigin(tab).value + SEARCH_PATH + q.value
  {
    match TabOrigin(tab)
    case None => None
    case Some(origin) =>
      var prefix := origin + SEARCH_PATH;
      if StartsWith(url, prefix) then
        assert url == prefix + url[|prefix|..];
        Some(url[|prefix|..])
      else None
  }

  /** Every tab URL carries the query unchanged: stripping the tab's fixed
      prefix gives it back. */
  lemma TabsRecoverQuery(query: string, tab: string)
    requires tab in QueryToTabs(query)
    ensures TabQuery(tab, QueryToTabs(query)[tab]) == Some(query)
  {
    var prefix := TabOrigin(tab).value + SEARCH_PATH;
    var url := QueryToTabs(query)[tab];
    assert url == prefix + query;
    assert url[..|prefix|] == prefix;
    assert url[|prefix|..] == query;
  }

  /** Different queries give different tab URLs. */
  lemma QueryToTabsInjective(q1: string, q2: string)
    requires QueryToTabs(q1) == QueryToTabs(q2)
    ensures q1 == q2
  {
    TabsRecoverQuery(q1, "news");
    TabsRecoverQuery(q2, "news");
  }
}
