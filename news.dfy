/** The news extractor `search_news`, over the text already taken from each
    result block of the page. */
module News {
  import opened Outcomes
  import opened Text
  import opened Fields

  const DATA_IMAGE := "data:image/"
  const NEWS_CONTAINER_MISSING := "Could not find '#main #web' (news results)"

  /** A heading anchor: its text and its `href`. */
  datatype Anchor = Anchor(text: string, href: string)

  /** What one `li .dd.NewsArticle li` block contains; `None` where the
      selector matched nothing. */
  datatype NewsBlock = NewsBlock(
    thumbnailSrc: Option<string>,   // `img` src
    title: Option<Anchor>,          // `h4 a`
    source: Option<string>,         // `span.s-source` text
    time: Option<string>,           // `span.fc-2nd.s-time` text
    description: Option<string>)    // `p.s-desc`, flattened

  /** An inline placeholder image becomes `None`; a real source is kept. */
  function Thumbnail(src: string): (f: Field)
    ensures f == Null <==> StartsWith(src, DATA_IMAGE)
    ensures f != Null ==> f == Str(src)
  {
    if StartsWith(src, DATA_IMAGE) then Null else Str(src)
  }

  /** The time label without its two-character prefix (such as "· "). */
  function TimeLabel(text: string): (r: string)
    ensures |r| == if |text| >= 2 then |text| - 2 else 0
    ensures text == text[..|text| - |r|] + r
  {
    DropTwo(text)
  }

  /** The keys `search_news` sets for a block. */
  function NewsKeys(b: NewsBlock): set<string> {
    (if b.thumbnailSrc.Some? then {"thumbnail"} else {}) +
    (if b.title.Some? then {"title", "link"} else {}) +
    (if b.source.Some? then {"source"} else {}) +
    (if b.time.Some? then {"time"} else {}) +
    (if b.description.Some? then {"text"} else {})
  }

  /** The entry of one block: a key for each part found, none for a part
      missing; the news link is kept as it is (not redirect-decoded). */
  function NewsEntry(b: NewsBlock): (e: Entry)
    ensures e.Keys == NewsKeys(b)
    ensures b.thumbnailSrc.Some? ==> e["thumbnail"] == Thumbnail(b.thumbnailSrc.value)
    ensures b.title.Some? ==> e["title"] == Str(b.title.value.text) && e["link"] == Str(b.title.value.href)
    ensures b.source.Some? ==> e["source"] == Str(b.source.value)
    ensures b.time.Some? ==> e["time"] == Str(TimeLabel(b.time.value))
    ensures b.description.Some? ==> e["text"] == Str(b.description.value)
  {
    var e0: Entry := map[];
    var e1 := if b.thumbnailSrc.Some? then e0["thumbnail" := Thumbnail(b.thumbnailSrc.value)] else e0;
    var e2 := if b.title.Some? then e1["title" := Str(b.title.value.text)]["link" := Str(b.title.value.href)] else e1;
    var e3 := if b.source.Some? then e2["source" := Str(b.source.value)] else e2;
    var e4 := if b.time.Some? then e3["time" := Str(TimeLabel(b.time.value))] else e3;
    if b.description.Some? then e4["text" := Str(b.description.value)] else e4
  }

  /** `search_news` after the fetch: the results container must exist; then
      one entry per block, in page order. */
  method SearchNews(page: Option<seq<NewsBlock>>) returns (r: Result<seq<Entry>>)
    ensures page.None? ==> r == Failure(AssertionError(NEWS_CONTAINER_MISSING))
    ensures page.Some? ==> r.Success? && |r.value| == |page.value|
    ensures page.Some? ==> forall i :: 0 <= i < |page.value| ==> r.value[i] == NewsEntry(page.value[i])
  {
    if page.None? {
      return Failure(AssertionError(NEWS_CONTAINER_MISSING));
    }
    var blocks := page.value;
    var contents: seq<Entry> := [];
    for n := 0 to |blocks|
      invariant |contents| == n
      invariant forall i :: 0 <= i < n ==> contents[i] == NewsEntry(blocks[i])
    {
      contents := contents + [NewsEntry(blocks[n])];
    }
    return Success(contents);
  }

  // ---------------------------------------------------------------------
  // The `News` record each entry becomes

  /** The fields of the `News` record, filled from an entry by key name. */
  datatype NewsItem = NewsItem(
    title: Option<string>,
    thumbnail: Option<string>,
    source: Option<string>,
    lastUpdated: Option<string>,
    text: Option<string>)

  /** A string value stored under `key`, if there is one. */
  function StrAt(e: Entry, key: string): (r: Option<string>)
    ensures r.Some? <==> key in e && e[key].Str?
    ensures r.Some? ==> e[key] == Str(r.value)
  {
    if key in e && e[key].Str? then Some(e[key].s) else None
  }

  /** The record as the code builds it: every field is read under its own
      name, so `last_updated` looks for a key the extractor never sets. */
  function NewsItemAsWritten(e: Entry): NewsItem {
    NewsItem(StrAt(e, "title"), StrAt(e, "thumbnail"), StrAt(e, "source"),
             StrAt(e, "last_updated"), StrAt(e, "text"))
  }

  /** Counterexample: a block with a time label still yields a record with
      no `last_updated`; the label is dropped for every block. */
  lemma TimeDroppedAsWritten(b: NewsBlock)
    ensures NewsItemAsWritten(NewsEntry(b)).lastUpdated == None
    ensures b == NewsBlock(None, None, None, Some("· 2 hours ago"), None) ==>
      "time" in NewsEntry(b) && NewsEntry(b)["time"] == Str("2 hours ago")
  {
    assert "last_updated" !in NewsKeys(b);
    if b == NewsBlock(None, None, None, Some("· 2 hours ago"), None) {
      assert TimeLabel("· 2 hours ago") == "2 hours ago";
    }
  }

  /** The record as intended: `last_updated` is filled from the `time` key. */
  function NewsItemOf(e: Entry): NewsItem {
    NewsItem(StrAt(e, "title"), StrAt(e, "thumbnail"), StrAt(e, "source"),
             StrAt(e, "time"), StrAt(e, "text"))
  }

  /** With the intended reading every field of the record is filled from
      its block: the time label, the title, the source, the description and
      a real thumbnail (a placeholder thumbnail stays empty). */
  lemma NewsItemKeepsBlock(b: NewsBlock)
    ensures NewsItemOf(NewsEntry(b)).lastUpdated ==
      (if b.time.Some? then Some(TimeLabel(b.time.value)) else None)
    ensures NewsItemOf(NewsEntry(b)).title == (if b.title.Some? then Some(b.title.value.text) else None)
    ensures NewsItemOf(NewsEntry(b)).source == b.source
    ensures NewsItemOf(NewsEntry(b)).text == b.description
    ensures NewsItemOf(NewsEntry(b)).thumbnail ==
      (if b.thumbnailSrc.Some? && !StartsWith(b.thumbnailSrc.value, DATA_IMAGE) then b.thumbnailSrc else None)
  {
  }

  /** Over a whole page as `SearchNews` builds it: no record receives its
      time label as the code is written, and every block's label reaches
      its record under the intended reading. */
  lemma PageTimes(blocks: seq<NewsBlock>, entries: seq<Entry>)
    requires |entries| == |blocks|
    requires forall i :: 0 <= i < |blocks| ==> entries[i] == NewsEntry(blocks[i])
    ensures forall i :: 0 <= i < |entries| ==> NewsItemAsWritten(entries[i]).lastUpdated == None
    ensures forall i :: 0 <= i < |entries| ==>
      NewsItemOf(entries[i]).lastUpdated == if blocks[i].time.Some? then Some(TimeLabel(blocks[i].time.value)) else None
  {
    forall i | 0 <= i < |entries|
      ensures NewsItemAsWritten(entries[i]).lastUpdated == None
      ensures NewsItemOf(entries[i]).lastUpdated ==
        (if blocks[i].time.Some? then Some(TimeLabel(blocks[i].time.value)) else None)
    {
      TimeDroppedAsWritten(blocks[i]);
      NewsItemKeepsBlock(blocks[i]);
    }
  }
}
