/** The video extractor `search_videos`, over the text already taken from
    each `#search li.vr.vres` item. */
module Videos {
  import opened Outcomes
  import opened Text
  import opened Fields

  const VIDEO_ORIGIN := "https://sg.video.search.yahoo.com"
  const NO_VIDEO_RESULTS := "Couldn't find any results for '#search li.vr.vres'"

  /** The parsed `data` attribute of the anchor: `m` is `Some(u)` when the
      JSON field `m` is truthy and `m.u` is `u`, `None` when it is null or
      empty. */
  datatype PreviewData = PreviewData(m: Option<string>)

  /** The item's first anchor: its `href` and its `data` attribute
      (`None` when the attribute is missing or empty). */
  datatype VideoAnchor = VideoAnchor(href: string, data: Option<PreviewData>)

  /** The `div.v-meta` block: first child (flattened), `.v-age`, last child. */
  datatype Metadata = Metadata(title: Option<string>, age: Option<string>, cite: Option<string>)

  datatype VideoBlock = VideoBlock(
    anchor: Option<VideoAnchor>,
    thumbnailSrc: Option<string>,   // `img` src
    duration: Option<string>,       // `span.v-time` text
    metadata: Option<Metadata>)

  /** The playable link: the vertical's origin in front of the relative href. */
  function VideoLink(href: string): (link: string)
    ensures StartsWith(link, VIDEO_ORIGIN)
    ensures link[|VIDEO_ORIGIN|..] == href
  {
    var link := VIDEO_ORIGIN + href;
    assert link[..|VIDEO_ORIGIN|] == VIDEO_ORIGIN;
    link
  }

  /** The preview URL, present only when `data` is there and its `m` is truthy. */
  function VideoPreview(a: VideoAnchor): (p: Option<string>)
    ensures p.Some? <==> a.data.Some? && a.data.value.m.Some?
    ensures p.Some? ==> p == a.data.value.m
  {
    match a.data
    case None => None
    case Some(meta) => meta.m
  }

  /** The anchor's keys: the link, and the preview when there is one. */
  function AnchorFields(anchor: Option<VideoAnchor>): (e: Entry)
    ensures "link" in e <==> anchor.Some?
    ensures "video_preview" in e <==> anchor.Some? && VideoPreview(anchor.value).Some?
    ensures e.Keys <= {"link", "video_preview"}
    ensures "link" in e ==> e["link"] == Str(VideoLink(anchor.value.href))
    ensures "video_preview" in e ==> e["video_preview"] == Str(VideoPreview(anchor.value).value)
  {
    match anchor
    case None => map[]
    case Some(a) =>
      var withLink := map["link" := Str(VideoLink(a.href))];
      match VideoPreview(a)
      case None => withLink
      case Some(u) => withLink["video_preview" := Str(u)]
  }

  /** The metadata block's keys: title, age and citation, each when found. */
  function MetadataFields(metadata: Option<Metadata>): (e: Entry)
    ensures "title" in e <==> metadata.Some? && metadata.value.title.Some?
    ensures "age" in e <==> metadata.Some? && metadata.value.age.Some?
    ensures "cite" in e <==> metadata.Some? && metadata.value.cite.Some?
    ensures e.Keys <= {"title", "age", "cite"}
    ensures "title" in e ==> e["title"] == Str(metadata.value.title.value)
    ensures "age" in e ==> e["age"] == Str(metadata.value.age.value)
    ensures "cite" in e ==> e["cite"] == Str(metadata.value.cite.value)
  {
    match metadata
    case None => map[]
    case Some(md) =>
      var e0: Entry := map[];
      var e1 := if md.title.Some? then e0["title" := Str(md.title.value)] else e0;
      var e2 := if md.age.Some? then e1["age" := Str(md.age.value)] else e1;
      if md.cite.Some? then e2["cite" := Str(md.cite.value)] else e2
  }

  /** The entry of one item: a key for each part found, none for a part
      missing. */
  function VideoEntry(b: VideoBlock): (e: Entry)
    ensures "link" in e <==> b.anchor.Some?
    ensures "link" in e ==> e["link"] == Str(VideoLink(b.anchor.value.href))
    ensures "video_preview" in e <==> b.anchor.Some? && VideoPreview(b.anchor.value).Some?
    ensures "video_preview" in e ==> e["video_preview"] == Str(VideoPreview(b.anchor.value).value)
    ensures "thumbnail" in e <==> b.thumbnailSrc.Some?
    ensures "thumbnail" in e ==> e["thumbnail"] == Str(b.thumbnailSrc.value)
    ensures "duration" in e <==> b.duration.Some?
    ensures "duration" in e ==> e["duration"] == Str(b.duration.value)
    ensures e.Keys - {"link", "video_preview", "thumbnail", "duration"} == MetadataFields(b.metadata).Keys
    ensures forall k :: k in MetadataFields(b.metadata) ==> e[k] == MetadataFields(b.metadata)[k]
  {
    var e0 := AnchorFields(b.anchor);
    var e1 := if b.thumbnailSrc.Some? then e0["thumbnail" := Str(b.thumbnailSrc.value)] else e0;
    var e2 := if b.duration.Some? then e1["duration" := Str(b.duration.value)] else e1;
    e2 + MetadataFields(b.metadata)
  }

  /** `search_videos` after the fetch: no item at all is an error; otherwise
      one entry per item, in page order. */
  method SearchVideos(results: seq<VideoBlock>) returns (r: Result<seq<Entry>>)
    ensures results == [] ==> r == Failure(AssertionError(NO_VIDEO_RESULTS))
    ensures results != [] ==> r.Success? && |r.value| == |results|
    ensures results != [] ==> forall i :: 0 <= i < |results| ==> r.value[i] == VideoEntry(results[i])
  {
    if results == [] {
      return Failure(AssertionError(NO_VIDEO_RESULTS));
    }
    var contents: seq<Entry> := [];
    for n := 0 to |results|
      invariant |contents| == n
      invariant forall i :: 0 <= i < n ==> contents[i] == VideoEntry(results[i])
    {
      contents := contents + [VideoEntry(results[n])];
    }
    return Success(contents);
  }
}
