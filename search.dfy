/** The web search extractor `search`, over the text already taken from the
    result page: the organic result blocks, the info card and the two link
    lists. */
module Search {
  import opened Outcomes
  import opened Text
  import opened Links
  import opened Fields

  const SEARCH_CONTAINER_MISSING := "Could not find '.reg.searchCCenterMiddle' (search results)"

  /** A `div.compTitle h3 a` anchor: its `href` (`None` for an attribute
      without a value) and the text of its last child (`None` without one). */
  datatype TitleAnchor = TitleAnchor(href: Option<string>, lastChildText: Option<string>)

  /** One `.dd.algo.algo-sr` block: its title anchors and the flattened
      texts of its `.compText.aAbs p` paragraphs, in page order. */
  datatype WebpageBlock = WebpageBlock(titles: seq<TitleAnchor>, texts: seq<string>)

  /** The image (`src`, `None` without a value), heading span, and body
      paragraph of the `.cardReg.searchRightTop` panel. */
  datatype CardImage = CardImage(src: Option<string>)
  datatype CardSource = CardSource(href: Option<string>, text: string)
  datatype CardBody = CardBody(firstChildText: Option<string>, source: Option<CardSource>)
  datatype Card = Card(image: Option<CardImage>, heading: Option<string>, body: Option<CardBody>)

  /** An entry of the "also try" or "related searches" lists, as found. */
  datatype LinkText = LinkText(link: string, text: string)

  datatype SearchPage = SearchPage(
    results: Option<seq<WebpageBlock>>,   // `.reg.searchCenterMiddle`, if found
    card: Option<Card>,
    alsoTry: seq<LinkText>,
    relatedSearches: seq<LinkText>)

  datatype SearchContents = SearchContents(
    alsoTry: seq<LinkText>,
    pages: seq<Entry>,
    card: Entry,
    relatedSearches: seq<LinkText>)

  // ---------------------------------------------------------------------
  // One organic result

  /** The title of an anchor: its last child's text, or "" without one. */
  function TitleText(t: TitleAnchor): string {
    t.lastChildText.GetOr("")
  }

  /** The `page_results.update` of one title anchor. */
  function AddTitle(e: Entry, t: TitleAnchor): (r: Result<Entry>)
    ensures r.Failure? <==> GetAbsLink(t.href).Failure?
    ensures r.Success? ==> r.value.Keys == e.Keys + {"title", "link"}
    ensures r.Success? ==> r.value["title"] == Str(TitleText(t)) && r.value["link"] == Str(GetAbsLink(t.href).value)
    ensures r.Success? ==> forall k :: k in e && k != "title" && k != "link" ==> r.value[k] == e[k]
  {
    var link :- GetAbsLink(t.href);
    Success(e["title" := Str(TitleText(t))]["link" := Str(link)])
  }

  /** The entry after the title loop over `titles`, starting from `e`. */
  function WithTitles(e: Entry, titles: seq<TitleAnchor>): Result<Entry>
    decreases |titles|
  {
    if titles == [] then Success(e)
    else
      var before :- WithTitles(e, titles[..|titles| - 1]);
      AddTitle(before, titles[|titles| - 1])
  }

  /** The entry after the text loop over `texts`, starting from `e`. */
  function WithTexts(e: Entry, texts: seq<string>): Entry
    decreases |texts|
  {
    if texts == [] then e else WithTexts(e, texts[..|texts| - 1])["text" := Str(texts[|texts| - 1])]
  }

  /** The entry of one organic result block. */
  function PageEntry(b: WebpageBlock): Result<Entry> {
    var e :- WithTitles(map[], b.titles);
    Success(WithTexts(e, b.texts))
  }

  /** Every title anchor's link can be resolved. */
  predicate AllTitlesResolve(titles: seq<TitleAnchor>)
    decreases |titles|
  {
    titles == [] ||
    (AllTitlesResolve(titles[..|titles| - 1]) && GetAbsLink(titles[|titles| - 1].href).Success?)
  }

  /** The link of a title anchor can be resolved. */
  predicate Resolves(t: TitleAnchor) {
    GetAbsLink(t.href).Success?
  }

  /** `AllTitlesResolve` says what its name says. */
  lemma {:induction false} AllTitlesResolveMeans(titles: seq<TitleAnchor>)
    ensures AllTitlesResolve(titles) <==> forall i :: 0 <= i < |titles| ==> Resolves(titles[i])
    decreases |titles|
  {
    if titles != [] {
      AllTitlesResolveMeans(titles[..|titles| - 1]);
      AllButLast(titles, titles[..|titles| - 1], Resolves);
    }
  }

  /** A property holds of every element exactly when it holds of every
      element but the last, and of the last. */
  lemma AllButLast<T>(xs: seq<T>, init: seq<T>, p: T -> bool)
    requires xs != [] && init == xs[..|xs| - 1]
    ensures (forall i :: 0 <= i < |xs| ==> p(xs[i])) <==>
      (forall i :: 0 <= i < |init| ==> p(init[i])) && p(xs[|xs| - 1])
  {
    assert forall i :: 0 <= i < |init| ==> init[i] == xs[i];
  }

  /** The title loop fails exactly when the link of some anchor cannot be
      resolved, and then with an `IndexError`. */
  lemma {:induction false} WithTitlesFailure(e: Entry, titles: seq<TitleAnchor>)
    ensures WithTitles(e, titles).Success? <==> AllTitlesResolve(titles)
    ensures WithTitles(e, titles).Failure? ==> WithTitles(e, titles).error == IndexError
    decreases |titles|
  {
    if titles != [] {
      var prefix := titles[..|titles| - 1];
      var last := titles[|titles| - 1];
      WithTitlesFailure(e, prefix);
      var before := WithTitles(e, prefix);
      if before.Success? {
        assert WithTitles(e, titles) == AddTitle(before.value, last);
      } else {
        assert WithTitles(e, titles) == Failure(before.error);
      }
    }
  }

  /** When the title loop succeeds, the last anchor's title and link win. */
  lemma {:induction false} WithTitlesSuccess(e: Entry, titles: seq<TitleAnchor>)
    requires WithTitles(e, titles).Success?
    ensures titles == [] ==> WithTitles(e, titles).value == e
    ensures titles != [] ==>
      var r := WithTitles(e, titles).value;
      var last := titles[|titles| - 1];
      r.Keys == e.Keys + {"title", "link"} &&
      r["title"] == Str(TitleText(last)) && r["link"] == Str(GetAbsLink(last.href).value)
    ensures forall k :: k in e && k != "title" && k != "link" ==> WithTitles(e, titles).value[k] == e[k]
    decreases |titles|
  {
    if titles != [] {
      var prefix := titles[..|titles| - 1];
      WithTitlesSuccess(e, prefix);
    }
  }

  /** After the text loop, the last paragraph's text wins and every other
      key is as before. */
  lemma {:induction false} WithTextsResult(e: Entry, texts: seq<string>)
    ensures WithTexts(e, texts).Keys == e.Keys + (if texts == [] then {} else {"text"})
    ensures texts != [] ==> WithTexts(e, texts)["text"] == Str(texts[|texts| - 1])
    ensures forall k :: k in e && k != "text" ==> WithTexts(e, texts)[k] == e[k]
    decreases |texts|
  {
    if texts != [] {
      WithTextsResult(e, texts[..|texts| - 1]);
    }
  }

  /** One result block: an `IndexError` exactly when one of its title
      links has no redirect marker; otherwise a title and link from the last
      title anchor, a text from the last paragraph, and nothing else. */
  lemma PageEntryResult(b: WebpageBlock)
    ensures PageEntry(b).Success? <==> AllTitlesResolve(b.titles)
    ensures PageEntry(b).Failure? ==> PageEntry(b).error == IndexError
    ensures PageEntry(b).Success? ==>
      var e := PageEntry(b).value;
      && e.Keys == (if b.titles == [] then {} else {"title", "link"}) + (if b.texts == [] then {} else {"text"})
      && (b.titles != [] ==>
           e["title"] == Str(TitleText(b.titles[|b.titles| - 1])) &&
           e["link"] == Str(GetAbsLink(b.titles[|b.titles| - 1].href).value))
      && (b.texts != [] ==> e["text"] == Str(b.texts[|b.texts| - 1]))
  {
    WithTitlesFailure(map[], b.titles);
    if WithTitles(map[], b.titles).Success? {
      WithTitlesSuccess(map[], b.titles);
      WithTextsResult(WithTitles(map[], b.titles).value, b.texts);
    }
  }

  /** The loops of `search` over one result block. */
  method BuildPage(b: WebpageBlock) returns (r: Result<Entry>)
    ensures r == PageEntry(b)
  {
    var entry: Entry := map[];
    for n := 0 to |b.titles|
      invariant WithTitles(map[], b.titles[..n]) == Success(entry)
    {
      assert b.titles[..n + 1][..n] == b.titles[..n];
      var link := GetAbsLink(b.titles[n].href);
      if link.Failure? {
        FailureStays(b.titles, n + 1);
        return Failure(link.error);
      }
      entry := entry["title" := Str(TitleText(b.titles[n]))]["link" := Str(link.value)];
    }
    assert b.titles[..|b.titles|] == b.titles;
    for n := 0 to |b.texts|
      invariant WithTexts(WithTitles(map[], b.titles).value, b.texts[..n]) == entry
    {
      assert b.texts[..n + 1][..n] == b.texts[..n];
      entry := entry["text" := Str(b.texts[n])];
    }
    assert b.texts[..|b.texts|] == b.texts;
    return Success(entry);
  }

  /** Once the title loop has failed on a prefix, the whole loop fails with
      the same error. */
  lemma FailureStays(titles: seq<TitleAnchor>, n: nat)
    requires n <= |titles|
    requires WithTitles(map[], titles[..n]).Failure?
    ensures WithTitles(map[], titles) == Failure(IndexError)
  {
    WithTitlesFailure(map[], titles[..n]);
    WithTitlesFailure(map[], titles);
    AllTitlesResolveMeans(titles[..n]);
    AllTitlesResolveMeans(titles);
    assert forall i :: 0 <= i < n ==> titles[..n][i] == titles[i];
  }

  // ---------------------------------------------------------------------
  // The info card

  /** The image key of the card, resolved through the image proxy. */
  function CardImageFields(image: Option<CardImage>): (r: Result<Entry>)
    ensures r.Failure? <==> image.Some? && GetAbsImage(image.value.src).Failure?
    ensures r.Success? ==> r.value.Keys == if image.Some? then {"image"} else {}
    ensures r.Success? && image.Some? ==> r.value["image"] == Str(GetAbsImage(image.value.src).value)
  {
    match image
    case None => Success(map[])
    case Some(img) =>
      var src :- GetAbsImage(img.src);
      Success(map["image" := Str(src)])
  }

  /** The body keys of the card: its first text and its cited source. */
  function CardBodyFields(body: CardBody): (r: Result<Entry>)
    ensures r.Failure? <==> body.source.Some? && GetAbsLink(body.source.value.href).Failure?
    ensures r.Success? ==> r.value.Keys == {"text"} + (if body.source.Some? then {"source"} else {})
    ensures r.Success? ==> r.value["text"] == Str(body.firstChildText.GetOr(""))
    ensures r.Success? && body.source.Some? ==>
      r.value["source"] == Source(GetAbsLink(body.source.value.href).value, body.source.value.text)
  {
    var withText := map["text" := Str(body.firstChildText.GetOr(""))];
    match body.source
    case None => Success(withText)
    case Some(src) =>
      var link :- GetAbsLink(src.href);
      Success(withText["source" := Source(link, src.text)])
  }

  /** The card entry: empty without a card; otherwise a key per part found. */
  function CardEntry(card: Option<Card>): (r: Result<Entry>)
    ensures card.None? ==> r == Success(map[])
    ensures r.Success? ==> r.value.Keys <= {"image", "heading", "text", "source"}
    ensures r.Failure? <==> (card.Some? &&
      (CardImageFields(card.value.image).Failure? ||
       (card.value.body.Some? && CardBodyFields(card.value.body.value).Failure?)))
    ensures r.Success? && card.Some? ==>
      && ("image" in r.value <==> card.value.image.Some?)
      && ("heading" in r.value <==> card.value.heading.Some?)
      && ("text" in r.value <==> card.value.body.Some?)
      && ("source" in r.value <==> card.value.body.Some? && card.value.body.value.source.Some?)
      && (card.value.heading.Some? ==> r.value["heading"] == Str(card.value.heading.value))
      && (card.value.image.Some? ==> r.value["image"] == CardImageFields(card.value.image).value["image"])
      && (card.value.body.Some? ==> forall k :: k in CardBodyFields(card.value.body.value).value ==>
            r.value[k] == CardBodyFields(card.value.body.value).value[k])
  {
    match card
    case None => Success(map[])
    case Some(c) =>
      var withImage :- CardImageFields(c.image);
      var withHeading := if c.heading.Some? then withImage["heading" := Str(c.heading.value)] else withImage;
      match c.body
      case None => Success(withHeading)
      case Some(body) =>
        var bodyFields :- CardBodyFields(body);
        Success(withHeading + bodyFields)
  }

  /** A card image that was found is an absolute `https://` URL (or empty
      when its `src` was empty). */
  lemma CardImageIsAbsolute(card: Card)
    requires CardEntry(Some(card)).Success? && card.image.Some?
    ensures var f := CardEntry(Some(card)).value["image"];
      f.Str? && (f.s == "" || StartsWith(f.s, HTTPS))
  {
  }

  // ---------------------------------------------------------------------
  // The whole page

  /** `search` after the fetch: the results container must exist; then an
      entry per result block in page order, the card, and the two link
      lists as found. Any unresolvable link fails the whole call. */
  method Search(page: SearchPage) returns (r: Result<SearchContents>)
    ensures page.results.None? ==> r == Failure(AssertionError(SEARCH_CONTAINER_MISSING))
    ensures page.results.Some? ==>
      (r.Success? <==>
        (forall i :: 0 <= i < |page.results.value| ==> PageEntry(page.results.value[i]).Success?) &&
        CardEntry(page.card).Success?)
    ensures page.results.Some? && r.Failure? ==> r.error == IndexError
    ensures r.Success? ==>
      && |r.value.pages| == |page.results.value|
      && (forall i :: 0 <= i < |page.results.value| ==> r.value.pages[i] == PageEntry(page.results.value[i]).value)
      && r.value.card == CardEntry(page.card).value
      && r.value.alsoTry == page.alsoTry
      && r.value.relatedSearches == page.relatedSearches
  {
    if page.results.None? {
      return Failure(AssertionError(SEARCH_CONTAINER_MISSING));
    }
    var blocks := page.results.value;
    var pages: seq<Entry> := [];
    for n := 0 to |blocks|
      invariant |pages| == n
      invariant forall i :: 0 <= i < n ==> PageEntry(blocks[i]) == Success(pages[i])
    {
      var entry := BuildPage(blocks[n]);
      if entry.Failure? {
        PageEntryResult(blocks[n]);
        return Failure(entry.error);
      }
      pages := pages + [entry.value];
    }
    var card := CardEntry(page.card);
    if card.Failure? {
      CardError(page.card);
      return Failure(card.error);
    }
    return Success(SearchContents(page.alsoTry, pages, card.value, page.relatedSearches));
  }

  /** Card failures are unresolvable links. */
  lemma CardError(card: Option<Card>)
    requires CardEntry(card).Failure?
    ensures CardEntry(card).error == IndexError
  {
  }
}
