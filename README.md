# yahoo-search, modelled in Dafny

`yahoo_search` is a small Python scraper for Yahoo's Singapore search
pages. It offers web search, news search, video search and the local
weather. Every call fetches one page, selects nodes with CSS selectors,
and turns what it finds into pydantic records. This project models the
logic between the selected nodes and the records:

- **Link helpers.**
  - `get_abs_link` reads the destination of a Yahoo redirect link. It takes the URL path, cuts it after the first `RU=` and before the next `/`, and percent-decodes that text.
  - `get_abs_image` rebuilds the URL of an image-proxy link.
  - `query_to_tabs` builds the three vertical search URLs.
- **Extractors.**
  - `search`, `search_news` and `search_videos` each build one dictionary per result block, in page order. Each block's dictionary only has the keys for the parts that were found, and a later update of a key overwrites an earlier one.
  - The model also covers their field cleanups: placeholder thumbnails, the time-label prefix, the video origin and the preview URL.
- **Weather.**
  - `weather` parses the current temperatures.
  - It reads the first seven rows of the forecast table.
  - Each row's temperature cells lose their degree sign, are parsed as integers, and are assigned by position.
  - The rows are stored in a map keyed by day label. A repeated label replaces the earlier row.

DOM nodes are replaced by the text or attribute values already taken from
them: an `Option` for a selector that may match nothing, and a `seq` for a
selector that matches many nodes. Python dictionaries become
`map<string, Field>` or records with `Option` fields. Exceptions the code
lets escape become `Failure` values:
- `IndexError` from `split(...)[1]`;
- `ValueError` from `int(...)`;
- `AssertionError` with the source's message, for a missing results container.

The Python library behaviour the core relies on is modelled in its own modules:
- `str.split`, `str.find`, `[:-1]` and `[2:]` in `Text`;
- `int()` and `str()` of integers in `Numbers`;
- the path part of `urlsplit`, and `unquote`, in `Urls`.

Modules:
- `Outcomes`: `Option`, `Result` and the exceptions.
- `Text`.
- `Numbers`.
- `Urls`.
- `Links`: `get_abs_link`, `get_abs_image` and `query_to_tabs`.
- `Fields`: the dictionary values.
- `Search`.
- `News`.
- `Videos`.
- `Weather`.

The model follows the code, including where it differs from the obvious description of each helper:
- A non-empty link whose path has no `RU=` is an `IndexError` in the code. It is not the empty string.
- The link is cut at `/` *before* it is decoded. So `RU=https%3A%2F%2Fexample.com%2Fabc/RK=0` gives `https://example.com/abc`, not `https://example.com`.
- The redirect segment also ends at a second `RU=`, because the code takes piece 1 of `split("RU=")`.
- `get_abs_image` keeps only the text between the first and second `https://`, not everything after the first one.
- `get_abs_link` returns `""` for a non-empty link whose segment is empty (`.../RU=/...`). So `""` comes back *exactly* for `None` and `""` only among links whose segment is non-empty. `Links.GetAbsLinkDecodesSegment` states the result precisely.

## Model

| member | source | states |
|---|---|---|
| Text.Find | yahoo_search/core.py:115 | the first occurrence at or after `from`, or none at all |
| Text.Split | yahoo_search/core.py:115 | `split` always gives at least one piece |
| Text.SplitJoin | yahoo_search/core.py:115 | joining the pieces with the separator gives back the text |
| Text.SplitPiecesFree | yahoo_search/core.py:122 | no piece of a split contains the separator |
| Text.SplitHasSecond | yahoo_search/core.py:115 | `split(sep)[1]` exists exactly when `sep` occurs in the text |
| Text.SplitHead | yahoo_search/core.py:115 | `split(sep)[0]` is the text up to the first occurrence, or all of it |
| Text.SplitSecond | yahoo_search/core.py:122 | `split(sep)[1]` is the text between the first and the second occurrence, or to the end |
| Text.DropLast | yahoo_search/core.py:557 | `[:-1]` is the text without its last character, and empty stays empty |
| Text.DropTwo | yahoo_search/core.py:330 | `[2:]` is the text without its first two characters, and empty when it has fewer |
| Numbers.ParseInt | yahoo_search/core.py:493 | `int` succeeds exactly on a digit run with an optional minus sign, and is a `ValueError` otherwise; the value is non-negative without the sign |
| Numbers.ParseShowInt | yahoo_search/core.py:561 | `int(str(n)) == n` for every integer |
| Urls.NetlocEndFrom | yahoo_search/core.py:115 | the network location ends at the first `/`, `?` or `#`, or at the end |
| Urls.NetlocEndUnique | yahoo_search/core.py:115 | that end is the only index with this property |
| Urls.UrlPath | yahoo_search/core.py:115 | `urlsplit(url).path` (scheme, `//netloc`, then the `#` and `?` cuts); no contract of its own, its behaviour is stated by `Urls.UrlPathHasNoQuery` and `Urls.UrlPathOfAbsolute` |
| Urls.UrlPathHasNoQuery | yahoo_search/core.py:115 | the path never contains `?` or `#` |
| Urls.AfterSchemeOf | yahoo_search/core.py:115 | a valid scheme and its `:` are removed |
| Urls.WithoutNetlocOf | yahoo_search/core.py:115 | `//host` is removed up to the path, query or fragment |
| Urls.PathBeforeQuery | yahoo_search/core.py:115 | the query and the fragment are cut from the path |
| Urls.UrlPathOfAbsolute | yahoo_search/core.py:115 | the path of `scheme://host/path?query#fragment` is `/path` |
| Urls.Unquote | yahoo_search/core.py:114 | decoding never lengthens the text |
| Urls.UnquoteWithoutPercent | yahoo_search/core.py:114 | a text without `%` decodes to itself |
| Urls.UnquoteAppend | yahoo_search/core.py:114 | decoding is done piece by piece at a `%` boundary |
| Urls.EncodedSlash | yahoo_search/core.py:114 | `%2F` or `%2f` decodes to `/` wherever it stands |
| Urls.UnquotePercentEncode | yahoo_search/core.py:114 | decoding undoes percent-encoding of an ASCII text |
| Links.GetAbsLink | yahoo_search/core.py:110-116 | `None` and `""` give `""`; any failure is an `IndexError` |
| Links.GetAbsLinkFails | yahoo_search/core.py:114-116 | the call raises exactly for a non-empty link whose path has no `RU=`, and never returns a value for one |
| Links.GetAbsLinkDecodesSegment | yahoo_search/core.py:114-116 | for a path with `RU=`, the result is the percent-decoding of the text after the first `RU=` up to the next `/` or `RU=` |
| Links.EncodedSlashKept | yahoo_search/core.py:114-116 | an encoded `%2F` or `%2f` inside the segment comes out as `/` and does not end the segment |
| Links.GetAbsImage | yahoo_search/core.py:118-122 | `None` and `""` give `""`; a failure is an `IndexError`; any other result starts with `https://` |
| Links.GetAbsImageFails | yahoo_search/core.py:118-122 | the call raises exactly for a non-empty link without `https://` |
| Links.GetAbsImageSingleScheme | yahoo_search/core.py:122 | no further `https://` follows the one the result starts with |
| Links.GetAbsImageBetween | yahoo_search/core.py:122 | the result is `https://` and the text between the first and the second `https://`, or to the end |
| Links.QueryToTabs | yahoo_search/core.py:247-272 | the keys are exactly `images`, `news` and `videos`, and each value is that tab's fixed origin, then `/search?q=`, then the query unchanged |
| Links.TabQuery | yahoo_search/core.py:268-272 | a recovered query follows the tab's origin and `/search?q=` |
| Links.TabsRecoverQuery | yahoo_search/core.py:268-272 | stripping the origin and `/search?q=` from any tab URL gives back the query |
| Links.QueryToTabsInjective | yahoo_search/core.py:268-272 | different queries give different tab URLs |
| News.Thumbnail | yahoo_search/core.py:305-309 | the thumbnail is `None` exactly when `src` starts with `data:image/`, and is `src` unchanged otherwise |
| News.TimeLabel | yahoo_search/core.py:328-331 | the label is the text minus exactly its first two characters |
| News.NewsEntry | yahoo_search/core.py:301-341 | a key exactly for each part of the block found, with its cleaned value; the link is kept raw |
| News.SearchNews | yahoo_search/core.py:296-343 | no container is the `AssertionError`; otherwise one entry per block, in page order |
| News.StrAt | yahoo_search/core.py:49-54 | a record field is filled exactly when its key holds a string |
| News.TimeDroppedAsWritten | yahoo_search/core.py:49-54 | the `last_updated` field of a news record is never filled from an entry |
| News.NewsItemKeepsBlock | yahoo_search/core.py:301-341 | read through the `time` key, every field of the record is filled from its block: time label, title, source, description, and a thumbnail unless it is a placeholder |
| News.NewsItemAsWritten | yahoo_search/core.py:345 | the record as the code builds it, each field read under its own name; no contract of its own, its behaviour is stated by `News.TimeDroppedAsWritten` and `News.PageTimes` |
| News.NewsItemOf | yahoo_search/core.py:49-54 | the record as intended, `last_updated` read from `time`; no contract of its own, its behaviour is stated by `News.NewsItemKeepsBlock` and `News.PageTimes` |
| News.PageTimes | yahoo_search/core.py:301-345 | over every entry `search_news` builds: as written no record has a `last_updated`, and as intended each has its block's cleaned time label |
| Videos.VideoLink | yahoo_search/core.py:382-385 | the link starts with the video origin, and the rest is the `href` |
| Videos.VideoPreview | yahoo_search/core.py:387-394 | a preview exactly when the `data` attribute is there and its `m` is truthy |
| Videos.AnchorFields | yahoo_search/core.py:380-394 | the link exactly with an anchor, and the preview exactly when there is one |
| Videos.MetadataFields | yahoo_search/core.py:411-434 | title, age and citation, each exactly when found |
| Videos.VideoEntry | yahoo_search/core.py:378-436 | a key exactly for each part of the item found, with its value |
| Videos.SearchVideos | yahoo_search/core.py:375-436 | no item is the `AssertionError`; otherwise one entry per item, in page order |
| Search.WithTitles | yahoo_search/core.py:168-175 | the title loop over a block's anchors; no contract of its own, stated by `Search.WithTitlesFailure` and `Search.WithTitlesSuccess` |
| Search.WithTexts | yahoo_search/core.py:177-182 | the text loop over a block's paragraphs; no contract of its own, stated by `Search.WithTextsResult` |
| Search.PageEntry | yahoo_search/core.py:165-184 | one block's entry, both loops; no contract of its own, stated by `Search.PageEntryResult` |
| Search.AddTitle | yahoo_search/core.py:168-175 | one title anchor fails exactly when its link does not resolve, and otherwise sets `title` and `link` and keeps every other key |
| Search.AllTitlesResolveMeans | yahoo_search/core.py:168-175 | the title loop's condition holds exactly when every anchor's link resolves |
| Search.WithTitlesFailure | yahoo_search/core.py:168-175 | the title loop fails exactly when some anchor's link does not resolve, and then with an `IndexError` |
| Search.WithTitlesSuccess | yahoo_search/core.py:168-175 | after the title loop, the last anchor's title and link win and every other key is kept |
| Search.WithTextsResult | yahoo_search/core.py:177-182 | after the text loop, the last paragraph wins and the other keys are unchanged |
| Search.PageEntryResult | yahoo_search/core.py:165-184 | a block fails exactly when a title link does not resolve; otherwise it has exactly the keys found, with the last values |
| Search.BuildPage | yahoo_search/core.py:165-184 | the two loops compute the block's entry |
| Search.FailureStays | yahoo_search/core.py:168-175 | a failed title stops the whole loop with an `IndexError` |
| Search.CardImageFields | yahoo_search/core.py:189-194 | an image key exactly with an image, resolved through the image proxy |
| Search.CardBodyFields | yahoo_search/core.py:203-217 | the body text (or `""`), and the source with its resolved link exactly when found |
| Search.CardEntry | yahoo_search/core.py:186-217 | no card is empty; otherwise only the keys `image`, `heading`, `text` and `source`, each exactly when its part is found, and a failure exactly when a link does not resolve |
| Search.CardImageIsAbsolute | yahoo_search/core.py:189-194 | a card image is empty or an `https://` URL |
| Search.CardError | yahoo_search/core.py:186-217 | every card failure is an `IndexError` |
| Search.Search | yahoo_search/core.py:155-242 | no container is the `AssertionError`; otherwise a failure exactly when a page or the card fails, else the pages in order, the card, and both link lists as found |
| Weather.CellValueOfRendered | yahoo_search/core.py:557-561 | a rendered temperature with one trailing unit character parses back to the temperature |
| Weather.TemperaturePositions | yahoo_search/core.py:556-577 | cell 0 is the Fahrenheit high, 1 the Celsius high, 2 the Fahrenheit low, and the last of the cells from 3 on is the Celsius low |
| Weather.TemperatureFailure | yahoo_search/core.py:557-577 | a cell that is not an integer and one character makes the row a `ValueError` |
| Weather.CellValue | yahoo_search/core.py:557-577 | a cell's value fails only with a `ValueError`, and a cell that parses has a digit just before its final (unit) character |
| Weather.Assign | yahoo_search/core.py:559-577 | index 0 sets the Fahrenheit high, 1 the Celsius high, 2 the Fahrenheit low, any higher index the Celsius low, and every other field is kept |
| Weather.TemperaturesOf | yahoo_search/core.py:555-577 | a row fails only with a `ValueError`; on success each of the four fields is set exactly when the row has enough cells to reach its position |
| Weather.RowForecast | yahoo_search/core.py:524-577 | a row's forecast fails exactly when its temperatures do, only with a `ValueError`; it holds the row's Fahrenheit and Celsius temperatures as the cell loop assigns them, and keeps the row's weather and precipitation |
| Weather.ForecastOf | yahoo_search/core.py:523-579 | the loop over rows fails only with a `ValueError`; keys, values, size and failure condition are stated by the `Forecast*` lemmas |
| Weather.Forecast | yahoo_search/core.py:520-579 | the forecast of the first seven rows fails only with a `ValueError` |
| Weather.ParseOptional | yahoo_search/core.py:491-501 | a missing node gives no value; a present one gives its `int`, and its text fails exactly when `int` does, with a `ValueError` |
| Weather.ParseTemperatures | yahoo_search/core.py:555-577 | the cell loop computes the row's temperatures |
| Weather.UsedRows | yahoo_search/core.py:523 | exactly the first min(n, 7) of the n rows are read |
| Weather.ForecastKeys | yahoo_search/core.py:523-579 | the keys are exactly the day labels of the rows read, so there is no entry for a day without a row |
| Weather.ForecastValue | yahoo_search/core.py:579 | each day holds the forecast of the last row with that label |
| Weather.ForecastFailure | yahoo_search/core.py:523-579 | the forecast fails exactly when some row does, and then with a `ValueError` |
| Weather.ForecastSize | yahoo_search/core.py:523-579 | no more days than rows, and exactly as many when the labels are distinct |
| Weather.ForecastBounded | yahoo_search/core.py:520-579 | at most seven days, each the label of one of the first seven rows |
| Weather.BuildForecast | yahoo_search/core.py:520-579 | the row loop computes the forecast of the first seven rows |
| Weather.ForecastStaysFailed | yahoo_search/core.py:523-579 | a row that fails fails the whole forecast with a `ValueError` |
| Weather.GetWeather | yahoo_search/core.py:464-579 | the call fails exactly when a current temperature or, with the heading module, a forecast row does not parse; otherwise the fields as found, and the forecast only with the heading module |

## Left out

- HTTP: the requests and status checks with `httpx` are network I/O. The fetched page is an input.
- DOM: selectolax parsing, the CSS selectors, `unwrap_tags`, `text(deep=True, separator=" ", strip=True)` and `first_child`/`last_child` belong to a foreign library. Their results are inputs.
- `quote_plus` of the query is library URL encoding. `QueryToTabs` takes the query already quoted.
- The pydantic records and their validation are a foreign library. Examples are a missing required field, a day label that is not a weekday name, or a forecast row with fewer than four temperatures. The extractors are modelled up to the dictionaries they pass on. `News.NewsItemAsWritten` models only how a field is filled by name.
- The `duration` key of a video entry is modelled, but the `Video` record has no such field, so it is dropped there as well.
- The `link` key of a news entry is modelled, but the `News` record has no such field, so both `News.NewsItemAsWritten` and `News.NewsItemOf` drop it.
- `json.loads` of the video `data` attribute is foreign JSON parsing. `PreviewData` holds the result: `m.u` when `m` is truthy.
- A missing `href`/`src` attribute or a missing `u` would be a `KeyError`. Those values are taken as present where the code indexes `attributes[...]`.
- A day cell without children would be an `AttributeError`. The day label is taken as read.
- A precipitation cell without a first child or a nested last child would be an `AttributeError`. `Precipitation` holds the icon and percentage as read.
- A video `data` JSON without an `m` field would be a `KeyError`. `PreviewData` cannot express that case, and its `m` is `None` only for a null or empty `m`.
- `autocomplete` and its JSON response are network I/O and foreign JSON.
- `yahoo_search/__init__.py` only re-exports names.
- Urls.UrlPath: the full `urlsplit` grammar (stripping whitespace and control characters, checking IPv6 brackets, and the exact rules for when a `:` starts a scheme) is library URL handling. Only the scheme, `//netloc`, query and fragment cuts are modelled.
- Urls.Unquote: an escape of a byte 0x80 or above becomes the character with that code. `unquote` instead decodes runs of such bytes as UTF-8, so the round trip is stated for ASCII only.
- Numbers.ParseInt: `int()` also accepts a `+` sign, surrounding whitespace, underscores between digits and non-ASCII digits. Only an optional `-` and ASCII digits are modelled.

## Findings

| source | as written | input that shows it | evidently intended | confidence | as-written member | corrected member |
|---|---|---|---|---|---|---|
| yahoo_search/core.py:330 | the news time label is stored under the key `time`, but the `News` record (yahoo_search/core.py:49-54) names the field `last_updated`, so the record never receives it | a block whose `span.fc-2nd.s-time` reads `· 2 hours ago`: the entry has `time = "2 hours ago"`, but the record's `last_updated` is `None` | the record's `last_updated` holds the cleaned time label | not executed | News.NewsItemAsWritten, with News.TimeDroppedAsWritten | News.NewsItemOf, with News.NewsItemKeepsBlock |
