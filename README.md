# Embedding proxy and its pages, modelled in Dafny

This project models the part of a Next.js site that lets a visitor view any
web page inside an iframe:

- the embedding proxy `GET /api/infinite?url=…` with its `OPTIONS` answer;
- the playlist endpoint `GET /api/playlist?id=…` with its `OPTIONS` answer;
- the browse page `/infinite`, which shows an address directly or through the proxy;
- the playlist page `/infinite/list`, which takes a playlist id out of a
  YouTube address and plays it through the endpoint or straight from YouTube.

The proxy answers in a fixed order:

1. A missing `url` is refused.
2. A YouTube video gets a synthesised embed page.
3. A social media site gets a page that links to it.
4. Anything else is parsed and fetched, then passed back. Upstream headers
   are filtered against a deny-list and overlaid with fixed CORS and framing
   headers. An HTML body is rewritten by a chain of regular-expression
   replacements so that it behaves inside a frame.

The model is split into modules:

- `Wrappers`: `Option` and `Result`.
- `Text`: JavaScript's `includes`, `startsWith`, `indexOf` and `toLowerCase`, and the ASCII case folding of a regular expression with the `i` flag.
- `Percent`: `encodeURIComponent` and `decodeURIComponent` over UTF-8, as section 19.2.6 of ECMA-262 and section 2.1 of RFC 3986 describe them. The round trip is proved.
- `Scan`: each regular expression of the rewrite as an explicit scan over the text.
  - A global `replace` is a leftmost, non-overlapping pass.
  - `replace` without `g` rewrites the first match only.
  - The `$` patterns of a replacement string follow GetSubstitution.
- `Web`: parsed URLs, `searchParams.get`, and the responses a handler returns. It also holds the `^https?://` test that both pages use.
- `ProxyRoute`, `PlaylistRoute`, `BrowsePage` and `PlaylistPage`: one module per source file.

How each part is modelled:

- **Proxy decision.** The proxy's decision is a function (`Route`). The
  answer built from the fetch's outcome is a method (`Forward`). It copies
  headers one at a time in a loop and rewrites the body stage by stage. It
  is proved equal to a function of the outcome.
- **Pages.** Each page is a class whose fields are the page's React state.
  Each event handler is a method that reads the state as it was when the
  event fired. Each method is proved equal to a transition function on a
  snapshot (`View`). The page's properties are lemmas about those functions.
  - The browse page's central property: switching proxy mode twice restores
    the proxy flag and the shown address (the frame reloads). This holds whenever the shown address agrees with the proxy
    flag. Two lemmas, `StaleSubmit` and `StaleToggleTwice`, show how a
    submit can break that agreement. A submit reads the flag it had before
    the event, so submitting a restricted site with the proxy off turns the
    flag on but shows the address directly.

## Model

| member | source | states |
|---|---|---|
| Percent.DecodeEncode | src/app/infinite/page.tsx:176-183 | decoding the percent-encoding of any string gives the string back |
| Percent.DecodeURIComponent | src/app/infinite/page.tsx:178 | a decoding, when there is one, is never longer than the text decoded |
| Percent.DecodeWithoutEscapes | src/app/infinite/page.tsx:178 | a text without `%` decodes to itself |
| Percent.EncodeURIComponent | src/app/infinite/page.tsx:110-113 | every character of an encoding is unreserved or `%`, so a wrapped address adds no query delimiter of its own; a string of unreserved characters is its own encoding |
| Text.LowerCaseTwice | src/app/infinite/page.tsx:17 | lower-casing is idempotent |
| Web.SearchParam | src/app/api/infinite/route.ts:153 | the value returned belongs to the first pair with that name; there is none exactly when no pair has the name |
| Web.Normalise | src/app/infinite/page.tsx:92-96 | the result always starts with a scheme the pages accept; an address that has one is unchanged, any other gets `https://` in front |
| Web.NormaliseIdempotent | src/app/infinite/list/page.tsx:17-19 | normalising twice is normalising once |
| Web.SchemeShape | src/app/infinite/list/page.tsx:17 | an address with a scheme starts with `h` and has its colon fifth or sixth |
| ProxyRoute.MissingUrlRefused | src/app/api/infinite/route.ts:153-160 | a request without `url`, or with an empty one, gets the 400 JSON refusal and no fetch |
| ProxyRoute.YouTubeFirst | src/app/api/infinite/route.ts:164-175 | a YouTube address with a non-empty video id gets a 200 HTML page, open to any origin, whose player address is `https://www.youtube.com/embed/{id}?autoplay=1&rel=0` |
| ProxyRoute.YouTubeEmbed | src/app/api/infinite/route.ts:29-76 | the synthesised embed page contains the player address with the id |
| ProxyRoute.SocialSecond | src/app/api/infinite/route.ts:177-186 | a social media address that is no YouTube video gets the link page, and no fetch |
| ProxyRoute.IsSocialMediaSite | src/app/api/infinite/route.ts:78-91 | an address is a social media site exactly when it contains one of the seven listed hosts, case-sensitively |
| ProxyRoute.SocialMediaEmbed | src/app/api/infinite/route.ts:94-150 | the link page contains a link to the requested address |
| ProxyRoute.EmptyShortLinkFallsThrough | src/app/api/infinite/route.ts:18-23 | a short link with an empty id is handled like any other address |
| ProxyRoute.ShortLinkIdIsCut | src/app/api/infinite/route.ts:18-23 | the short-link id is the text after the first `youtu.be/`, cut at the next `?` or the next `youtu.be/` |
| ProxyRoute.SecondPieceIsCut | src/app/api/infinite/route.ts:19-21 | the second piece of a split on a separator is the text between its first and second occurrence, cut at `?` |
| ProxyRoute.BeforeQuestionIsCut | src/app/api/infinite/route.ts:21 | the part before the first `?` is a prefix of the piece that holds no `?` and ends where the piece does or at a `?` |
| ProxyRoute.IsYouTube | src/app/api/infinite/route.ts:4-6 | an address counts as YouTube exactly when it contains `youtube.com` or `youtu.be`, case-sensitively; every watch address and every short link does |
| ProxyRoute.ExtractYouTubeVideoId | src/app/api/infinite/route.ts:9-26 | only a watch address the parser refuses makes the extractor fail, with the parser's message; a parsed watch address gives its `v` parameter; any other address gives an id exactly when it contains `youtu.be/` |
| ProxyRoute.Route | src/app/api/infinite/route.ts:152-189 | the 400 refusal is the decision exactly when `url` is absent or empty; a fetch decision fetches what the parser made of the present, non-empty address |
| ProxyRoute.Classify | src/app/api/infinite/route.ts:162-189 | a reply decided for an address has status 200 or 500; a fetch is decided only for an address that is no social media site and that the parser accepts |
| ProxyRoute.FetchOnlyAfterBoth | src/app/api/infinite/route.ts:162-189 | a fetch happens only for a non-empty address that is not a social media site, that the parser accepts, and whose YouTube check found no id; the target fetched is what the parser made of the address |
| ProxyRoute.RepliesWithoutFetch | src/app/api/infinite/route.ts:152-189 | every answer given without a fetch is the 400 refusal, a 200 HTML page open to any origin, or the 500 HTML page that shows the requested address |
| ProxyRoute.ClassifyReplies | src/app/api/infinite/route.ts:162-189 | an address answered without a fetch gets a 200 HTML page or the error page with the extractor's or the parser's message |
| ProxyRoute.UnparsableAddressFails | src/app/api/infinite/route.ts:13-15 | an address the parser refuses gets the 500 error page; a watch address fails this way even when it names a social media site |
| ProxyRoute.ErrorResponse | src/app/api/infinite/route.ts:381-387 | the error answer has status 500 and the HTML headers open to any origin |
| ProxyRoute.ErrorPage | src/app/api/infinite/route.ts:299-379 | the error page shows the requested address, and the error message or `Unknown error` when it is empty |
| ProxyRoute.CopyAllowed | src/app/api/infinite/route.ts:210-216 | a header name is copied exactly when some upstream header with that name, in ASCII lower case, is not on the deny-list |
| ProxyRoute.CopiedValue | src/app/api/infinite/route.ts:210-216 | a copied value is that of the last allowed upstream header with the name |
| ProxyRoute.DeniedNeverCopied | src/app/api/infinite/route.ts:213 | no deny-listed name is ever copied, whatever its case upstream |
| ProxyRoute.ForwardedHeaders | src/app/api/infinite/route.ts:210-223 | the five overlay headers have their fixed values; the other deny-listed names are absent; every other name is present exactly when it was copied, with the copied value |
| ProxyRoute.HeaderGet | src/app/api/infinite/route.ts:227 | the content type read is the value of the first upstream header of that name; when there is none, no upstream header has the name |
| ProxyRoute.ForwardedKeepsStatus | src/app/api/infinite/route.ts:227-295 | a fetched answer whose status the response constructor accepts keeps the upstream status and status text and carries the proxy's headers; a non-HTML body, or an HTML body whose text cannot be read, comes back unchanged; a readable HTML body is rewritten; a refused status gives the 500 page showing the address, with the constructor's error for 204, 205 and 304, and for a status outside 200..599 the failure of the fallback's second read of the body (or the range error when the text could not be read at first) |
| ProxyRoute.ConstructorError | src/app/api/infinite/route.ts:279-293 | the response constructor raises an error exactly for a status outside 200..599 or a null-body status (204, 205, 304), since the handler always passes a body; the message is never empty |
| ProxyRoute.NullBodyRefused | src/app/api/infinite/route.ts:279-295 | an upstream 204, 205, 304 or 1xx status is answered with status 500; 200 is forwarded |
| ProxyRoute.HtmlIsTextual | src/app/api/infinite/route.ts:230-237 | an HTML content type is one of the text types |
| ProxyRoute.Forwarded | src/app/api/infinite/route.ts:209-295 | a failed fetch, and an upstream status the response constructor refuses (outside 200..599, or 204, 205, 304 with a body), get the 500 HTML page that shows the address; any other fetched answer keeps the upstream status and status text and carries the proxy's headers |
| ProxyRoute.Forward | src/app/api/infinite/route.ts:209-295 | building the answer header by header, stage by stage and then through the response constructor gives the answer the function `Forwarded` describes |
| ProxyRoute.HandleAnswers | src/app/api/infinite/route.ts:152-295 | end to end: a request without `url` gets the 400 refusal; every other answer is open to any origin; a fetch's failure or a refused upstream status gives the 500 page showing the address; any other fetched answer keeps the upstream status with the proxy's headers |
| ProxyRoute.Get | src/app/api/infinite/route.ts:152-294 | the handler's answer is the decision's reply, or, for a fetch decision, the forwarded answer built from the outcome of fetching the decided target |
| ProxyRoute.Cleaned | src/app/api/infinite/route.ts:239-246 | the four removals never lengthen the text, and a text with no match of any of their patterns comes through unchanged |
| ProxyRoute.EveryBlankTargetRemoved | src/app/api/infinite/route.ts:241-242 | every occurrence of `target="_blank"` or `target='_blank'` is one of the matches its pass removes |
| ProxyRoute.NoSelfOverlapByTwo | src/app/api/infinite/route.ts:241-242 | a literal whose first two characters never recur together cannot overlap itself |
| ProxyRoute.EveryOnLineReplaced | src/app/api/infinite/route.ts:265-268 | every occurrence of `navigator.onLine` is one of the matches replaced by `true` |
| ProxyRoute.EmptyRegisterKept | src/app/api/infinite/route.ts:259-262 | an empty `navigator.serviceWorker.register()` is not a match |
| ProxyRoute.HeadInjection | src/app/api/infinite/route.ts:248-256 | a document without `<head>` (in any case) gets neither insertion; otherwise only its first `<head>` is rewritten, to `<head>`, the style block, then the base tag for the target's origin and path |
| ProxyRoute.InjectBase | src/app/api/infinite/route.ts:248 | a text without `<head>` (in any case) is unchanged; any other has its first `<head>`, six characters, replaced by `<head>` and the base tag for the target's origin and path, and the rest kept |
| ProxyRoute.InjectStyle | src/app/api/infinite/route.ts:250-256 | a text without `<head>` is unchanged; any other has the style block right after its first `<head>`, and the rest kept |
| ProxyRoute.RewriteHtml | src/app/api/infinite/route.ts:239-268 | a text in which none of the rewrite's patterns occurs, `<head>` included, comes back unchanged |
| ProxyRoute.TwoInsertions | src/app/api/infinite/route.ts:248-256 | two first-`<head>` insertions in a row put the second one's text before the first one's |
| ProxyRoute.FirstHeadStays | src/app/api/infinite/route.ts:250 | after an insertion that starts with `<head>`, the first `<head>` is where it was |
| ProxyRoute.HeadSearch | src/app/api/infinite/route.ts:248 | the first-match search finds the first case-insensitive `<head>` |
| ProxyRoute.InjectBaseAsWritten | src/app/api/infinite/route.ts:248 | as written, a text without `<head>` is unchanged, and when the target's origin and path hold no `$` the replacement agrees with the literal insertion |
| ProxyRoute.InjectBaseQuoteAsWritten | src/app/api/infinite/route.ts:248 | when the path holds `$'`, the replacement as written puts the rest of the document inside the base address, where the literal insertion keeps `$'` |
| ProxyRoute.InjectBaseDollarQuote | src/app/api/infinite/route.ts:248 | for the path `/$'` on `<head></head>`, the replacement as written differs from the literal insertion |
| ProxyRoute.Options | src/app/api/infinite/route.ts:391-401 | the preflight answer is 200 with no body and exactly the four CORS headers with their fixed values, including a max age of 86400 |
| Scan.MatchAtIsLanguage | src/app/api/infinite/route.ts:241-266 | each scan matches from `i` to `j` exactly when the text between is in the language of its regular expression |
| Scan.MatchesAreLeftmost | src/app/api/infinite/route.ts:241-268 | the matches of a global pass are in order, lie in the text, do not overlap, are each in the language, and no match starts outside them |
| Scan.ReplaceAllIsSplice | src/app/api/infinite/route.ts:241-268 | a global replace is the text with each listed match replaced and everything else kept |
| Scan.ReplaceAllLength | src/app/api/infinite/route.ts:241-268 | the length after a global replace is the old length, less the matched characters, plus the replacement once per match |
| Scan.RemoveLiteralLength | src/app/api/infinite/route.ts:241-242 | removing a literal shortens the text by its length once per match |
| Scan.ReplaceAllNoMatch | src/app/api/infinite/route.ts:239-246 | a text without a match is unchanged and has no matches |
| Scan.EveryOccurrenceReplaced | src/app/api/infinite/route.ts:241-242 | every occurrence of a literal that cannot overlap itself is a listed match |
| Scan.FirstMatchFrom | src/app/api/infinite/route.ts:248-256 | the match found is the leftmost one at or after the start; there is none exactly when no position matches |
| Scan.ReplaceFirstAt | src/app/api/infinite/route.ts:248-256 | a first-match replace changes the first match and nothing else |
| Scan.ReplaceFirstPlainTemplate | src/app/api/infinite/route.ts:250-256 | a replacement string without `$` is inserted literally |
| Scan.ExpandDollarQuote | src/app/api/infinite/route.ts:248 | `$'` in a replacement string becomes the text after the match |
| PlaylistRoute.IsValidPlaylistId | src/app/api/playlist/route.ts:4-7 | an id is valid exactly when it has at least 13 characters, all in `[A-Za-z0-9_-]` |
| PlaylistRoute.AllIdChars | src/app/api/playlist/route.ts:6 | true exactly when every character is in the id class |
| PlaylistRoute.ValidIdIsInert | src/app/api/playlist/route.ts:77 | a valid id holds no quote, angle bracket, `&`, `?`, `#`, `:` or `/` |
| PlaylistRoute.ShortIdRejected | src/app/api/playlist/route.ts:4-7 | every id under 13 characters is rejected, `PLshort` and `PLABCDEFGHIJ` among them |
| PlaylistRoute.ThirteenAccepted | src/app/api/playlist/route.ts:6 | every id of exactly 13 class characters is accepted, `PL0123456789_` among them |
| PlaylistRoute.OutsideClassRejected | src/app/api/playlist/route.ts:6 | one character outside the class makes an id invalid |
| PlaylistRoute.PlaylistEmbed | src/app/api/playlist/route.ts:10-150 | the page's player address is `https://www.youtube.com/embed/videoseries?list={id}&autoplay=1&rel=0` |
| PlaylistRoute.Get | src/app/api/playlist/route.ts:152-183 | the missing-id refusal is given exactly when the id is absent or empty; the format refusal exactly when it is present and invalid; a 200 page exactly when it is valid, and then it is the playlist page |
| PlaylistRoute.ValidIdEmbeds | src/app/api/playlist/route.ts:169-176 | a valid id gets a 200 HTML page, open to any origin, that plays it |
| PlaylistRoute.Options | src/app/api/playlist/route.ts:185-193 | the preflight answer is 200 with no body and exactly four CORS headers: any origin, methods `GET, OPTIONS`, headers `Content-Type, Authorization` and a max age of 86400 |
| BrowsePage.ClassifiersIgnoreCase | src/app/infinite/page.tsx:11-29 | neither domain-list classifier can tell an address from its lower case |
| BrowsePage.IsVideoSite | src/app/infinite/page.tsx:11-18 | an address is a video site exactly when its lower case contains one of the eleven listed hosts; an address the proxy treats as YouTube always is |
| BrowsePage.MightHaveRestrictions | src/app/infinite/page.tsx:21-29 | an address might refuse framing exactly when its lower case contains one of the fifteen listed hosts; an address the proxy treats as YouTube always might |
| BrowsePage.StripPrefix | src/app/infinite/page.tsx:177-178 | replacing the first occurrence of the proxy prefix in an address that starts with it removes the front |
| BrowsePage.Original | src/app/infinite/page.tsx:175-179 | the address behind a proxied address is the decoding of what follows the prefix; any other address is its own |
| BrowsePage.Wrap | src/app/infinite/page.tsx:110-113 | the proxied form of an address starts with the proxy prefix, and the address recovered from it is the one it was made from |
| BrowsePage.OriginalOfDirect | src/app/infinite/page.tsx:156 | an address with a scheme is its own original, is not under `/api/infinite`, and is no proxied address |
| BrowsePage.Submit | src/app/infinite/page.tsx:84-121 | an empty submit only sets `Please enter a URL`; any other submit loads the normalised address, proxied exactly when the flag was on before the submit, clears the error and keeps the address box; the shown address is exactly the proxy prefix followed by the encoded normalised address when the flag was on, and the normalised address itself otherwise; the video mark becomes whether it is a video site, fullscreen stays on or turns on for a video site, and the flag stays on or turns on for a restricted site |
| BrowsePage.SubmitConsistent | src/app/infinite/page.tsx:102-115 | a submit keeps the shown address in agreement with the flag unless it turned the flag on |
| BrowsePage.StaleSubmit | src/app/infinite/page.tsx:102-115 | a restricted site submitted with the proxy off is shown directly although the flag is now on |
| BrowsePage.ToggleProxy | src/app/infinite/page.tsx:169-188 | the switch flips the flag and keeps the address box, error, fullscreen and video mark; with an address shown it starts loading; an address that cannot be decoded stays; switching the proxy on shows exactly the proxy prefix followed by the encoded address behind the current one, switching it off shows the address behind the proxied one |
| BrowsePage.ToggleConsistent | src/app/infinite/page.tsx:169-188 | on a page whose address agrees with the flag, the switch flips the flag, never meets a decoding error, keeps the address behind the shown one, and keeps the agreement |
| BrowsePage.ToggleTwiceRestores | src/app/infinite/page.tsx:169-188 | on such a page, switching twice restores the flag and the shown address |
| BrowsePage.StaleToggleTwice | src/app/infinite/page.tsx:102-115 | after the stale submit, switching twice ends with the address proxied, not as it was |
| BrowsePage.IframeError | src/app/infinite/page.tsx:152-167 | a failed direct load not under `/api/infinite` retries once through the proxy, with the retry message, showing exactly the proxy prefix followed by the encoded address; any other failed load stops loading with the failure message, address and flag kept; the address box, fullscreen and video mark are always kept |
| BrowsePage.IframeErrorOutcome | src/app/infinite/page.tsx:152-167 | a failed direct load retries through the proxy with the retry message; a failed proxied or empty load stops loading with the failure message; the agreement is kept |
| BrowsePage.FullscreenTwice | src/app/infinite/page.tsx:190-192 | fullscreen flips and nothing else changes; toggling twice restores the page, and the agreement between flag and address is unaffected |
| BrowsePage.InfinitePage.constructor | src/app/infinite/page.tsx:32-39 | the first state is empty, not loading, with the proxy on |
| BrowsePage.InfinitePage.SetUrl | src/app/infinite/page.tsx:285 | typing changes the address box and nothing else |
| BrowsePage.InfinitePage.HandleSubmit | src/app/infinite/page.tsx:84-121 | the handler's steps give the state `Submit` describes |
| BrowsePage.InfinitePage.ToggleProxyMode | src/app/infinite/page.tsx:169-188 | the handler's steps give the state `ToggleProxy` describes, and it reports the throw exactly when the shown address cannot be decoded |
| BrowsePage.InfinitePage.HandleIframeError | src/app/infinite/page.tsx:152-167 | the handler's steps give the state `IframeError` describes |
| BrowsePage.InfinitePage.ToggleFullscreenMode | src/app/infinite/page.tsx:190-192 | the handler flips fullscreen |
| PlaylistPage.SchemeIsNoBareId | src/app/infinite/list/page.tsx:38-41 | an address with a scheme never passes the bare-id test |
| PlaylistPage.ExtractPlaylistId | src/app/infinite/list/page.tsx:11-57 | empty input and addresses the parser refuses give nothing; a `youtube.com/playlist` address gives its `list` parameter; any other gives `list` when it is non-empty and nothing otherwise; the bare-id branches never decide |
| PlaylistPage.ExtractIsListParameter | src/app/infinite/list/page.tsx:23-46 | whatever is returned is the parsed address's own `list` parameter |
| PlaylistPage.ExtractNormalised | src/app/infinite/list/page.tsx:17-19 | putting the scheme in front before extracting changes nothing |
| PlaylistPage.IframeSource | src/app/infinite/list/page.tsx:138-148 | there is an iframe address exactly when there is an id; with the ad blocker it is `/api/playlist?id=` followed by the id; without it it is the YouTube playlist player followed by the id and the autoplay options, the address the endpoint's own page plays |
| PlaylistPage.Submit | src/app/infinite/list/page.tsx:73-101 | an empty submit only sets its error; otherwise the page loads the extracted id, clearing the error and keeping the address box, fullscreen, hint and ad blocker, or stops loading with the `list=` error and keeps its old id |
| PlaylistPage.SubmitShowsPlaylist | src/app/infinite/list/page.tsx:91-100 | after a submit there is an iframe address exactly when an id was found now or there was one before |
| PlaylistPage.EndpointPlaysDirectSource | src/app/infinite/list/page.tsx:138-148 | with the ad blocker the iframe asks the endpoint for the id; for a valid id the endpoint answers 200 with a page that contains the address the iframe uses without the ad blocker |
| PlaylistPage.FullscreenHint | src/app/infinite/list/page.tsx:107-119 | entering fullscreen turns it on and shows the Escape hint and changes nothing else; leaving it changes nothing else |
| PlaylistPage.KeyDown | src/app/infinite/list/page.tsx:180-185 | Escape in fullscreen leaves it and changes nothing else; any other key, or Escape outside fullscreen, changes nothing |
| PlaylistPage.ToggleAdBlocker | src/app/infinite/list/page.tsx:312-315 | the switch flips the ad blocker, starts loading and changes nothing else; whenever there is an id the iframe address changes |
| PlaylistPage.AdBlockerSwitch | src/app/infinite/list/page.tsx:312-315 | switching twice restores the flag and the iframe address |
| PlaylistPage.PlaylistPage.constructor | src/app/infinite/list/page.tsx:60-68 | the first state has no id, no error, and the ad blocker on |
| PlaylistPage.PlaylistPage.SetPlaylistUrl | src/app/infinite/list/page.tsx:262 | typing changes the address box and nothing else |
| PlaylistPage.PlaylistPage.HandleSubmit | src/app/infinite/list/page.tsx:73-101 | the handler's steps give the state `Submit` describes |
| PlaylistPage.PlaylistPage.HandleIframeLoad | src/app/infinite/list/page.tsx:103-105 | a load stops the loading mark |
| PlaylistPage.PlaylistPage.ToggleFullscreenMode | src/app/infinite/list/page.tsx:107-119 | the handler's steps give the state `ToggleFullscreen` describes |
| PlaylistPage.PlaylistPage.HandleKeyDown | src/app/infinite/list/page.tsx:180-185 | the listener's steps give the state `KeyDown` describes |
| PlaylistPage.PlaylistPage.ToggleAdBlockerMode | src/app/infinite/list/page.tsx:312-315 | the switch flips the ad blocker and starts loading |

## Notes on the code

- An address the parser refuses gets the 500 error page, not a 400 answer (`UnparsableAddressFails`). A watch address without a scheme also ends on that page, because the extractor parses it first.
- The content-type test is a case-sensitive `includes` of a text type.
- The proxy never puts a scheme in front of an address; only the pages do.
- Each rewrite pass is a single global replace. A removal can create a new match, for example `target="_btarget="_blank"lank"`. So the model states what each pass removes and how long its result is, not that no occurrence remains.
- A document without `<head>` gets no base tag and no style block.
- The handler always hands the response constructor a body, even an empty one. The constructor, the Fetch standard's `Response(body, init)` that `NextResponse` extends, throws for a status outside 200..599 and for a null-body status (204, 205, 304) with a body. So such an upstream answer is not passed on: it ends on the 500 error page (`NullBodyRefused`). The error thrown in the inner `try` at route.ts:280 is caught at route.ts:285, and which error then reaches the outer `catch` at route.ts:295 depends on the body:
  - A null-body status (204, 205, 304) arrives without a body, so reading it at route.ts:234 or route.ts:276 used nothing. The fallback's `arrayBuffer()` at route.ts:288 succeeds, its constructor call at route.ts:289 throws the same error again, and the page shows the constructor's message.
  - A status outside 200..599 arrives with a body, which route.ts:234 or route.ts:276 has already read. The fallback's `arrayBuffer()` at route.ts:288 then rejects because the body was used, and the page shows that message.
  - When the text could not be read in the first place (`textFails`), the fallback reads the body as route.ts:285-294 intends, and its constructor call throws the range error.

## Left out

- The outbound `fetch` is left out: the impersonating request headers, redirects and caching (route.ts:192-207) are network I/O. The fetch's outcome is an input (`FetchOutcome`), with a failure standing for a thrown network error.
- `new URL(...)` (route.ts:14, 189; list/page.tsx:21) is the WHATWG parser. It is an oracle passed in as `UrlParser`. `None` stands for its `TypeError`.
- Query strings are taken already split and decoded into name and value pairs.
- `Headers.forEach` (route.ts:211) is modelled by taking the upstream headers as the list it iterates. The combining of duplicate upstream headers into one entry is left to that list.
- Bodies are strings. `response.text()`, `arrayBuffer()` and `TextEncoder` (route.ts:234, 270-276, 288) are these foreign encoding calls, so byte-level re-encoding is not modelled. A body whose text cannot be read is marked by `textFails` and passed back unchanged, as the fallback at route.ts:285-294 intends. Whether the runtime lets that fallback read the body a second time is not modelled.
- Of the fixed markup of the synthesised pages (route.ts:29-150, 299-379; playlist route.ts:10-150), only the text around each interpolated value is kept. The in-page ad-detection script (playlist route.ts:84-146) runs in a browser and is not modelled.
- ProxyRoute.Forward, ProxyRoute.Forwarded, ProxyRoute.RewriteHtml, ProxyRoute.Get, ProxyRoute.HandleAnswers: the base tag is inserted literally, as evidently intended. The code's `$` interpretation of the address is modelled separately (see Findings).
- ProxyRoute.Forwarded: the messages of the server runtime's `TypeError` and `RangeError` are written as it phrases them; another runtime may word them differently.
- ProxyRoute.Forwarded: the constructor's check that the status text is a valid reason phrase is not modelled; an upstream status text is taken to pass it.
- ProxyRoute.ErrorPage: the message shown is the parser's, the extractor's, the fetch failure's or the response constructor's; the constructor's messages are written as the server runtime phrases them. Other exceptions inside the handler cannot arise in the model.
- `toLowerCase` (page.tsx:17, 28) is modelled only as far as a search for an ASCII entry can tell. ASCII capitals, KELVIN SIGN and LATIN CAPITAL LETTER I WITH DOT ABOVE are mapped. Every other character is kept. Lower-casing never maps those other characters to ASCII.
- Characters are Unicode scalar values. A JavaScript string holding a lone surrogate, on which `encodeURIComponent` throws, cannot be written.
- React's state batching is not modelled. Each handler is one transition from the state the event saw, which is the stale-closure behaviour at page.tsx:103-113.
- When `decodeURIComponent` throws in `toggleProxyMode`, the two updates already queued are modelled as applied, based on how React flushes batched updates after an event handler. On a consistent page this case cannot arise (`ToggleConsistent`).
- `handleIframeLoad` on the browse page (page.tsx:123-150) is left out: it probes the frame's DOM and calls `handleIframeError` from a timer.
- The ad-blocker bait detection (page.tsx:46-82) is DOM work and is left out.
- On the playlist page, these are browser APIs and are left out:
  - the timer that hides the Escape hint (list/page.tsx:115-117);
  - the QR-code toggle and address (list/page.tsx:121-135);
  - the clipboard button (list/page.tsx:403-408);
  - the mount effect that reads and rewrites `window.location` (list/page.tsx:150-177);
  - router navigation.
- `currentVideoIndex` (list/page.tsx:65) is never updated, so it is not modelled.

## Findings

| source | as written | input that shows it | evidently intended | confidence | as-written member | corrected member |
|---|---|---|---|---|---|---|
| src/app/api/infinite/route.ts:248 | the base tag is built from the target's origin and path and passed to `replace` as a replacement string, so `$'`, `` $` ``, `$&` and `$$` in the address are expanded | a target with path `/$'` (for example `https://a.example/$'`) and a document `<head></head>`: the base address becomes `https://a.example/</head>` followed by the rest of the tag, and the rest of the document is copied into it | the origin and path inserted literally after the first `<head>` | not executed | ProxyRoute.InjectBaseDollarQuote | ProxyRoute.HeadInjection |
