/**
 * The embedding proxy, `GET /api/infinite?url=...`.
 *
 * A request is answered in a fixed order: a missing `url` is refused; a
 * YouTube address with a video id gets a synthesised embed page; a social
 * media address gets a page that links to it; anything else is parsed,
 * fetched, and passed back with its headers filtered and overlaid and, for
 * HTML, its text rewritten so that it behaves inside an iframe.
 *
 * The decision is the function `Route`. The fetch is not modelled: its
 * outcome is an input, and `Forward` builds the response from it the way
 * the handler does, a header at a time and a rewrite stage at a time.
 */
module ProxyRoute {
  import opened Wrappers
  import opened Text
  import opened Scan
  import opened Web

  // ---------------------------------------------------------------------
  // Classification of the requested address (case-sensitive substrings).

  /**
   * `isYouTube(url)`: the address names YouTube's long or short host, in
   * exactly this case; every watch address and every short link does.
   */
  function IsYouTube(url: string): (r: bool)
    ensures r <==> exists j: nat :: OccursAt(url, "youtube.com", j) || OccursAt(url, "youtu.be", j)
    ensures Contains(url, "youtube.com/watch") || Contains(url, ShortHost) ==> r
  {
    HostsOfLinks(url);
    Contains(url, "youtube.com") || Contains(url, "youtu.be")
  }

  /** A watch address contains the long host, a short link the short one. */
  lemma HostsOfLinks(url: string)
    ensures Contains(url, "youtube.com/watch") ==> Contains(url, "youtube.com")
    ensures Contains(url, ShortHost) ==> Contains(url, "youtu.be")
  {
    if Contains(url, "youtube.com/watch") {
      assert "youtube.com" + "/watch" == "youtube.com/watch";
      ContainsFront(url, "youtube.com", "/watch");
    }
    if Contains(url, ShortHost) {
      assert "youtu.be" + "/" == ShortHost;
      ContainsFront(url, "youtu.be", "/");
    }
  }

  const SocialSites: seq<string> :=
    ["facebook.com", "twitter.com", "instagram.com", "tiktok.com", "linkedin.com", "reddit.com", "pinterest.com"]

  /** `isSocialMediaSite(url)`: the address contains one of the seven hosts, in exactly this case. */
  function IsSocialMediaSite(url: string): (r: bool)
    ensures r <==> exists k :: 0 <= k < |SocialSites| && exists j: nat :: OccursAt(url, SocialSites[k], j)
  {
    ContainsAny(url, SocialSites)
  }

  const ShortHost: string := "youtu.be/"

  /**
   * `url.split(sep)[1].split('?')[0]`: the text after the first `sep`, up
   * to the next `sep`, cut at the first `?`; `None` where there is no `sep`.
   */
  function SecondPiece(url: string, sep: string): Option<string> {
    match IndexOf(url, sep, 0)
    case None => None
    case Some(a) =>
      var start := a + |sep|;
      Some(BeforeQuestion(url[start..PieceEnd(url, sep, start)]))
  }

  /** `piece.split('?')[0]`: the text before the first `?`. */
  function BeforeQuestion(piece: string): string {
    match IndexOfChar(piece, '?', 0)
    case None => piece
    case Some(c) => piece[..c]
  }

  /** The text before the first `?` of `url[start..end]` is a `?`-free slice that stops at `end` or at a `?`. */
  lemma BeforeQuestionIsCut(url: string, start: nat, end: nat)
    requires start <= end <= |url|
    ensures var id := BeforeQuestion(url[start..end]);
      start + |id| <= end && url[start..start + |id|] == id && '?' !in id
      && (start + |id| == end || url[start + |id|] == '?')
  {
    var piece := url[start..end];
    match IndexOfChar(piece, '?', 0)
    case None =>
      assert forall k :: 0 <= k < |piece| ==> piece[k] == url[start + k];
    case Some(c) =>
      assert piece[..c] == url[start..start + c];
      assert url[start + c] == piece[c];
  }

  /** The id of a short link `https://youtu.be/<id>`. */
  function ShortLinkId(url: string): Option<string> {
    SecondPiece(url, ShortHost)
  }

  /**
   * The id of a short link is the text that follows its first `youtu.be/`:
   * it holds no `?` and no further `youtu.be/`, and it stops at the end of
   * the address, at a `?` or at the next `youtu.be/`.
   */
  lemma ShortLinkIdIsCut(url: string, a: nat)
    requires OccursAt(url, ShortHost, a)
    requires forall k: nat :: k < a ==> !OccursAt(url, ShortHost, k)
    ensures ShortLinkId(url).Some?
    ensures var id := ShortLinkId(url).value; var start := a + |ShortHost|;
      start + |id| <= |url| && url[start..start + |id|] == id && '?' !in id
      && (forall k: nat :: start <= k < start + |id| ==> !OccursAt(url, ShortHost, k))
      && (start + |id| == |url| || url[start + |id|] == '?' || OccursAt(url, ShortHost, start + |id|))
  {
    SecondPieceIsCut(url, ShortHost, a);
  }

  lemma SecondPieceIsCut(url: string, sep: string, a: nat)
    requires OccursAt(url, sep, a)
    requires forall k: nat :: k < a ==> !OccursAt(url, sep, k)
    ensures SecondPiece(url, sep).Some?
    ensures var id := SecondPiece(url, sep).value; var start := a + |sep|;
      start + |id| <= |url| && url[start..start + |id|] == id && '?' !in id
      && (forall k: nat :: start <= k < start + |id| ==> !OccursAt(url, sep, k))
      && (start + |id| == |url| || url[start + |id|] == '?' || OccursAt(url, sep, start + |id|))
  {
    var start := a + |sep|;
    FirstIndexIs(url, sep, a);
    var end := PieceEnd(url, sep, start);
    assert SecondPiece(url, sep) == Some(BeforeQuestion(url[start..end]));
    BeforeQuestionIsCut(url, start, end);
  }

  /** The search from the front finds the first occurrence. */
  lemma FirstIndexIs(url: string, sep: string, a: nat)
    requires OccursAt(url, sep, a)
    requires forall k: nat :: k < a ==> !OccursAt(url, sep, k)
    ensures IndexOf(url, sep, 0) == Some(a)
  {
  }

  /** Where the piece after `start` ends: the next occurrence of `sep`, or the end of the address. */
  function PieceEnd(url: string, sep: string, start: nat): (end: nat)
    requires start <= |url|
    ensures start <= end <= |url|
    ensures forall k: nat :: start <= k < end ==> !OccursAt(url, sep, k)
    ensures end == |url| || OccursAt(url, sep, end)
  {
    match IndexOf(url, sep, start) case None => |url| case Some(b) => b
  }

  /**
   * `extractYouTubeVideoId`; `Failure` is the `TypeError` of `new URL(url)`,
   * which only a watch address parses.
   */
  function ExtractYouTubeVideoId(url: string, parse: UrlParser): (r: Result<Option<string>>)
    ensures r.Failure? <==> Contains(url, "youtube.com/watch") && parse(url).None?
    ensures r.Failure? ==> r.message == InvalidUrl
    ensures Contains(url, "youtube.com/watch") && parse(url).Some? ==>
      r == Success(SearchParam(parse(url).value.query, "v"))
    ensures !Contains(url, "youtube.com/watch") ==> r.Success? && (r.value.Some? <==> Contains(url, ShortHost))
  {
    if Contains(url, "youtube.com/watch") then
      match parse(url)
      case None => Failure(InvalidUrl)
      case Some(u) => Success(SearchParam(u.query, "v"))
    else if Contains(url, ShortHost) then Success(ShortLinkId(url))
    else Success(None)
  }

  // ---------------------------------------------------------------------
  // The pages the proxy writes itself. Only the parts that matter around
  // each interpolated value are kept of the fixed markup.

  const EmbedSource: string := "https://www.youtube.com/embed/"
  const EmbedOptions: string := "?autoplay=1&rel=0"
  const YouTubeHead: string :=
    "<!DOCTYPE html><html><head><meta charset=\"utf-8\"><title>YouTube Video</title></head>"
    + "<body><div class=\"video-container\"><iframe src=\""
  const YouTubeTail: string :=
    "\" frameborder=\"0\" allow=\"accelerometer; autoplay; clipboard-write; encrypted-media;"
    + " gyroscope; picture-in-picture\" allowfullscreen></iframe></div></body></html>"

  /** `generateYouTubeEmbed(videoId)`: a page whose player loads the embed address of the id. */
  function YouTubeEmbed(id: string): (page: string)
    ensures Contains(page, EmbedSource + id + EmbedOptions)
  {
    OccursInFive(YouTubeHead, EmbedSource, id, EmbedOptions, YouTubeTail);
    YouTubeHead + EmbedSource + id + EmbedOptions + YouTubeTail
  }

  const SocialHead: string :=
    "<!DOCTYPE html><html><head><meta charset=\"utf-8\"><title>Social Media Content</title></head>"
    + "<body><div class=\"container\"><h2>Social Media Content</h2>"
    + "<p>This social media content cannot be embedded directly due to platform restrictions.</p>"
    + "<p>Click the button below to open the content in a new tab:</p>"
  const SocialTail: string :=
    " target=\"_blank\" class=\"btn\">Open Social Media Link</a></div></body></html>"

  /** `generateSocialMediaEmbed(url)`: a page that links to the requested address. */
  function SocialMediaEmbed(url: string): (page: string)
    ensures Contains(page, LinkOpen + url + LinkClose)
  {
    OccursInFive(SocialHead, LinkOpen, url, LinkClose, SocialTail);
    SocialHead + LinkOpen + url + LinkClose + SocialTail
  }

  const LinkOpen: string := "<a href=\""
  const LinkClose: string := "\""

  const ErrorBefore: string :=
    "<!DOCTYPE html><html><head><meta charset=\"utf-8\"><title>Error Loading Content</title></head>"
    + "<body><div class=\"error-container\"><h1>Cannot Load Website</h1>"
    + "<p>We couldn't load the following website:</p><p class=\"url\">"
  const ErrorMiddle: string := "</p><p>Error details: "
  const ErrorAfter: string :=
    "</p><div class=\"suggestions\"><h3>Possible reasons:</h3></div>"
    + "<a href=\"javascript:history.back()\" class=\"back-btn\">Go Back</a></div></body></html>"

  /** `error.message || 'Unknown error'`. */
  function ErrorDetails(message: string): string {
    if message == "" then "Unknown error" else message
  }

  /** The page of the outer `catch`: it shows the requested address and the error message, or "Unknown error". */
  function ErrorPage(url: string, message: string): (page: string)
    ensures Contains(page, url)
    ensures Contains(page, if message == "" then "Unknown error" else message)
  {
    OccursInFive(ErrorBefore, url, ErrorMiddle, ErrorDetails(message), ErrorAfter);
    ErrorBefore + url + ErrorMiddle + ErrorDetails(message) + ErrorAfter
  }

  /** The response of the outer `catch`: status 500 with the error page. */
  function ErrorResponse(url: string, message: string): (r: Response)
    ensures r.status == 500 && r.headers == HtmlHeaders
  {
    Response(500, "", HtmlHeaders, Content(ErrorPage(url, message)))
  }

  const MissingUrl: Response := JsonError(400, "Missing URL parameter")

  // ---------------------------------------------------------------------
  // The decision.

  datatype Decision =
    | Reply(response: Response)
    | Fetch(url: string, target: Url)

  /** What the handler does before any fetch: answer at once, or fetch `target`. */
  function Route(q: Query, parse: UrlParser): (d: Decision)
    ensures d == Reply(MissingUrl) <==> !Truthy(SearchParam(q, "url"))
    ensures d.Fetch? ==> SearchParam(q, "url") == Some(d.url) && d.url != "" && parse(d.url) == Some(d.target)
  {
    match SearchParam(q, "url")
    case None => Reply(MissingUrl)
    case Some(url) => if url == "" then Reply(MissingUrl) else Classify(url, parse)
  }

  /** The decision for a present, non-empty address: only the error page has status 500, each page of the proxy's own 200. */
  function Classify(url: string, parse: UrlParser): (d: Decision)
    ensures d.Reply? ==> d.response.status == 200 || d.response.status == 500
    ensures d.Fetch? ==> d.url == url && parse(url) == Some(d.target) && !IsSocialMediaSite(url)
  {
    if IsYouTube(url) then
      match ExtractYouTubeVideoId(url, parse)
      case Failure(message) => Reply(ErrorResponse(url, message))
      case Success(id) => if Truthy(id) then Reply(HtmlPage(YouTubeEmbed(id.value))) else NotVideo(url, parse)
    else NotVideo(url, parse)
  }

  function NotVideo(url: string, parse: UrlParser): Decision {
    if IsSocialMediaSite(url) then Reply(HtmlPage(SocialMediaEmbed(url)))
    else match parse(url)
      case None => Reply(ErrorResponse(url, InvalidUrl))
      case Some(target) => Fetch(url, target)
  }

  /** A request without a `url`, or with an empty one, gets 400 and no fetch. */
  lemma MissingUrlRefused(q: Query, parse: UrlParser)
    requires !Truthy(SearchParam(q, "url"))
    ensures Route(q, parse) == Reply(JsonError(400, "Missing URL parameter"))
  {
  }

  /** A YouTube address with a video id gets the embed page, before any other check. */
  lemma YouTubeFirst(q: Query, parse: UrlParser, id: string)
    requires var url := SearchParam(q, "url");
      Truthy(url) && IsYouTube(url.value) && ExtractYouTubeVideoId(url.value, parse) == Success(Some(id))
    requires id != ""
    ensures Route(q, parse).Reply? && Route(q, parse).response.status == 200
    ensures Route(q, parse).response.headers == HtmlHeaders
    ensures Contains(Route(q, parse).response.body.data, EmbedSource + id + EmbedOptions)
  {
    assert Route(q, parse).response == HtmlPage(YouTubeEmbed(id));
  }

  /** A social media address that is not a YouTube video gets the link page, and no fetch. */
  lemma SocialSecond(q: Query, parse: UrlParser)
    requires var url := SearchParam(q, "url");
      Truthy(url) && IsSocialMediaSite(url.value)
      && (IsYouTube(url.value) ==> ExtractYouTubeVideoId(url.value, parse) == Success(None))
    ensures Route(q, parse) == Reply(HtmlPage(SocialMediaEmbed(SearchParam(q, "url").value)))
  {
  }

  /** A short link whose id is empty is not refused: it is treated like any other address. */
  lemma EmptyShortLinkFallsThrough(url: string, parse: UrlParser)
    requires !Contains(url, "youtube.com/watch") && ShortLinkId(url) == Some("")
    ensures Classify(url, parse) == NotVideo(url, parse)
  {
  }

  /**
   * An address the parser refuses gets the 500 error page, not a 400: a
   * watch address without a scheme already fails in the extractor, before
   * the social media check; any other address fails where it is parsed for
   * the fetch.
   */
  lemma UnparsableAddressFails(q: Query, parse: UrlParser)
    requires var url := SearchParam(q, "url");
      Truthy(url) && parse(url.value).None?
      && (Contains(url.value, "youtube.com/watch") || !IsSocialMediaSite(url.value))
      && (!Contains(url.value, "youtube.com/watch") && IsYouTube(url.value) ==> !Truthy(ShortLinkId(url.value)))
    ensures Route(q, parse) == Reply(ErrorResponse(SearchParam(q, "url").value, InvalidUrl))
    ensures Route(q, parse).response.status == 500
  {
    var url := SearchParam(q, "url").value;
    if Contains(url, "youtube.com/watch") {
      assert IsYouTube(url);
    }
  }

  /**
   * A fetch happens only for a present, non-empty address that is no
   * YouTube video, is not a social media site, and parses; the fetched
   * target is what the parser made of the address.
   */
  lemma FetchOnlyAfterBoth(q: Query, parse: UrlParser)
    requires Route(q, parse).Fetch?
    ensures var d := Route(q, parse);
      SearchParam(q, "url") == Some(d.url) && d.url != ""
      && !IsSocialMediaSite(d.url) && parse(d.url) == Some(d.target)
      && (IsYouTube(d.url) ==> exists id :: ExtractYouTubeVideoId(d.url, parse) == Success(id) && !Truthy(id))
  {
    var url := SearchParam(q, "url").value;
    if IsYouTube(url) {
      var e := ExtractYouTubeVideoId(url, parse);
      assert e.Success? && !Truthy(e.value);
    }
  }

  /**
   * Every answer the handler gives without fetching is the 400 refusal, a
   * page of its own served as HTML to any origin, or the 500 error page,
   * also HTML to any origin, which shows the requested address.
   */
  lemma RepliesWithoutFetch(q: Query, parse: UrlParser)
    requires Route(q, parse).Reply?
    ensures var r := Route(q, parse).response;
      r == MissingUrl
      || (r.status == 200 && r.headers == HtmlHeaders)
      || (r.status == 500 && r.headers == HtmlHeaders && Contains(r.body.data, SearchParam(q, "url").value))
  {
    match SearchParam(q, "url")
    case None =>
    case Some(url) =>
      if url != "" {
        var message := FailureMessage(url, parse);
        ClassifyReplies(url, parse);
        assert Contains(ErrorPage(url, message), url);
      }
  }

  /** The message the 500 page of an address shows. */
  function FailureMessage(url: string, parse: UrlParser): string {
    if IsYouTube(url) && ExtractYouTubeVideoId(url, parse).Failure? then ExtractYouTubeVideoId(url, parse).message
    else InvalidUrl
  }

  lemma ClassifyReplies(url: string, parse: UrlParser)
    requires Classify(url, parse).Reply?
    ensures var r := Classify(url, parse).response;
      (r.status == 200 && r.headers == HtmlHeaders) || r == ErrorResponse(url, FailureMessage(url, parse))
  {
  }

  // ---------------------------------------------------------------------
  // The upstream response and the headers passed back.

  /**
   * What the fetch brought back: headers as `Headers.forEach` lists them,
   * the body as text, and whether reading the body as text throws.
   */
  datatype Upstream = Upstream(status: int, statusText: string, headers: seq<(string, string)>,
                               body: string, textFails: bool)

  datatype FetchOutcome = FetchFailed(message: string) | Fetched(upstream: Upstream)

  const DeniedHeaders: seq<string> :=
    ["content-encoding", "content-length", "connection", "transfer-encoding",
     "content-security-policy", "strict-transport-security", "x-frame-options"]

  /** The lower-cased name is on the deny-list. */
  predicate Denied(name: string) {
    LowerCase(name) in DeniedHeaders
  }

  /**
   * The headers copied from upstream: each allowed pair, in order, `set`
   * under its lower-cased name. A name is copied exactly when upstream sent
   * an allowed pair with that name.
   */
  function CopyAllowed(hs: seq<(string, string)>): (m: map<string, string>)
    ensures forall key :: key in m <==>
      exists i :: 0 <= i < |hs| && AsciiLowerString(hs[i].0) == key && !Denied(hs[i].0)
  {
    CopiedKeysAll(hs, Denied);
    CopyAllowedBy(hs, Denied)
  }

  /** The same copy for any deny test. */
  function CopyAllowedBy(hs: seq<(string, string)>, denied: string -> bool): map<string, string>
    decreases |hs|
  {
    if hs == [] then map[]
    else
      var m := CopyAllowedBy(hs[..|hs| - 1], denied);
      var (name, value) := hs[|hs| - 1];
      if denied(name) then m else m[AsciiLowerString(name) := value]
  }

  const AllowMethods: string := "GET, POST, OPTIONS"
  const AllowHeaders: string := "Content-Type, Authorization, X-Requested-With"
  const FrameAncestors: string := "frame-ancestors 'self' *"

  /** The five headers the proxy sets over whatever it copied. */
  function Overlay(m: map<string, string>): map<string, string> {
    m["access-control-allow-origin" := "*"]
     ["access-control-allow-methods" := AllowMethods]
     ["access-control-allow-headers" := AllowHeaders]
     ["x-frame-options" := "SAMEORIGIN"]
     ["content-security-policy" := FrameAncestors]
  }

  /** The headers of a forwarded response. */
  function ProxyHeaders(hs: seq<(string, string)>): map<string, string> {
    Overlay(CopyAllowed(hs))
  }

  /** Two names that lower-case alike in ASCII are both allowed or both denied. */
  lemma {:induction false} SameNameSameLowerCase(a: string, b: string)
    requires AsciiLowerString(a) == AsciiLowerString(b)
    ensures LowerCase(a) == LowerCase(b)
  {
    if a != [] {
      var la, lb := AsciiLowerString(a), AsciiLowerString(b);
      assert la == [AsciiLower(a[0])] + AsciiLowerString(a[1..]);
      assert lb == [AsciiLower(b[0])] + AsciiLowerString(b[1..]);
      assert AsciiLower(a[0]) == la[0] == lb[0] == AsciiLower(b[0]);
      assert AsciiLowerString(a[1..]) == la[1..] == lb[1..] == AsciiLowerString(b[1..]);
      SameNameSameLowerCase(a[1..], b[1..]);
    }
  }

  lemma CopiedKeysAll(hs: seq<(string, string)>, denied: string -> bool)
    ensures forall key :: key in CopyAllowedBy(hs, denied) <==>
      exists i :: 0 <= i < |hs| && AsciiLowerString(hs[i].0) == key && !denied(hs[i].0)
  {
    forall key ensures key in CopyAllowedBy(hs, denied) <==>
      exists i :: 0 <= i < |hs| && AsciiLowerString(hs[i].0) == key && !denied(hs[i].0)
    {
      CopiedKeysBy(hs, denied, key);
    }
  }

  lemma {:induction false} CopiedKeysBy(hs: seq<(string, string)>, denied: string -> bool, key: string)
    ensures key in CopyAllowedBy(hs, denied) <==>
      exists i :: 0 <= i < |hs| && AsciiLowerString(hs[i].0) == key && !denied(hs[i].0)
    decreases |hs|
  {
    if hs != [] {
      var init := hs[..|hs| - 1];
      var last := |hs| - 1;
      CopiedKeysBy(init, denied, key);
      assert forall i :: 0 <= i < last ==> init[i] == hs[i];
      if AsciiLowerString(hs[last].0) == key && !denied(hs[last].0) {
        assert key in CopyAllowedBy(hs, denied);
      } else {
        assert key in CopyAllowedBy(hs, denied) <==> key in CopyAllowedBy(init, denied);
        if key in CopyAllowedBy(hs, denied) {
          var i :| 0 <= i < |init| && AsciiLowerString(init[i].0) == key && !denied(init[i].0);
          assert hs[i] == init[i];
        }
      }
    }
  }

  /** A copied header carries the value of the last pair upstream sent with that name. */
  lemma CopiedValue(hs: seq<(string, string)>, key: string)
    requires key in CopyAllowed(hs)
    ensures exists i :: (0 <= i < |hs| && AsciiLowerString(hs[i].0) == key && !Denied(hs[i].0)
      && CopyAllowed(hs)[key] == hs[i].1 && forall j :: i < j < |hs| ==> AsciiLowerString(hs[j].0) != key)
  {
    var i := CopiedValueBy(hs, Denied, key);
    forall j | i < j < |hs| ensures AsciiLowerString(hs[j].0) != key {
      if AsciiLowerString(hs[j].0) == key {
        SameNameSameLowerCase(hs[j].0, hs[i].0);
      }
    }
  }

  /** The copied value comes from the last allowed pair with that name. */
  lemma {:induction false} CopiedValueBy(hs: seq<(string, string)>, denied: string -> bool, key: string) returns (i: nat)
    requires key in CopyAllowedBy(hs, denied)
    ensures i < |hs| && AsciiLowerString(hs[i].0) == key && !denied(hs[i].0)
    ensures CopyAllowedBy(hs, denied)[key] == hs[i].1
    ensures forall j :: i < j < |hs| ==> AsciiLowerString(hs[j].0) != key || denied(hs[j].0)
    decreases |hs|
  {
    var init := hs[..|hs| - 1];
    var last := |hs| - 1;
    if AsciiLowerString(hs[last].0) == key && !denied(hs[last].0) {
      i := last;
    } else {
      i := CopiedValueBy(init, denied, key);
      assert hs[i] == init[i];
      assert forall j :: i < j < last ==> hs[j] == init[j];
    }
  }

  /** The deny-listed names are written in ASCII. */
  lemma DeniedAreAscii(d: string)
    requires d in DeniedHeaders
    ensures forall k :: 0 <= k < |d| ==> d[k] < '\U{80}'
  {
  }

  /** No deny-listed header is ever copied from upstream. */
  lemma DeniedNeverCopied(hs: seq<(string, string)>, d: string)
    requires d in DeniedHeaders
    ensures d !in CopyAllowed(hs)
  {
    if d in CopyAllowed(hs) {
      var i :| 0 <= i < |hs| && AsciiLowerString(hs[i].0) == d && !Denied(hs[i].0);
      DeniedAreAscii(d);
      AsciiOfAsciiLower(hs[i].0);
      LowerCaseOfAscii(hs[i].0);
    }
  }

  /**
   * The headers of a forwarded response: the five proxy headers with their
   * fixed values whatever upstream sent, no other deny-listed header, and
   * every other header exactly as copied from upstream.
   */
  lemma ForwardedHeaders(hs: seq<(string, string)>)
    ensures var h := ProxyHeaders(hs);
      h["access-control-allow-origin"] == "*" && h["access-control-allow-methods"] == AllowMethods
      && h["access-control-allow-headers"] == AllowHeaders && h["x-frame-options"] == "SAMEORIGIN"
      && h["content-security-policy"] == FrameAncestors
    ensures forall d :: d in DeniedHeaders && d != "x-frame-options" && d != "content-security-policy" ==>
      d !in ProxyHeaders(hs)
    ensures forall key :: key !in {"access-control-allow-origin", "access-control-allow-methods",
      "access-control-allow-headers", "x-frame-options", "content-security-policy"} ==>
      (key in ProxyHeaders(hs) <==> key in CopyAllowed(hs))
      && (key in CopyAllowed(hs) ==> ProxyHeaders(hs)[key] == CopyAllowed(hs)[key])
  {
    forall d | d in DeniedHeaders ensures d !in CopyAllowed(hs) {
      DeniedNeverCopied(hs, d);
    }
  }

  // ---------------------------------------------------------------------
  // What kind of body it is.

  const TextTypes: seq<string> :=
    ["text/html", "application/json", "text/plain", "application/javascript", "application/xml", "text/css"]

  /** `response.headers.get(name)`: the value of the first pair with that name. */
  function HeaderGet(hs: seq<(string, string)>, name: string): (r: Option<string>)
    ensures r.Some? ==> exists k :: 0 <= k < |hs| && AsciiLowerString(hs[k].0) == name && hs[k].1 == r.value &&
                                   forall j :: 0 <= j < k ==> AsciiLowerString(hs[j].0) != name
    ensures r.None? ==> forall k :: 0 <= k < |hs| ==> AsciiLowerString(hs[k].0) != name
  {
    if hs == [] then None
    else if AsciiLowerString(hs[0].0) == name then Some(hs[0].1)
    else
      var r := HeaderGet(hs[1..], name);
      assert forall k :: 1 <= k < |hs| ==> hs[k] == hs[1..][k - 1];
      r
  }

  /** `response.headers.get('content-type') || ''`. */
  function ContentType(up: Upstream): string {
    match HeaderGet(up.headers, "content-type")
    case None => ""
    case Some(ct) => ct
  }

  predicate IsTextual(ct: string) {
    ContainsAny(ct, TextTypes)
  }

  predicate IsHtml(ct: string) {
    Contains(ct, "text/html")
  }

  // ---------------------------------------------------------------------
  // The HTML rewrite.

  const BlankDouble: Literal := "target=\"_blank\""
  const BlankSingle: Literal := "target='_blank'"
  const OnLine: Literal := "navigator.onLine"
  const SwBlocked: string := "console.log(\"Service worker registration blocked by proxy\")"
  const StyleBlock: string :=
    "\n              <style>\n                html, body { overflow-x: hidden; width: 100%; }\n"
    + "                /* Force links to open within the iframe */\n"
    + "                a { target: _self !important; }\n              </style>\n            "

  /**
   * The four removals, one global pass each: link targets, `<base>` and
   * X-Frame-Options `<meta>` tags. They never lengthen the text, and a text
   * with none of the four patterns anywhere comes through unchanged.
   */
  function Cleaned(text: string): (r: string)
    ensures |r| <= |text|
    ensures !Contains(text, BlankDouble) && !Contains(text, BlankSingle)
      && (forall q: nat :: q < |text| ==> MatchAt(BaseTag, text, q).None? && MatchAt(XfoMeta, text, q).None?)
      ==> r == text
  {
    RemovalsShorten(text);
    RemovalsKeep(text);
    ReplaceAll(ReplaceAll(ReplaceAll(ReplaceAll(text, Exact(BlankDouble), ""), Exact(BlankSingle), ""), BaseTag, ""), XfoMeta, "")
  }

  lemma RemovalsShorten(text: string)
    ensures |ReplaceAll(ReplaceAll(ReplaceAll(ReplaceAll(text, Exact(BlankDouble), ""), Exact(BlankSingle), ""), BaseTag, ""), XfoMeta, "")| <= |text|
  {
    var s1 := ReplaceAll(text, Exact(BlankDouble), "");
    var s2 := ReplaceAll(s1, Exact(BlankSingle), "");
    var s3 := ReplaceAll(s2, BaseTag, "");
    RemovalShortens(text, Exact(BlankDouble));
    RemovalShortens(s1, Exact(BlankSingle));
    RemovalShortens(s2, BaseTag);
    RemovalShortens(s3, XfoMeta);
  }

  lemma RemovalsKeep(text: string)
    ensures !Contains(text, BlankDouble) && !Contains(text, BlankSingle)
      && (forall q: nat :: q < |text| ==> MatchAt(BaseTag, text, q).None? && MatchAt(XfoMeta, text, q).None?)
      ==> ReplaceAll(ReplaceAll(ReplaceAll(ReplaceAll(text, Exact(BlankDouble), ""), Exact(BlankSingle), ""), BaseTag, ""), XfoMeta, "") == text
  {
    if !Contains(text, BlankDouble) && !Contains(text, BlankSingle)
      && (forall q: nat :: q < |text| ==> MatchAt(BaseTag, text, q).None? && MatchAt(XfoMeta, text, q).None?)
    {
      ReplaceAbsentLiteral(text, BlankDouble, "");
      ReplaceAbsentLiteral(text, BlankSingle, "");
      ReplaceAllNoMatch(text, BaseTag, "");
      ReplaceAllNoMatch(text, XfoMeta, "");
    }
  }

  /** The `<base>` tag pointing at the fetched page. */
  function BaseFor(target: Url): string {
    BaseOpen + target.origin + target.pathname + BaseClose
  }

  const BaseOpen: string := "<base href=\""
  const BaseClose: string := "\" />"

  /** `s.replace(/<head>/i, '<head>' + x)` with `x` taken literally. */
  function AfterHead(s: string, x: string): string {
    ReplaceFirst(s, HeadTag, "<head>" + x)
  }

  /**
   * The first `<head>` followed by the base tag, the text inserted
   * literally: a text without `<head>` (in any case) is unchanged, any
   * other has the base tag right after its first `<head>` and is otherwise
   * kept.
   */
  function InjectBase(s: string, target: Url): (r: string)
    ensures FirstMatchFrom(HeadTag, s, 0).None? ==> r == s
    ensures FirstMatchFrom(HeadTag, s, 0).Some? ==>
      var m := FirstMatchFrom(HeadTag, s, 0).value;
      m.1 == m.0 + 6 && r == s[..m.0] + ("<head>" + BaseFor(target)) + s[m.1..]
  {
    FirstInsertion(s, BaseFor(target));
    AfterHead(s, BaseFor(target))
  }

  /** Where a first `<head>` is found, the insertion replaces exactly its six characters. */
  lemma FirstInsertion(s: string, x: string)
    ensures FirstMatchFrom(HeadTag, s, 0).None? ==> AfterHead(s, x) == s
    ensures FirstMatchFrom(HeadTag, s, 0).Some? ==>
      var m := FirstMatchFrom(HeadTag, s, 0).value;
      m.1 == m.0 + 6 && AfterHead(s, x) == s[..m.0] + ("<head>" + x) + s[m.1..]
  {
    var f := FirstMatchFrom(HeadTag, s, 0);
    if f.Some? {
      HeadMatchWidth(s, f.value.0, f.value.1);
    }
  }

  /** A match of `<head>` is six characters wide. */
  lemma HeadMatchWidth(s: string, q: nat, e: nat)
    requires MatchAt(HeadTag, s, q) == Some(e)
    ensures e == q + 6
  {
  }

  /**
   * The same step as the source writes it: the inserted text is a
   * replacement template, so `$&`, `` $` ``, `$'` and `$$` in the fetched
   * address's origin or path are expanded. A text without `<head>` is
   * unchanged, and where the address holds no `$` the step agrees with the
   * literal insertion.
   */
  function InjectBaseAsWritten(s: string, target: Url): (r: string)
    ensures FirstMatchFrom(HeadTag, s, 0).None? ==> r == s
    ensures '$' !in target.origin + target.pathname ==> r == InjectBase(s, target)
  {
    assert '$' !in target.origin + target.pathname ==> '$' !in "<head>" + BaseFor(target);
    if '$' !in target.origin + target.pathname then
      ReplaceFirstPlainTemplate(s, HeadTag, "<head>" + BaseFor(target));
      ReplaceFirstTemplate(s, HeadTag, "<head>" + BaseFor(target))
    else ReplaceFirstTemplate(s, HeadTag, "<head>" + BaseFor(target))
  }

  /**
   * The first `<head>` followed by the style block: a text without `<head>`
   * is unchanged, any other has the style block right after its first
   * `<head>`.
   */
  function InjectStyle(s: string): (r: string)
    ensures FirstMatchFrom(HeadTag, s, 0).None? ==> r == s
    ensures FirstMatchFrom(HeadTag, s, 0).Some? ==>
      var m := FirstMatchFrom(HeadTag, s, 0).value;
      m.1 == m.0 + 6 && r == s[..m.0] + ("<head>" + StyleBlock) + s[m.1..]
  {
    FirstInsertion(s, StyleBlock);
    AfterHead(s, StyleBlock)
  }

  /**
   * The whole rewrite of an HTML body, in the order the handler applies it.
   * A text in which none of the rewrite's patterns occurs, `<head>`
   * included, comes back unchanged.
   */
  function RewriteHtml(text: string, target: Url): (r: string)
    ensures !Contains(text, BlankDouble) && !Contains(text, BlankSingle) && !Contains(text, OnLine)
      && (forall q: nat :: q < |text| ==>
            MatchAt(BaseTag, text, q).None? && MatchAt(XfoMeta, text, q).None? &&
            MatchAt(HeadTag, text, q).None? && MatchAt(ServiceWorkerRegister, text, q).None?)
      ==> r == text
  {
    var s6 := InjectStyle(InjectBase(Cleaned(text), target));
    var s7 := ReplaceAll(s6, ServiceWorkerRegister, SwBlocked);
    var s8 := ReplaceAll(s7, Exact(OnLine), "true");
    assert !Contains(text, BlankDouble) && !Contains(text, BlankSingle) && !Contains(text, OnLine)
      && (forall q: nat :: q < |text| ==>
            MatchAt(BaseTag, text, q).None? && MatchAt(XfoMeta, text, q).None? &&
            MatchAt(HeadTag, text, q).None? && MatchAt(ServiceWorkerRegister, text, q).None?)
      ==> s8 == text
    by {
      if !Contains(text, BlankDouble) && !Contains(text, BlankSingle) && !Contains(text, OnLine)
        && (forall q: nat :: q < |text| ==>
              MatchAt(BaseTag, text, q).None? && MatchAt(XfoMeta, text, q).None? &&
              MatchAt(HeadTag, text, q).None? && MatchAt(ServiceWorkerRegister, text, q).None?)
      {
        assert Cleaned(text) == text;
        assert FirstMatchFrom(HeadTag, text, 0).None?;
        ReplaceAllNoMatch(text, ServiceWorkerRegister, SwBlocked);
        ReplaceAbsentLiteral(text, OnLine, "true");
      }
    }
    s8
  }

  /** A literal none of whose proper suffixes starts with its first two characters cannot overlap itself. */
  lemma NoSelfOverlapByTwo(lit: string)
    requires |lit| >= 2
    requires forall d :: 0 < d < |lit| ==> lit[d] != lit[0] || (d + 1 < |lit| && lit[d + 1] != lit[1])
    ensures NoSelfOverlap(lit)
  {
    forall d | 0 < d < |lit| ensures lit[d..] != lit[..|lit| - d] {
      assert lit[d] != lit[0] || (d + 1 < |lit| && lit[d + 1] != lit[1]);
      if lit[d] != lit[0] {
        assert lit[d..][0] != lit[..|lit| - d][0];
      } else {
        assert lit[d..][1] != lit[..|lit| - d][1];
      }
    }
  }

  /** Every `target="_blank"` and `target='_blank'` of the text is one of the matches the first two passes remove. */
  lemma EveryBlankTargetRemoved(s: string, q: nat)
    ensures OccursAt(s, BlankDouble, q) ==> (q, q + |BlankDouble|) in Matches(s, Exact(BlankDouble))
    ensures OccursAt(s, BlankSingle, q) ==> (q, q + |BlankSingle|) in Matches(s, Exact(BlankSingle))
  {
    NoSelfOverlapByTwo(BlankDouble);
    NoSelfOverlapByTwo(BlankSingle);
    if OccursAt(s, BlankDouble, q) {
      EveryOccurrenceReplaced(s, BlankDouble, q);
    }
    if OccursAt(s, BlankSingle, q) {
      EveryOccurrenceReplaced(s, BlankSingle, q);
    }
  }

  /** Every `navigator.onLine` of the text is one of the matches the last pass turns into `true`. */
  lemma EveryOnLineReplaced(s: string, q: nat)
    requires OccursAt(s, OnLine, q)
    ensures (q, q + |OnLine|) in Matches(s, Exact(OnLine))
  {
    NoSelfOverlapByTwo(OnLine);
    EveryOccurrenceReplaced(s, OnLine, q);
  }

  /** `navigator.serviceWorker.register()` with nothing between the parentheses is left alone. */
  lemma EmptyRegisterKept(s: string, i: nat)
    requires OccursAt(s, SwCall + ")", i)
    ensures MatchAt(ServiceWorkerRegister, s, i).None?
  {
    assert s[i..i + |SwCall|] == (SwCall + ")")[..|SwCall|];
    assert s[i + |SwCall|] == ')';
  }

  /** A text that agrees with `s` before `q` and has `<head>` (in any case) at `q` in both agrees on `<head>` up to `q`. */
  lemma HeadAgree(s: string, t: string, q: nat, p: nat)
    requires p <= q && OccursAtCI(s, "<head>", q) && OccursAtCI(t, "<head>", q)
    requires q <= |t| && t[..q] == s[..q]
    ensures OccursAtCI(t, "<head>", p) == OccursAtCI(s, "<head>", p)
  {
    forall j | p <= j < p + 6 ensures AsciiLower(t[j]) == AsciiLower(s[j]) {
      if j < q {
        assert t[j] == t[..q][j] == s[..q][j] == s[j];
      } else {
        var d := j - q;
        assert AsciiLower(t[q + d]) == "<head>"[d] == AsciiLower(s[q + d]);
      }
    }
  }

  /** `<head>` written as such is a match of the case-insensitive `<head>`. */
  lemma LowerHeadMatches(t: string, q: nat)
    requires q + 6 <= |t| && t[q..q + 6] == "<head>"
    ensures OccursAtCI(t, "<head>", q)
  {
    forall k | 0 <= k < 6 ensures AsciiLower(t[q + k]) == "<head>"[k] {
      assert t[q + k] == t[q..q + 6][k];
    }
  }

  /** Replacing `<head>` at `q` by a text that starts with `<head>` leaves the first `<head>` at `q`. */
  lemma FirstHeadStays(s: string, q: nat, insert: string)
    requires FirstMatchFrom(HeadTag, s, 0) == Some((q, q + 6))
    requires |insert| >= 6 && insert[..6] == "<head>"
    ensures FirstMatchFrom(HeadTag, s[..q] + insert + s[q + 6..], 0) == Some((q, q + 6))
  {
    var t := s[..q] + insert + s[q + 6..];
    assert OccursAtCI(s, "<head>", q);
    assert t[..q] == s[..q];
    assert t[q..q + 6] == insert[..6];
    LowerHeadMatches(t, q);
    forall p: nat | p < q ensures !OccursAtCI(t, "<head>", p) {
      HeadAgree(s, t, q, p);
      assert MatchAt(HeadTag, s, p).None?;
    }
    HeadSearch(t, 0, q);
  }

  /** The search for the first match of `<head>` from `i` finds `q` when that is the first position with one. */
  lemma {:induction false} HeadSearch(t: string, i: nat, q: nat)
    requires i <= q && q + 6 <= |t| && OccursAtCI(t, "<head>", q)
    requires forall p: nat :: i <= p < q ==> !OccursAtCI(t, "<head>", p)
    ensures FirstMatchFrom(HeadTag, t, i) == Some((q, q + 6))
    decreases q - i
  {
    if i < q {
      HeadSearch(t, i + 1, q);
    }
  }

  /**
   * Only the first `<head>` is rewritten: it becomes `<head>`, the style
   * block, then the base tag, and everything around it is kept. A text
   * without `<head>` gets neither.
   */
  lemma HeadInjection(s: string, target: Url)
    ensures FirstMatchFrom(HeadTag, s, 0).None? ==> InjectStyle(InjectBase(s, target)) == s
    ensures FirstMatchFrom(HeadTag, s, 0).Some? ==>
      var q := FirstMatchFrom(HeadTag, s, 0).value.0;
      q + 6 <= |s| && OccursAtCI(s, "<head>", q)
      && (forall p: nat :: p < q ==> !OccursAtCI(s, "<head>", p))
      && InjectStyle(InjectBase(s, target)) == HeadSplice(s, q, StyleBlock, BaseFor(target))
  {
    TwoInsertions(s, BaseFor(target), StyleBlock);
  }

  /** `s` with the six characters at `q` replaced by `<head>`, then `y`, then `x`. */
  function HeadSplice(s: string, q: nat, y: string, x: string): string
    requires q + 6 <= |s|
  {
    s[..q] + "<head>" + y + x + s[q + 6..]
  }

  /** Two insertions after the first `<head>`: the second one lands before the first. */
  lemma TwoInsertions(s: string, x: string, y: string)
    ensures FirstMatchFrom(HeadTag, s, 0).None? ==> AfterHead(AfterHead(s, x), y) == s
    ensures FirstMatchFrom(HeadTag, s, 0).Some? ==>
      var q := FirstMatchFrom(HeadTag, s, 0).value.0;
      q + 6 <= |s| && OccursAtCI(s, "<head>", q)
      && (forall p: nat :: p < q ==> !OccursAtCI(s, "<head>", p))
      && AfterHead(AfterHead(s, x), y) == HeadSplice(s, q, y, x)
  {
    match FirstMatchFrom(HeadTag, s, 0)
    case None =>
    case Some(m) =>
      assert m.1 == m.0 + 6;
      TwoInsertionsAt(s, m.0, x, y);
      forall p: nat | p < m.0 ensures !OccursAtCI(s, "<head>", p) {
        assert MatchAt(HeadTag, s, p).None?;
      }
  }

  lemma SpliceParts(a: string, h: string, x: string, b: string)
    ensures (a + (h + x) + b)[..|a|] == a && (a + (h + x) + b)[|a| + |h|..] == x + b
    ensures a + (h + x) + b == a + h + x + b
  {
  }

  lemma TwoInsertionsAt(s: string, q: nat, x: string, y: string)
    requires FirstMatchFrom(HeadTag, s, 0) == Some((q, q + 6))
    ensures AfterHead(AfterHead(s, x), y) == s[..q] + "<head>" + y + x + s[q + 6..]
  {
    var a, b := s[..q], s[q + 6..];
    var hx, hy := "<head>" + x, "<head>" + y;
    var s5 := a + hx + b;
    ReplaceFirstAt(s, HeadTag, hx, q, q + 6);
    assert hx[..6] == "<head>";
    FirstHeadStays(s, q, hx);
    ReplaceFirstAt(s5, HeadTag, hy, q, q + 6);
    SpliceParts(a, "<head>", x, b);
    SpliceParts(a, "<head>", y, x + b);
  }


  /** The inserted text split around a `$'` of the fetched address. */
  lemma BaseTemplateSplit(target: Url, o: string, p: string)
    requires target.origin + target.pathname == o + "$'" + p
    ensures "<head>" + BaseFor(target) == ("<head>" + BaseOpen + o) + "$'" + (p + BaseClose)
  {
    calc {
      "<head>" + BaseFor(target);
      "<head>" + (BaseOpen + (target.origin + target.pathname) + BaseClose);
      "<head>" + (BaseOpen + (o + "$'" + p) + BaseClose);
    }
  }

  /**
   * Where the fetched address is `o`, then `$'`, then `p` (neither holding a
   * `$`), the step as written puts the whole rest of the document after the
   * first `<head>` into the base address in place of the `$'`, and so differs
   * from the corrected step unless that rest is two characters long.
   */
  lemma InjectBaseQuoteAsWritten(s: string, target: Url, q: nat, o: string, p: string)
    requires FirstMatchFrom(HeadTag, s, 0) == Some((q, q + 6))
    requires target.origin + target.pathname == o + "$'" + p && '$' !in o && '$' !in p
    ensures InjectBaseAsWritten(s, target) == s[..q] + (("<head>" + BaseOpen + o) + s[q + 6..] + (p + BaseClose)) + s[q + 6..]
    ensures InjectBase(s, target) == s[..q] + (("<head>" + BaseOpen + o) + "$'" + (p + BaseClose)) + s[q + 6..]
  {
    var pre, post := "<head>" + BaseOpen + o, p + BaseClose;
    BaseTemplateSplit(target, o, p);
    assert '$' !in pre && '$' !in post;
    ExpandDollarQuote(pre, post, s[q..q + 6], s[..q], s[q + 6..]);
    ReplaceFirstAt(s, HeadTag, "<head>" + BaseFor(target), q, q + 6);
  }

  /** Two texts that differ only in the length of one middle part are different. */
  lemma SplicesDiffer(a: string, pre: string, r: string, post: string, z: string)
    requires |r| != |z|
    ensures a + (pre + r + post) + r != a + (pre + z + post) + r
  {
    assert |a + (pre + r + post) + r| != |a + (pre + z + post) + r|;
  }

  /** A fetched page at path `/$'`: the step as written and the corrected step give different pages. */
  lemma InjectBaseDollarQuote()
    ensures var target := Url("https://a.example/$'", "https://a.example", "/$'", []);
      InjectBaseAsWritten("<head></head>", target) != InjectBase("<head></head>", target)
  {
    var s := "<head></head>";
    var target := Url("https://a.example/$'", "https://a.example", "/$'", []);
    LowerHeadMatches(s, 0);
    HeadSearch(s, 0, 0);
    assert target.origin + target.pathname == "https://a.example/" + "$'" + "";
    InjectBaseQuoteAsWritten(s, target, 0, "https://a.example/", "");
    SplicesDiffer(s[..0], "<head>" + BaseOpen + "https://a.example/", s[6..], "" + BaseClose, "$'");
  }

  // ---------------------------------------------------------------------
  // The forwarded response.

  /**
   * The Fetch standard's null-body statuses that lie in 200..599 (the
   * others, 101 and 103, fall outside that range anyway).
   */
  const NullBodyStatuses: set<int> := {204, 205, 304}

  /**
   * The response constructor (the Fetch standard's `Response(body, init)`,
   * which `NextResponse` extends) accepts the status: it lies in 200..599
   * and, since the handler always passes a body, is not a null-body status.
   */
  predicate Forwardable(status: int) {
    200 <= status <= 599 && status !in NullBodyStatuses
  }

  /** The decimal digit `d` as a character. */
  function Digit(d: int): (c: char)
    requires 0 <= d <= 9
    ensures '0' <= c <= '9'
  {
    ('0' as int + d) as char
  }

  /** A status of three digits, written in decimal. */
  function Decimal3(n: int): (t: string)
    requires 100 <= n <= 999
    ensures |t| == 3 && forall i :: 0 <= i < 3 ==> '0' <= t[i] <= '9'
  {
    [Digit(n / 100), Digit(n / 10 % 10), Digit(n % 10)]
  }

  const StatusRangeError := "init[\"status\"] must be in the range of 200 to 599, inclusive."
  const NullBodyError := "Response constructor: Invalid response status code "
  const BodyUsedError := "Body is unusable: Body has already been read"

  /**
   * The error that reaches the outer `catch` once the constructor has
   * thrown `thrown`: the fallback reads the body a second time, which fails
   * when the first attempt read it (a null-body status has no body to read,
   * and a text that could not be read is read by the fallback); otherwise
   * the fallback's own constructor call throws `thrown` again.
   */
  function FallbackError(up: Upstream, thrown: string): string {
    if up.status in NullBodyStatuses || up.textFails then thrown else BodyUsedError
  }

  /**
   * The error the response constructor raises for a status, if it raises
   * one: a range error outside 200..599, a type error for a null-body
   * status. Either reaches the outer `catch`.
   */
  function ConstructorError(status: int): (e: Option<string>)
    ensures e.None? <==> Forwardable(status)
    ensures e.Some? ==> e.value != ""
  {
    if status < 200 || status > 599 then Some(StatusRangeError)
    else if status in NullBodyStatuses then Some(NullBodyError + Decimal3(status))
    else None
  }

  /** The body passed back: an HTML text rewritten, anything else as it came. */
  function ForwardedBody(up: Upstream, target: Url): string {
    if IsHtml(ContentType(up)) && !up.textFails then RewriteHtml(up.body, target) else up.body
  }

  /**
   * What the handler answers once the fetch has had its outcome: a failed
   * fetch, and a response whose status the response constructor refuses,
   * get the 500 error page showing the address; any other response keeps
   * its status and status text and carries the proxy's headers.
   */
  function Forwarded(url: string, target: Url, outcome: FetchOutcome): (r: Response)
    ensures outcome.FetchFailed? || !Forwardable(outcome.upstream.status) ==>
      r.status == 500 && r.headers == HtmlHeaders && r.body.Content? && Contains(r.body.data, url)
    ensures outcome.Fetched? && Forwardable(outcome.upstream.status) ==>
      r.status == outcome.upstream.status && r.statusText == outcome.upstream.statusText
      && r.headers == ProxyHeaders(outcome.upstream.headers)
  {
    match outcome
    case FetchFailed(message) => ErrorResponse(url, message)
    case Fetched(up) =>
      match ConstructorError(up.status)
      case Some(message) => ErrorResponse(url, FallbackError(up, message))
      case None => Response(up.status, up.statusText, ProxyHeaders(up.headers), Content(ForwardedBody(up, target)))
  }

  /**
   * A forwarded response whose status the constructor accepts keeps the
   * upstream status and status text; its body is the upstream body unless
   * that is HTML whose text can be read, which is rewritten. A refused
   * status turns into the 500 page: for a null-body status it shows the
   * constructor's error, for a status outside 200..599 the failure of the
   * fallback's second read, or the range error when the text could not be
   * read the first time.
   */
  lemma ForwardedKeepsStatus(url: string, target: Url, up: Upstream)
    ensures var r := Forwarded(url, target, Fetched(up));
      Forwardable(up.status) ==>
        r.status == up.status && r.statusText == up.statusText && r.headers == ProxyHeaders(up.headers)
        && (!IsHtml(ContentType(up)) || up.textFails ==> r.body == Content(up.body))
        && (IsHtml(ContentType(up)) && !up.textFails ==> r.body == Content(RewriteHtml(up.body, target)))
    ensures var r := Forwarded(url, target, Fetched(up));
      !Forwardable(up.status) ==>
        r.status == 500 && r.body.Content? && Contains(r.body.data, url)
    ensures var r := Forwarded(url, target, Fetched(up));
      up.status in NullBodyStatuses ==> r.body.Content? && Contains(r.body.data, NullBodyError + Decimal3(up.status))
    ensures var r := Forwarded(url, target, Fetched(up));
      !(200 <= up.status <= 599) ==>
        r.body.Content? && Contains(r.body.data, if up.textFails then StatusRangeError else BodyUsedError)
  {
  }

  /** The null-body statuses are refused, and so are 1xx statuses; 200 is forwarded. */
  lemma NullBodyRefused(url: string, target: Url, up: Upstream)
    requires up.status in NullBodyStatuses || 100 <= up.status < 200
    ensures Forwarded(url, target, Fetched(up)).status == 500
    ensures Forwardable(200) && !Forwardable(up.status)
  {
    assert !Forwardable(up.status);
  }

  /** An HTML content type is one of the text types. */
  lemma HtmlIsTextual(ct: string)
    requires IsHtml(ct)
    ensures IsTextual(ct)
  {
    assert TextTypes[0] == "text/html";
  }

  /**
   * Builds the forwarded response as the handler does: headers one by one,
   * then the body stage by stage, then the response constructor, which may
   * refuse the status.
   */
  method Forward(url: string, target: Url, outcome: FetchOutcome) returns (r: Response)
    ensures r == Forwarded(url, target, outcome)
  {
    match outcome
    case FetchFailed(message) =>
      r := ErrorResponse(url, message);
    case Fetched(up) =>
      var headers: map<string, string> := map[];
      var i := 0;
      while i < |up.headers|
        invariant 0 <= i <= |up.headers|
        invariant headers == CopyAllowed(up.headers[..i])
      {
        var (name, value) := up.headers[i];
        assert up.headers[..i + 1][..i] == up.headers[..i];
        if !Denied(name) {
          headers := headers[AsciiLowerString(name) := value];
        }
        i := i + 1;
      }
      assert up.headers[..i] == up.headers;
      headers := headers["access-control-allow-origin" := "*"];
      headers := headers["access-control-allow-methods" := AllowMethods];
      headers := headers["access-control-allow-headers" := AllowHeaders];
      headers := headers["x-frame-options" := "SAMEORIGIN"];
      headers := headers["content-security-policy" := FrameAncestors];
      var contentType := ContentType(up);
      var data := up.body;
      if IsTextual(contentType) && !up.textFails {
        if IsHtml(contentType) {
          var modified := ReplaceAll(up.body, Exact(BlankDouble), "");
          modified := ReplaceAll(modified, Exact(BlankSingle), "");
          modified := ReplaceAll(modified, BaseTag, "");
          modified := ReplaceAll(modified, XfoMeta, "");
          modified := InjectBase(modified, target);
          modified := InjectStyle(modified);
          modified := ReplaceAll(modified, ServiceWorkerRegister, SwBlocked);
          modified := ReplaceAll(modified, Exact(OnLine), "true");
          data := modified;
        }
      } else if IsHtml(contentType) {
        HtmlIsTextual(contentType);
      }
      var refusal := ConstructorError(up.status);
      if refusal.Some? {
        r := ErrorResponse(url, FallbackError(up, refusal.value));
      } else {
        r := Response(up.status, up.statusText, headers, Content(data));
      }
  }

  /** The handler's answer to a request, given the parser and what a fetch of each target brings back. */
  function Handle(q: Query, parse: UrlParser, fetch: Url -> FetchOutcome): Response {
    match Route(q, parse)
    case Reply(r) => r
    case Fetch(url, target) => Forwarded(url, target, fetch(target))
  }

  /**
   * End to end: a request without an address gets the 400 refusal; every
   * other answer is open to any origin; a fetched answer with a status the
   * constructor accepts keeps it with the proxy's headers, and a failed
   * fetch or a refused status gets the 500 page showing the address.
   */
  lemma HandleAnswers(q: Query, parse: UrlParser, fetch: Url -> FetchOutcome)
    ensures !Truthy(SearchParam(q, "url")) ==> Handle(q, parse, fetch) == MissingUrl
    ensures var r := Handle(q, parse, fetch);
      r == MissingUrl || ("access-control-allow-origin" in r.headers && r.headers["access-control-allow-origin"] == "*")
    ensures Route(q, parse).Fetch? ==>
      var d := Route(q, parse);
      var r := Handle(q, parse, fetch);
      match fetch(d.target)
      case FetchFailed(_) => r.status == 500 && r.body.Content? && Contains(r.body.data, d.url)
      case Fetched(up) =>
        (Forwardable(up.status) ==>
           r.status == up.status && r.statusText == up.statusText && r.headers == ProxyHeaders(up.headers))
        && (!Forwardable(up.status) ==> r.status == 500 && r.body.Content? && Contains(r.body.data, d.url))
  {
    match Route(q, parse)
    case Reply(_) =>
      RepliesWithoutFetch(q, parse);
    case Fetch(url, target) =>
      assert Handle(q, parse, fetch) == Forwarded(url, target, fetch(target));
  }

  /** `GET`: the answer is the decision's reply, or the forwarded answer for the fetch's outcome on the target. */
  method Get(q: Query, parse: UrlParser, fetch: Url -> FetchOutcome) returns (r: Response)
    ensures r == Handle(q, parse, fetch)
  {
    match Route(q, parse)
    case Reply(response) =>
      r := response;
    case Fetch(url, target) =>
      r := Forward(url, target, fetch(target));
  }

  /** `OPTIONS`: the preflight answer, with no body. */
  function Options(): (r: Response)
    ensures r.status == 200 && r.body == NoBody
    ensures r.headers.Keys == {"access-control-allow-origin", "access-control-allow-methods",
                               "access-control-allow-headers", "access-control-max-age"}
    ensures r.headers["access-control-max-age"] == "86400" && r.headers["access-control-allow-origin"] == "*"
    ensures r.headers["access-control-allow-methods"] == "GET, POST, OPTIONS"
    ensures r.headers["access-control-allow-headers"] == "Content-Type, Authorization, X-Requested-With"
  {
    Response(200, "", map["access-control-allow-origin" := "*",
                          "access-control-allow-methods" := AllowMethods,
                          "access-control-allow-headers" := AllowHeaders,
                          "access-control-max-age" := "86400"], NoBody)
  }
}
