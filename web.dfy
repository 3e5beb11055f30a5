/**
 * The web platform values the core handles: a parsed URL and its query,
 * `URLSearchParams.get`, and the responses a route handler returns.
 *
 * The WHATWG URL parser is not modelled; a `UrlParser` is passed in by the
 * caller, and `None` stands for the `TypeError` that `new URL(...)` throws.
 */
module Web {
  import opened Wrappers
  import opened Text

  /** The name/value pairs of a query string, in order, already percent-decoded. */
  type Query = seq<(string, string)>

  /** The parts of a parsed URL the core reads. */
  datatype Url = Url(href: string, origin: string, pathname: string, query: Query)

  /** `new URL(s)`: a parsed URL, or `None` where the constructor throws. */
  type UrlParser = string -> Option<Url>

  /** The message of the `TypeError` that `new URL(...)` throws on input it cannot parse. */
  const InvalidUrl: string := "Invalid URL"

  /** `searchParams.get(name)`: the value of the first pair with that name. */
  function SearchParam(q: Query, name: string): (r: Option<string>)
    ensures r.None? <==> forall k :: 0 <= k < |q| ==> q[k].0 != name
    ensures r.Some? ==> exists k :: 0 <= k < |q| && q[k] == (name, r.value)
                          && forall l :: 0 <= l < k ==> q[l].0 != name
  {
    if q == [] then None
    else if q[0].0 == name then Some(q[0].1)
    else
      var r := SearchParam(q[1..], name);
      assert forall k :: 1 <= k < |q| ==> q[k] == q[1..][k - 1];
      r
  }

  /** A JavaScript string in a boolean context: `null` and `""` are false. */
  predicate Truthy(v: Option<string>) {
    v.Some? && v.value != ""
  }

  datatype Body = NoBody | Content(data: string)

  /**
   * A response. Header names are stored the way a `Headers` object keeps
   * them, in ASCII lower case; `statusText` is empty unless a handler sets it.
   */
  datatype Response = Response(status: int, statusText: string, headers: map<string, string>, body: Body)

  const ContentTypeHtml: string := "text/html; charset=utf-8"

  /** The headers of every page a route synthesises itself. */
  const HtmlHeaders: map<string, string> :=
    map["content-type" := ContentTypeHtml, "access-control-allow-origin" := "*"]

  /** `new NextResponse(page, { headers: { Content-Type: html, Access-Control-Allow-Origin: * } })`. */
  function HtmlPage(page: string): (r: Response)
    ensures r.status == 200 && r.body == Content(page)
    ensures r.headers.Keys == {"content-type", "access-control-allow-origin"}
    ensures r.headers["content-type"] == ContentTypeHtml && r.headers["access-control-allow-origin"] == "*"
  {
    Response(200, "", HtmlHeaders, Content(page))
  }

  /** `NextResponse.json({ error: message }, { status })`. */
  function JsonError(status: int, message: string): (r: Response)
    ensures r.status == status && r.headers == map["content-type" := "application/json"]
    ensures r.body == Content("{\"error\":\"" + message + "\"}")
  {
    Response(status, "", map["content-type" := "application/json"], Content("{\"error\":\"" + message + "\"}"))
  }

  /** `/^https?:\/\//i.test(url)`: the address starts with a scheme the pages accept. */
  predicate HasScheme(url: string) {
    OccursAtCI(url, "http://", 0) || OccursAtCI(url, "https://", 0)
  }

  /** `https://` in front makes a scheme. */
  lemma SchemeInFront(url: string)
    ensures HasScheme("https://" + url)
  {
    var s := "https://" + url;
    assert s[..8] == "https://";
    assert forall k :: 0 <= k < 8 ==> AsciiLower(s[k]) == "https://"[k];
  }

  /** The address with `https://` in front unless it starts with a scheme. */
  function Normalise(url: string): (r: string)
    ensures HasScheme(r)
    ensures HasScheme(url) ==> r == url
    ensures !HasScheme(url) ==> r == "https://" + url
  {
    if HasScheme(url) then url
    else
      SchemeInFront(url);
      "https://" + url
  }

  /** Normalising twice is normalising once. */
  lemma NormaliseIdempotent(url: string)
    ensures Normalise(Normalise(url)) == Normalise(url)
  {
  }

  /** An address with a scheme starts with `h` or `H` and has its colon fifth or sixth. */
  lemma SchemeShape(url: string)
    requires HasScheme(url)
    ensures |url| >= 7 && AsciiLower(url[0]) == 'h' && url[0] != '/'
    ensures url[4] == ':' || url[5] == ':'
  {
    if OccursAtCI(url, "http://", 0) {
      assert AsciiLower(url[0 + 0]) == "http://"[0] && AsciiLower(url[0 + 4]) == "http://"[4];
    } else {
      assert AsciiLower(url[0 + 0]) == "https://"[0] && AsciiLower(url[0 + 5]) == "https://"[5];
    }
  }
}
