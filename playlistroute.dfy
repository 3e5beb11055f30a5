/**
 * The playlist endpoint, `GET /api/playlist?id=...`.
 *
 * A missing or empty `id` is refused, then an `id` that is not a playlist
 * id; a valid one gets a synthesised page whose player plays the playlist.
 * Nothing is fetched.
 */
module PlaylistRoute {
  import opened Wrappers
  import opened Text
  import opened Web

  // ---------------------------------------------------------------------
  // Validation: the anchored test `/^[A-Za-z0-9_-]{13,}$/`.

  /** One character of the class `[A-Za-z0-9_-]`. */
  predicate IdChar(c: char) {
    'A' <= c <= 'Z' || 'a' <= c <= 'z' || '0' <= c <= '9' || c == '_' || c == '-'
  }

  /** Every character of `s` is in the class, checked from the front. */
  function AllIdChars(s: string): (r: bool)
    ensures r <==> forall k :: 0 <= k < |s| ==> IdChar(s[k])
  {
    if s == [] then true
    else
      var rest := AllIdChars(s[1..]);
      assert forall k :: 1 <= k < |s| ==> s[k] == s[1..][k - 1];
      IdChar(s[0]) && rest
  }

  const MinIdLength: nat := 13

  /** `isValidPlaylistId(id)`: thirteen or more characters, each in the class. */
  function IsValidPlaylistId(id: string): (r: bool)
    ensures r <==> |id| >= MinIdLength && forall k :: 0 <= k < |id| ==> IdChar(id[k])
  {
    |id| >= MinIdLength && AllIdChars(id)
  }

  /** A valid id holds nothing that could end the attribute or the URL query it is placed in. */
  lemma ValidIdIsInert(id: string)
    requires IsValidPlaylistId(id)
    ensures forall k :: 0 <= k < |id| ==> id[k] !in {'"', '\'', '<', '>', '&', '?', '#', ':', '/'}
  {
  }

  /** Every id shorter than thirteen characters is rejected, `PLshort` among them. */
  lemma ShortIdRejected()
    ensures forall id :: |id| < MinIdLength ==> !IsValidPlaylistId(id)
    ensures !IsValidPlaylistId("PLshort")
    ensures !IsValidPlaylistId("PLABCDEFGHIJ")
  {
  }

  /** Thirteen class characters pass, whatever they are; so does `PL0123456789_`. */
  lemma ThirteenAccepted()
    ensures forall id :: |id| == MinIdLength && AllIdChars(id) ==> IsValidPlaylistId(id)
    ensures IsValidPlaylistId("PL0123456789_")
  {
    var id := "PL0123456789_";
    assert forall k :: 0 <= k < |id| ==> IdChar(id[k]);
  }

  /** One character outside the class spoils an id of any length. */
  lemma OutsideClassRejected(id: string, k: nat)
    requires k < |id| && !IdChar(id[k])
    ensures !IsValidPlaylistId(id)
  {
  }

  // ---------------------------------------------------------------------
  // The page. Only the parts of the fixed markup around the id are kept.

  const PlaylistSource: string := "https://www.youtube.com/embed/videoseries?list="
  const PlaylistOptions: string := "&autoplay=1&rel=0"
  const PlaylistHead: string :=
    "<!DOCTYPE html><html><head><meta charset=\"utf-8\"><title>YouTube Playlist</title></head>"
    + "<body><div class=\"video-container\"><div id=\"ad-blocked\" class=\"ad-overlay\">Ad Blocked</div>"
    + "<iframe id=\"player\" src=\""
  const PlaylistTail: string :=
    "\" frameborder=\"0\" allowfullscreen></iframe></div><script></script></body></html>"

  /**
   * `generatePlaylistEmbed(playlistId)`: the page's player plays the
   * playlist, from its start, without related videos.
   */
  function PlaylistEmbed(id: string): (page: string)
    ensures Contains(page, PlaylistSource + id + PlaylistOptions)
  {
    OccursInFive(PlaylistHead, PlaylistSource, id, PlaylistOptions, PlaylistTail);
    PlaylistHead + PlaylistSource + id + PlaylistOptions + PlaylistTail
  }

  // ---------------------------------------------------------------------
  // The handlers.

  const MissingId: Response := JsonError(400, "Missing playlist ID parameter")
  const InvalidId: Response := JsonError(400, "Invalid playlist ID format")

  /**
   * `GET`. The answer is one of three, each given exactly when its
   * condition holds: the missing check comes first, so an empty id is
   * refused as missing although it would fail the format test too. The
   * `try` around the page does not change the answer: building the page
   * cannot throw, so its `catch` is never taken.
   */
  function Get(q: Query): (r: Response)
    ensures r == MissingId <==> !Truthy(SearchParam(q, "id"))
    ensures r == InvalidId <==> Truthy(SearchParam(q, "id")) && !IsValidPlaylistId(SearchParam(q, "id").value)
    ensures r.status == 200 <==> SearchParam(q, "id").Some? && IsValidPlaylistId(SearchParam(q, "id").value)
    ensures r.status == 200 ==> r == HtmlPage(PlaylistEmbed(SearchParam(q, "id").value))
  {
    assert MissingId != InvalidId by {
      assert MissingId.body.data[10] != InvalidId.body.data[10];
    }
    var id := SearchParam(q, "id");
    if !Truthy(id) then MissingId
    else if !IsValidPlaylistId(id.value) then InvalidId
    else HtmlPage(PlaylistEmbed(id.value))
  }

  /** A valid id is answered with an HTML page, open to any origin, that plays it. */
  lemma ValidIdEmbeds(q: Query)
    requires var id := SearchParam(q, "id"); id.Some? && IsValidPlaylistId(id.value)
    ensures var id := SearchParam(q, "id").value;
      Get(q).status == 200
      && Get(q).headers["content-type"] == ContentTypeHtml
      && Get(q).headers["access-control-allow-origin"] == "*"
      && Contains(Get(q).body.data, PlaylistSource + id + PlaylistOptions)
  {
    assert Get(q) == HtmlPage(PlaylistEmbed(SearchParam(q, "id").value));
  }

  const AllowMethods: string := "GET, OPTIONS"
  const AllowHeaders: string := "Content-Type, Authorization"

  /** `OPTIONS`: the preflight answer, with no body. */
  function Options(): (r: Response)
    ensures r.status == 200 && r.body == NoBody
    ensures r.headers.Keys == {"access-control-allow-origin", "access-control-allow-methods",
                               "access-control-allow-headers", "access-control-max-age"}
    ensures r.headers["access-control-allow-methods"] == "GET, OPTIONS"
    ensures r.headers["access-control-allow-headers"] == "Content-Type, Authorization"
    ensures r.headers["access-control-max-age"] == "86400"
    ensures r.headers["access-control-allow-origin"] == "*"
  {
    Response(200, "", map["access-control-allow-origin" := "*",
                          "access-control-allow-methods" := AllowMethods,
                          "access-control-allow-headers" := AllowHeaders,
                          "access-control-max-age" := "86400"], NoBody)
  }
}
