/**
 * The playlist page, `/infinite/list`: an address box for a YouTube
 * playlist, the id taken out of it, and an iframe that plays the playlist
 * either through the playlist endpoint or straight from YouTube.
 *
 * As on the browse page, the state is a class whose methods are specified
 * by functions on a snapshot, `View`, and the properties are lemmas about
 * those functions.
 */
module PlaylistPage {
  import opened Wrappers
  import opened Text
  import opened Web
  import PlaylistRoute

  // ---------------------------------------------------------------------
  // Taking the playlist id out of an address.

  /**
   * `extractPlaylistId(url)`. The address gets a scheme first; an address
   * the parser refuses lands in the `catch`, which tests the (already
   * prefixed) address as a bare id. The bare-id tests are kept as written.
   *
   * The cascade as it behaves: nothing for empty input or an address the
   * parser refuses; for a `youtube.com/playlist` address its `list`
   * parameter, whatever it is; for any other address the `list` parameter
   * when it is non-empty, and nothing otherwise. The bare-id branches
   * never decide.
   */
  function ExtractPlaylistId(input: string, parse: UrlParser): (r: Option<string>)
    ensures input == "" ==> r == None
    ensures input != "" && parse(Normalise(input)).None? ==> r == None
    ensures input != "" && parse(Normalise(input)).Some? ==>
      var url := Normalise(input);
      var list := SearchParam(parse(url).value.query, "list");
      r == if Contains(url, "youtube.com/playlist") || Truthy(list) then list else None
  {
    if input == "" then None
    else
      SchemeIsNoBareId(Normalise(input));
      var url := Normalise(input);
      match parse(url)
      case None => if PlaylistRoute.IsValidPlaylistId(url) then Some(url) else None
      case Some(u) =>
        var list := SearchParam(u.query, "list");
        if Contains(url, "youtube.com/playlist") then list
        else if Contains(url, "youtube.com/watch") && Truthy(list) then list
        else if Contains(url, "youtu.be/") && Truthy(list) then list
        else if PlaylistRoute.IsValidPlaylistId(url) then Some(url)
        else if Truthy(list) then list
        else None
  }

  /** An address with a scheme is never a bare id: its colon is outside the id characters. */
  lemma SchemeIsNoBareId(url: string)
    requires HasScheme(url)
    ensures !PlaylistRoute.IsValidPlaylistId(url)
  {
    SchemeShape(url);
    if url[4] == ':' {
      PlaylistRoute.OutsideClassRejected(url, 4);
    } else {
      PlaylistRoute.OutsideClassRejected(url, 5);
    }
  }

  /** Whatever it returns is the address's own `list` parameter. */
  lemma ExtractIsListParameter(input: string, parse: UrlParser)
    requires ExtractPlaylistId(input, parse).Some?
    ensures input != "" && parse(Normalise(input)).Some?
    ensures ExtractPlaylistId(input, parse) == SearchParam(parse(Normalise(input)).value.query, "list")
  {
  }

  /** Putting the scheme in front before extracting changes nothing: the extractor does it too. */
  lemma ExtractNormalised(input: string, parse: UrlParser)
    requires input != ""
    ensures ExtractPlaylistId(Normalise(input), parse) == ExtractPlaylistId(input, parse)
  {
    NormaliseIdempotent(input);
  }

  // ---------------------------------------------------------------------
  // The iframe's address.

  const ProxiedSource: string := "/api/playlist?id="

  /**
   * `getIframeSource()`: nothing without an id, the endpoint with the ad
   * blocker on, YouTube without. There is an address exactly when there is
   * an id, and it carries the id; without the ad blocker it is the very
   * player address the endpoint's page uses.
   */
  function IframeSource(playlistId: Option<string>, useAdBlocker: bool): (s: string)
    ensures s == "" <==> !Truthy(playlistId)
    ensures Truthy(playlistId) ==> Contains(s, playlistId.value)
    ensures Truthy(playlistId) && useAdBlocker ==>
      StartsWith(s, ProxiedSource) && s[|ProxiedSource|..] == playlistId.value
    ensures Truthy(playlistId) && !useAdBlocker ==>
      StartsWith(s, PlaylistRoute.PlaylistSource)
      && s[|PlaylistRoute.PlaylistSource|..] == playlistId.value + PlaylistRoute.PlaylistOptions
    ensures Truthy(playlistId) && !useAdBlocker ==> Contains(PlaylistRoute.PlaylistEmbed(playlistId.value), s)
  {
    if !Truthy(playlistId) then ""
    else if useAdBlocker then
      OccursAtEnd(ProxiedSource, playlistId.value);
      ProxiedSource + playlistId.value
    else
      OccursInMiddle(PlaylistRoute.PlaylistSource, playlistId.value, PlaylistRoute.PlaylistOptions);
      PlaylistRoute.PlaylistSource + playlistId.value + PlaylistRoute.PlaylistOptions
  }

  // ---------------------------------------------------------------------
  // The state and its transitions.

  /** The fields of the page, as one value. */
  datatype View = View(playlistUrl: string, playlistId: Option<string>, isLoading: bool, error: string,
                       isFullscreen: bool, useAdBlocker: bool, showEscHint: bool)

  /** The state on first render: the ad blocker is on. */
  const Initial: View := View("", None, false, "", false, true, false)

  const EmptyUrlError: string := "Please enter a YouTube playlist URL"
  const NoListError: string := "Invalid YouTube playlist URL. Please ensure it contains a 'list=' parameter."

  /**
   * `handleSubmit`. An empty submit only sets the error. Otherwise the page
   * loads the id taken out of the address, or, when there is none, stops
   * loading, sets the error and keeps the id it had.
   */
  function Submit(v: View, parse: UrlParser): (w: View)
    ensures v.playlistUrl == "" ==> w == v.(error := EmptyUrlError)
    ensures v.playlistUrl != "" ==>
      var id := ExtractPlaylistId(v.playlistUrl, parse);
      if Truthy(id) then w.playlistId == id && w.isLoading && w.error == ""
                          && w.isFullscreen == v.isFullscreen && w.useAdBlocker == v.useAdBlocker
                          && w.playlistUrl == v.playlistUrl && w.showEscHint == v.showEscHint
      else w == v.(isLoading := false, error := NoListError)
  {
    if v.playlistUrl == "" then v.(error := EmptyUrlError)
    else
      ExtractNormalised(v.playlistUrl, parse);
      var id := ExtractPlaylistId(Normalise(v.playlistUrl), parse);
      if Truthy(id) then v.(isLoading := true, error := "", playlistId := id)
      else v.(isLoading := false, error := NoListError)
  }

  /** `toggleFullscreen`; the timer that later hides the hint is not part of the transition. */
  function ToggleFullscreen(v: View): View {
    var full := !v.isFullscreen;
    if full then v.(isFullscreen := true, showEscHint := true) else v.(isFullscreen := false)
  }

  /**
   * The `keydown` listener. Escape leaves fullscreen and changes nothing
   * else; every other key, and Escape outside fullscreen, changes nothing.
   */
  function KeyDown(v: View, key: string): (r: View)
    ensures key == "Escape" && v.isFullscreen ==> r == v.(isFullscreen := false)
    ensures key != "Escape" || !v.isFullscreen ==> r == v
    ensures key == "Escape" ==> !r.isFullscreen
    ensures key == "Escape" && v.isFullscreen ==> r == ToggleFullscreen(v)
  {
    if key == "Escape" && v.isFullscreen then v.(isFullscreen := false) else v
  }

  /**
   * The ad blocker switch: flip it and reload, the playlist kept; with a
   * playlist shown, the iframe moves between the endpoint and YouTube.
   */
  function ToggleAdBlocker(v: View): (r: View)
    ensures r.useAdBlocker == !v.useAdBlocker && r.isLoading
    ensures r.(useAdBlocker := v.useAdBlocker, isLoading := v.isLoading) == v
    ensures Truthy(v.playlistId) ==> IframeSource(r.playlistId, r.useAdBlocker) != IframeSource(v.playlistId, v.useAdBlocker)
  {
    assert Truthy(v.playlistId) ==> IframeSource(v.playlistId, true) != IframeSource(v.playlistId, false) by {
      if Truthy(v.playlistId) {
        EndpointShorter(v.playlistId.value);
      }
    }
    v.(useAdBlocker := !v.useAdBlocker, isLoading := true)
  }

  /** The endpoint's address of a playlist is shorter than YouTube's. */
  lemma EndpointShorter(id: string)
    ensures |ProxiedSource + id| < |PlaylistRoute.PlaylistSource + id + PlaylistRoute.PlaylistOptions|
  {
  }

  /** The iframe's `load` event. */
  function IframeLoaded(v: View): View {
    v.(isLoading := false)
  }

  // ---------------------------------------------------------------------
  // Properties of the transitions.

  /** After a submit the page shows a playlist exactly when it showed one before or found one now. */
  lemma SubmitShowsPlaylist(v: View, parse: UrlParser)
    requires v.playlistUrl != ""
    ensures var id := ExtractPlaylistId(v.playlistUrl, parse);
      (IframeSource(Submit(v, parse).playlistId, v.useAdBlocker) != "")
        <==> Truthy(id) || Truthy(v.playlistId)
  {
    ExtractNormalised(v.playlistUrl, parse);
  }

  /** Entering fullscreen shows the hint; leaving it keeps the hint as it was. */
  lemma FullscreenHint(v: View)
    ensures ToggleFullscreen(v).isFullscreen == !v.isFullscreen
    ensures !v.isFullscreen ==> ToggleFullscreen(v).showEscHint
    ensures !v.isFullscreen ==> ToggleFullscreen(v) == v.(isFullscreen := true, showEscHint := true)
    ensures v.isFullscreen ==> ToggleFullscreen(v) == v.(isFullscreen := false)
  {
  }

  /**
   * With the ad blocker on, the iframe asks the endpoint for the id; for a
   * valid id the endpoint answers a page that plays the very address the
   * iframe uses with the ad blocker off.
   */
  lemma EndpointPlaysDirectSource(id: string)
    requires PlaylistRoute.IsValidPlaylistId(id)
    ensures IframeSource(Some(id), true) == ProxiedSource + id
    ensures var r := PlaylistRoute.Get([("id", id)]);
      r.status == 200 && r.body.Content? && Contains(r.body.data, IframeSource(Some(id), false))
  {
    PlaylistRoute.ValidIdEmbeds([("id", id)]);
  }

  /** Switching the ad blocker twice restores the switch and the iframe's address. */
  lemma AdBlockerSwitch(v: View)
    ensures ToggleAdBlocker(ToggleAdBlocker(v)).useAdBlocker == v.useAdBlocker
    ensures var w := ToggleAdBlocker(ToggleAdBlocker(v));
      IframeSource(w.playlistId, w.useAdBlocker) == IframeSource(v.playlistId, v.useAdBlocker)
  {
  }

  // ---------------------------------------------------------------------
  // The page.

  class PlaylistPage {
    var playlistUrl: string
    var playlistId: Option<string>
    var isLoading: bool
    var error: string
    var isFullscreen: bool
    var useAdBlocker: bool
    var showEscHint: bool

    function State(): View
      reads this
    {
      View(playlistUrl, playlistId, isLoading, error, isFullscreen, useAdBlocker, showEscHint)
    }

    constructor ()
      ensures State() == Initial
    {
      playlistUrl, playlistId, isLoading, error := "", None, false, "";
      isFullscreen, useAdBlocker, showEscHint := false, true, false;
    }

    /** Typing in the address box. */
    method SetPlaylistUrl(u: string)
      modifies this
      ensures State() == old(State()).(playlistUrl := u)
    {
      playlistUrl := u;
    }

    method HandleSubmit(parse: UrlParser)
      modifies this
      ensures State() == Submit(old(State()), parse)
    {
      if playlistUrl == "" {
        error := EmptyUrlError;
        return;
      }
      var formattedUrl := playlistUrl;
      if !HasScheme(playlistUrl) {
        formattedUrl := "https://" + playlistUrl;
      }
      isLoading := true;
      error := "";
      var id := ExtractPlaylistId(formattedUrl, parse);
      if Truthy(id) {
        playlistId := id;
      } else {
        error := NoListError;
        isLoading := false;
      }
    }

    method HandleIframeLoad()
      modifies this
      ensures State() == IframeLoaded(old(State()))
    {
      isLoading := false;
    }

    method ToggleFullscreenMode()
      modifies this
      ensures State() == ToggleFullscreen(old(State()))
    {
      var newFullscreenState := !isFullscreen;
      isFullscreen := newFullscreenState;
      if newFullscreenState {
        showEscHint := true;
      }
    }

    method HandleKeyDown(key: string)
      modifies this
      ensures State() == KeyDown(old(State()), key)
    {
      if key == "Escape" && isFullscreen {
        isFullscreen := false;
      }
    }

    method ToggleAdBlockerMode()
      modifies this
      ensures State() == ToggleAdBlocker(old(State()))
    {
      useAdBlocker := !useAdBlocker;
      isLoading := true;
    }

  }
}
