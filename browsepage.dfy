/**
 * The browse page, `/infinite`: an address box, an iframe that shows the
 * address either directly or through the proxy, and the controls that
 * switch between the two.
 *
 * The page's state is the class `InfinitePage`; each event handler is a
 * method that reads the state as it was when the event fired and updates
 * the fields one step at a time. Each method is specified by a function on
 * `View`, a snapshot of the fields, and the properties of the page are
 * lemmas about those functions.
 */
module BrowsePage {
  import opened Wrappers
  import opened Text
  import opened Percent
  import opened Scan
  import opened Web

  // ---------------------------------------------------------------------
  // Classification of an address (substrings of its lower case).

  const VideoSites: seq<string> := [
    "youtube.com", "youtu.be", "vimeo.com", "dailymotion.com",
    "twitch.tv", "netflix.com", "hulu.com", "disneyplus.com",
    "hbomax.com", "amazon.com/video", "primevideo.com"
  ]

  const RestrictedSites: seq<string> := [
    "youtube.com", "youtu.be", "facebook.com", "twitter.com",
    "instagram.com", "tiktok.com", "linkedin.com", "reddit.com",
    "netflix.com", "hulu.com", "disneyplus.com", "spotify.com",
    "discord.com", "teams.microsoft.com", "zoom.us"
  ]

  /**
   * `isVideoSite(url)`: the lower-cased address contains one of the listed
   * hosts; an address the proxy treats as YouTube always does.
   */
  function IsVideoSite(url: string): (r: bool)
    ensures r <==> exists k :: 0 <= k < |VideoSites| && Contains(LowerCase(url), VideoSites[k])
    ensures Contains(url, "youtube.com") || Contains(url, "youtu.be") ==> r
  {
    YouTubeHostsLowered(url);
    ContainsAny(LowerCase(url), VideoSites)
  }

  /**
   * `mightHaveRestrictions(url)`: the lower-cased address contains one of
   * the listed hosts; an address the proxy treats as YouTube always does.
   */
  function MightHaveRestrictions(url: string): (r: bool)
    ensures r <==> exists k :: 0 <= k < |RestrictedSites| && Contains(LowerCase(url), RestrictedSites[k])
    ensures Contains(url, "youtube.com") || Contains(url, "youtu.be") ==> r
  {
    YouTubeHostsLowered(url);
    ContainsAny(LowerCase(url), RestrictedSites)
  }

  /** YouTube's hosts survive lower-casing; they head both lists. */
  lemma YouTubeHostsLowered(url: string)
    ensures Contains(url, "youtube.com") ==>
      Contains(LowerCase(url), VideoSites[0]) && Contains(LowerCase(url), RestrictedSites[0])
    ensures Contains(url, "youtu.be") ==>
      Contains(LowerCase(url), VideoSites[1]) && Contains(LowerCase(url), RestrictedSites[1])
  {
    if Contains(url, "youtube.com") {
      ContainsLowerCase(url, "youtube.com");
    }
    if Contains(url, "youtu.be") {
      ContainsLowerCase(url, "youtu.be");
    }
  }

  /** Neither classifier can tell an address from its lower case. */
  lemma ClassifiersIgnoreCase(url: string)
    ensures IsVideoSite(LowerCase(url)) == IsVideoSite(url)
    ensures MightHaveRestrictions(LowerCase(url)) == MightHaveRestrictions(url)
  {
    LowerCaseTwice(url);
  }

  // ---------------------------------------------------------------------
  // The proxied form of an address.

  const ProxyPrefix: Literal := "/api/infinite?url="
  const ApiPath: string := "/api/infinite"

  /**
   * The proxy's address for `url`: it starts with the prefix, and the
   * address behind it is the one it was made from.
   */
  function Wrap(url: string): (w: string)
    ensures StartsWith(w, ProxyPrefix) && Original(w) == Some(url)
  {
    var w := ProxyPrefix + EncodeURIComponent(url);
    assert w[..|ProxyPrefix|] == ProxyPrefix;
    assert w[|ProxyPrefix|..] == EncodeURIComponent(url);
    DecodeEncode(url);
    w
  }

  /**
   * The address behind `current`: for a proxied address, the prefix is
   * removed (`replace` of its first occurrence) and the rest decoded;
   * `None` stands for the `URIError` that decoding throws. Any other
   * address is its own original.
   */
  function Original(current: string): (r: Option<string>)
    ensures StartsWith(current, ProxyPrefix) ==> r == DecodeURIComponent(current[|ProxyPrefix|..])
    ensures !StartsWith(current, ProxyPrefix) ==> r == Some(current)
  {
    if StartsWith(current, ProxyPrefix) then
      StripPrefix(current);
      DecodeURIComponent(ReplaceFirst(current, Exact(ProxyPrefix), ""))
    else Some(current)
  }

  /** Removing the first occurrence of the prefix from an address that starts with it removes the front. */
  lemma StripPrefix(current: string)
    requires StartsWith(current, ProxyPrefix)
    ensures ReplaceFirst(current, Exact(ProxyPrefix), "") == current[|ProxyPrefix|..]
  {
    assert OccursAt(current, ProxyPrefix, 0);
    assert MatchAt(Exact(ProxyPrefix), current, 0) == Some(|ProxyPrefix|);
    ReplaceFirstAt(current, Exact(ProxyPrefix), "", 0, |ProxyPrefix|);
  }

  /** An address with a scheme is not proxied: it is its own original and is not under the proxy's path. */
  lemma OriginalOfDirect(url: string)
    requires HasScheme(url)
    ensures Original(url) == Some(url)
    ensures !StartsWith(url, ApiPath) && !StartsWith(url, ProxyPrefix) && url != ""
    ensures forall o :: url != Wrap(o)
  {
    SchemeShape(url);
    forall o ensures url != Wrap(o) {
      assert Wrap(o)[0] == '/';
    }
  }

  // ---------------------------------------------------------------------
  // The state and its transitions.

  /** The fields of the page, as one value. */
  datatype View = View(url: string, currentUrl: string, isLoading: bool, error: string,
                       useApiProxy: bool, isFullscreen: bool, isVideoService: bool)

  /** The state on first render: the proxy is on. */
  const Initial: View := View("", "", false, "", true, false, false)

  const EmptyUrlError: string := "Please enter a URL"
  const RetryMessage: string := "Direct access failed. Retrying with API proxy..."
  const LoadFailure: string :=
    "Failed to load the website. This could be due to the site's security settings or content restrictions."

  /**
   * `handleSubmit`. An empty submit only sets the error. Any other submit
   * starts loading the normalised address, proxied exactly when the flag
   * was on before the submit, and turns fullscreen on for a video site.
   * The wrap decision reads the proxy flag as it was when the form was
   * submitted; switching the flag on for a restricted site takes effect
   * only from the next event.
   */
  function Submit(v: View): (w: View)
    ensures v.url == "" ==> w == v.(error := EmptyUrlError)
    ensures v.url != "" ==>
      w.isLoading && w.error == "" && w.url == v.url
      && Original(w.currentUrl) == Some(Normalise(v.url))
      && (StartsWith(w.currentUrl, ProxyPrefix) <==> v.useApiProxy)
      && w.isVideoService == IsVideoSite(Normalise(v.url))
      && w.isFullscreen == (v.isFullscreen || IsVideoSite(Normalise(v.url)))
      && w.useApiProxy == (v.useApiProxy || MightHaveRestrictions(Normalise(v.url)))
      && w.currentUrl == (if v.useApiProxy then Wrap(Normalise(v.url)) else Normalise(v.url))
  {
    if v.url == "" then v.(error := EmptyUrlError)
    else
      OriginalOfDirect(Normalise(v.url));
      var formatted := Normalise(v.url);
      var video := IsVideoSite(formatted);
      v.(isVideoService := video,
         useApiProxy := v.useApiProxy || MightHaveRestrictions(formatted),
         isLoading := true,
         error := "",
         currentUrl := if v.useApiProxy then Wrap(formatted) else formatted,
         isFullscreen := v.isFullscreen || video)
  }

  /**
   * `toggleProxyMode`: the flag flips and only the shown address and the
   * loading mark may change with it. With an address shown the page
   * reloads; when decoding throws, the flag and the loading mark are
   * already set and the address stays. Switching the proxy on shows the
   * proxied form of the address behind the current one; switching it off
   * shows that address itself.
   */
  function ToggleProxy(v: View): (r: View)
    ensures r.useApiProxy == !v.useApiProxy
    ensures r.url == v.url && r.error == v.error && r.isFullscreen == v.isFullscreen
      && r.isVideoService == v.isVideoService
    ensures v.currentUrl == "" ==> r.currentUrl == "" && r.isLoading == v.isLoading
    ensures v.currentUrl != "" ==> r.isLoading
    ensures v.currentUrl != "" && Original(v.currentUrl).None? ==> r.currentUrl == v.currentUrl
    ensures v.currentUrl != "" && !v.useApiProxy && Original(v.currentUrl).Some? ==>
      StartsWith(r.currentUrl, ProxyPrefix) && Original(r.currentUrl) == Original(v.currentUrl)
      && r.currentUrl == Wrap(Original(v.currentUrl).value)
    ensures v.currentUrl != "" && v.useApiProxy && Original(v.currentUrl).Some? ==>
      r.currentUrl == Original(v.currentUrl).value
  {
    var flag := !v.useApiProxy;
    if v.currentUrl == "" then v.(useApiProxy := flag)
    else match Original(v.currentUrl)
      case None => v.(useApiProxy := flag, isLoading := true)
      case Some(o) =>
        v.(useApiProxy := flag, isLoading := true, currentUrl := if !v.useApiProxy then Wrap(o) else o)
  }

  /**
   * `handleIframeError`: a direct address not already under the proxy's
   * path is retried once through the proxy, with a message; anything else
   * stops loading and gives up with a message, keeping the address and the
   * flag.
   */
  function IframeError(v: View): (r: View)
    ensures !v.useApiProxy && v.currentUrl != "" && !StartsWith(v.currentUrl, ApiPath) ==>
      r.useApiProxy && r.isLoading && r.error == RetryMessage && Original(r.currentUrl) == Some(v.currentUrl)
      && r.currentUrl == Wrap(v.currentUrl)
    ensures v.useApiProxy || v.currentUrl == "" || StartsWith(v.currentUrl, ApiPath) ==>
      !r.isLoading && r.error == LoadFailure && r.currentUrl == v.currentUrl && r.useApiProxy == v.useApiProxy
    ensures r.url == v.url && r.isFullscreen == v.isFullscreen && r.isVideoService == v.isVideoService
  {
    if !v.useApiProxy && v.currentUrl != "" && !StartsWith(v.currentUrl, ApiPath) then
      v.(error := RetryMessage, useApiProxy := true, isLoading := true, currentUrl := Wrap(v.currentUrl))
    else v.(isLoading := false, error := LoadFailure)
  }

  /** `toggleFullscreen`. */
  function ToggleFullscreen(v: View): View {
    v.(isFullscreen := !v.isFullscreen)
  }

  // ---------------------------------------------------------------------
  // Properties of the transitions.

  /** `c` is the proxy's address for some address with a scheme. */
  predicate Proxied(c: string) {
    Original(c).Some? && HasScheme(Original(c).value) && c == Wrap(Original(c).value)
  }

  /** The shown address agrees with the proxy flag: proxied when it is on, direct when it is off. */
  predicate Consistent(v: View) {
    v.currentUrl == "" || (if v.useApiProxy then Proxied(v.currentUrl) else HasScheme(v.currentUrl))
  }

  lemma ProxiedWrap(url: string)
    requires HasScheme(url)
    ensures Proxied(Wrap(url))
  {
  }

  /** A submit leaves the page consistent unless it switched the flag on for a restricted site. */
  lemma SubmitConsistent(v: View)
    requires Consistent(v)
    requires v.url != "" ==> v.useApiProxy || !MightHaveRestrictions(Normalise(v.url))
    ensures Consistent(Submit(v))
  {
    if v.url != "" && v.useApiProxy {
      ProxiedWrap(Normalise(v.url));
    }
  }

  /**
   * A restricted site submitted while the proxy is off is shown directly,
   * although the flag is now on: the page is left inconsistent.
   */
  lemma StaleSubmit(v: View)
    requires v.url != "" && !v.useApiProxy && MightHaveRestrictions(Normalise(v.url))
    ensures Submit(v).useApiProxy && Submit(v).currentUrl == Normalise(v.url)
    ensures !Consistent(Submit(v))
  {
    OriginalOfDirect(Normalise(v.url));
  }

  /** On a consistent page, the proxy switch flips the flag and moves the address to the other form. */
  lemma ToggleConsistent(v: View)
    requires Consistent(v)
    ensures ToggleProxy(v).useApiProxy == !v.useApiProxy
    ensures v.currentUrl != "" ==> Original(v.currentUrl).Some?
    ensures v.currentUrl != "" ==> Original(ToggleProxy(v).currentUrl) == Original(v.currentUrl)
    ensures Consistent(ToggleProxy(v))
  {
    var c := v.currentUrl;
    if c != "" {
      if v.useApiProxy {
        var o := Original(c).value;
        OriginalOfDirect(o);
      } else {
        OriginalOfDirect(c);
        ProxiedWrap(c);
      }
    }
  }

  /** On a consistent page, switching the proxy twice restores the flag and the address. */
  lemma ToggleTwiceRestores(v: View)
    requires Consistent(v)
    ensures ToggleProxy(ToggleProxy(v)).useApiProxy == v.useApiProxy
    ensures ToggleProxy(ToggleProxy(v)).currentUrl == v.currentUrl
  {
    ToggleConsistent(v);
    var c := v.currentUrl;
    if c != "" {
      if v.useApiProxy {
        OriginalOfDirect(Original(c).value);
      } else {
        OriginalOfDirect(c);
      }
    }
  }

  /**
   * After the stale submit, switching twice does not restore the page: the
   * first switch keeps the direct address, the second proxies it.
   */
  lemma StaleToggleTwice(v: View)
    requires v.url != "" && !v.useApiProxy && MightHaveRestrictions(Normalise(v.url))
    ensures ToggleProxy(ToggleProxy(Submit(v))).currentUrl == Wrap(Normalise(v.url))
    ensures ToggleProxy(ToggleProxy(Submit(v))).currentUrl != Submit(v).currentUrl
  {
    var n := Normalise(v.url);
    OriginalOfDirect(n);
  }

  /**
   * A failed load of a direct address retries it through the proxy; a
   * failed load of a proxied or empty address gives up with a message.
   */
  lemma IframeErrorOutcome(v: View)
    requires Consistent(v)
    ensures !v.useApiProxy && v.currentUrl != "" ==>
      IframeError(v) == v.(error := RetryMessage, useApiProxy := true, isLoading := true,
                           currentUrl := Wrap(v.currentUrl))
    ensures v.useApiProxy || v.currentUrl == "" ==>
      IframeError(v) == v.(isLoading := false, error := LoadFailure)
    ensures Consistent(IframeError(v))
  {
    if !v.useApiProxy && v.currentUrl != "" {
      OriginalOfDirect(v.currentUrl);
      ProxiedWrap(v.currentUrl);
    }
  }

  /** Fullscreen flips and nothing else changes; twice is no change. */
  lemma FullscreenTwice(v: View)
    ensures ToggleFullscreen(v).isFullscreen == !v.isFullscreen
    ensures ToggleFullscreen(v).(isFullscreen := v.isFullscreen) == v
    ensures ToggleFullscreen(ToggleFullscreen(v)) == v
    ensures Consistent(ToggleFullscreen(v)) == Consistent(v)
  {
  }

  // ---------------------------------------------------------------------
  // The page.

  class InfinitePage {
    var url: string
    var currentUrl: string
    var isLoading: bool
    var error: string
    var useApiProxy: bool
    var isFullscreen: bool
    var isVideoService: bool

    function State(): View
      reads this
    {
      View(url, currentUrl, isLoading, error, useApiProxy, isFullscreen, isVideoService)
    }

    constructor ()
      ensures State() == Initial && Consistent(State())
    {
      url, currentUrl, isLoading, error := "", "", false, "";
      useApiProxy, isFullscreen, isVideoService := true, false, false;
    }

    /** Typing in the address box. */
    method SetUrl(u: string)
      modifies this
      ensures State() == old(State()).(url := u)
    {
      url := u;
    }

    method HandleSubmit()
      modifies this
      ensures State() == Submit(old(State()))
    {
      if url == "" {
        error := EmptyUrlError;
        return;
      }
      var formattedUrl := url;
      if !HasScheme(url) {
        formattedUrl := "https://" + url;
      }
      var isVideo := IsVideoSite(formattedUrl);
      var proxied := useApiProxy;
      isVideoService := isVideo;
      if MightHaveRestrictions(formattedUrl) {
        useApiProxy := true;
      }
      isLoading := true;
      error := "";
      if proxied {
        formattedUrl := Wrap(formattedUrl);
      }
      currentUrl := formattedUrl;
      if isVideo && !isFullscreen {
        isFullscreen := true;
      }
    }

    /** `thrown` reports the `URIError` that ends the handler early. */
    method ToggleProxyMode() returns (thrown: bool)
      modifies this
      ensures State() == ToggleProxy(old(State()))
      ensures thrown <==> old(currentUrl) != "" && Original(old(currentUrl)).None?
    {
      var proxied := useApiProxy;
      useApiProxy := !proxied;
      thrown := false;
      if currentUrl != "" {
        isLoading := true;
        var originalUrl := currentUrl;
        if StartsWith(currentUrl, ProxyPrefix) {
          var decoded := DecodeURIComponent(ReplaceFirst(currentUrl, Exact(ProxyPrefix), ""));
          if decoded.None? {
            thrown := true;
            return;
          }
          originalUrl := decoded.value;
        }
        if !proxied {
          currentUrl := Wrap(originalUrl);
        } else {
          currentUrl := originalUrl;
        }
      }
    }

    method HandleIframeError()
      modifies this
      ensures State() == IframeError(old(State()))
    {
      isLoading := false;
      if !useApiProxy && currentUrl != "" && !StartsWith(currentUrl, ApiPath) {
        error := RetryMessage;
        useApiProxy := true;
        var originalUrl := currentUrl;
        isLoading := true;
        currentUrl := Wrap(originalUrl);
      } else {
        error := LoadFailure;
      }
    }

    method ToggleFullscreenMode()
      modifies this
      ensures State() == ToggleFullscreen(old(State()))
    {
      isFullscreen := !isFullscreen;
    }
  }
}
