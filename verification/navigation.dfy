/**
 * The navigation policy of the popover's web view (its `decide-policy`
 * handler): documents it loads itself live under the internal "foliate:"
 * scheme; any other navigation is vetoed and handed to the system's URI
 * launcher instead.
 */
module Navigation {
  import opened Wrappers
  import WikiLinks

  /** WebKit's policy decision types. */
  datatype DecisionType = NavigationAction | NewWindowAction | Response

  /**
   * What the handler did: whether it returned true (decision handled), whether
   * it called `decision.ignore()`, and the URIs it passed to the launcher.
   */
  datatype PolicyOutcome = PolicyOutcome(handled: bool, ignored: bool, launched: seq<string>)

  const InternalScheme := "foliate:"

  /** The URI every generated document is loaded under. */
  const DocumentUri := "foliate:selection-tool"

  predicate IsNavigation(t: DecisionType) { t == NavigationAction || t == NewWindowAction }

  function DecidePolicy(t: DecisionType, uri: string): (r: PolicyOutcome)
    ensures r.ignored <==> IsNavigation(t) && !WikiLinks.StartsWith(uri, InternalScheme)
    ensures r.handled == r.ignored
    ensures r.launched == if r.ignored then [uri] else []
  {
    if IsNavigation(t) && !WikiLinks.StartsWith(uri, InternalScheme) then
      PolicyOutcome(true, true, [uri])
    else
      PolicyOutcome(false, false, [])
  }

  /** Loading a generated document is never vetoed or launched, whatever the decision type. */
  lemma DocumentLoadAllowed(t: DecisionType)
    ensures DecidePolicy(t, DocumentUri) == PolicyOutcome(false, false, [])
  {
    assert DocumentUri[..|InternalScheme|] == InternalScheme;
  }

  /** The dictionary document's base: `https://en.wiktionary.org/wiki/Wiktionary:Main_Page`, whose origin resolves "/…" links. */
  const DictionaryOrigin := "https://en.wiktionary.org"

  /** A path-absolute reference: "/…" but not "//…" (section 4.2 of RFC 3986). */
  predicate IsPathAbsolute(path: string) { |path| > 0 && path[0] == '/' && (|path| == 1 || path[1] != '/') }

  /** Resolution of a path-absolute reference against the dictionary's base (section 5.2.2 of RFC 3986). */
  function ResolveInDictionary(path: string): (uri: string)
    requires IsPathAbsolute(path)
    ensures WikiLinks.StartsWith(uri, DictionaryOrigin + "/")
  {
    assert (DictionaryOrigin + path)[..|DictionaryOrigin| + 1] == DictionaryOrigin + [path[0]];
    DictionaryOrigin + path
  }

  /**
   * A relative link in the dictionary document that is followed (a namespace
   * link the click handler leaves alone, the footer link) resolves to an
   * https URI, so following it opens the system browser exactly once and the
   * popover stays where it is.
   */
  lemma DictionaryLinkOpensExternally(t: DecisionType, path: string)
    requires IsNavigation(t) && IsPathAbsolute(path)
    ensures var uri := ResolveInDictionary(path);
      DecidePolicy(t, uri) == PolicyOutcome(true, true, [uri])
  {
    var uri := ResolveInDictionary(path);
    assert uri[0] == 'h';
    WikiLinks.NotPrefixWhereDiffers(uri, InternalScheme, 0);
  }

  /** A /wiki/ link is a path-absolute reference. */
  lemma WikiLinkIsPathAbsolute(href: string)
    requires WikiLinks.StartsWith(href, WikiLinks.WikiPrefix)
    ensures IsPathAbsolute(href)
  {
    assert href[..6][0] == '/' && href[..6][1] == 'w';
  }

  /** End to end: a click on a link into an excluded namespace is not intercepted, and its navigation is launched externally. */
  lemma NamespaceLinkLaunched(href: string, i: nat)
    requires WikiLinks.StartsWith(href, WikiLinks.WikiPrefix) && i < |WikiLinks.Namespaces|
    requires var page := href[|WikiLinks.WikiPrefix|..];
      WikiLinks.StartsWith(page, WikiLinks.Namespaces[i] + ":") || WikiLinks.StartsWith(page, WikiLinks.Namespaces[i] + "_talk:")
    ensures WikiLinks.ClassifyClick(true, Some(href)) == WikiLinks.FollowLink
    ensures IsPathAbsolute(href) && var uri := ResolveInDictionary(href);
      DecidePolicy(NavigationAction, uri).launched == [uri]
  {
    WikiLinks.NamespaceLinkFollowed(href, i);
    WikiLinkIsPathAbsolute(href);
    DictionaryLinkOpensExternally(NavigationAction, href);
  }
}
