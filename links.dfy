/**
 * Link discovery of WebCrawler.CrawlAsync: the href filter lambda with the
 * Distinct that follows it, IsWebLink, and the resolution of one accepted
 * href against the page it was found on.
 */
module Links {
  import opened Wrappers
  import opened Text
  import opened Seqs
  import opened Config

  /** An absolute System.Uri: its Scheme, its GetLeftPart(UriPartial.Authority) and its ToString(). */
  datatype Uri = Uri(scheme: string, leftPart: string, text: string)

  /** What new Uri(s, UriKind.RelativeOrAbsolute) yields: an absolute URI or a relative reference. */
  datatype UriRef = Absolute(uri: Uri) | Relative

  /**
   * System.Uri, a collaborator. Each member yields None exactly when the
   * corresponding constructor throws UriFormatException.
   */
  datatype UriParser = UriParser(
    parseAbsolute: string -> Option<Uri>,      // new Uri(s)
    parseReference: string -> Option<UriRef>,  // new Uri(s, UriKind.RelativeOrAbsolute)
    combine: (Uri, string) -> Option<Uri>)     // new Uri(baseUri, relativeUri)

  /** WebCrawler.IsWebLink: absolute, with scheme http or https. */
  predicate IsWebLink(r: UriRef) {
    r.Absolute? && (r.uri.scheme == "http" || r.uri.scheme == "https")
  }

  /** What the Where lambda does with one href; Throws is the constructor call whose result is unused. */
  datatype HrefVerdict = Rejected | Accepted | Throws

  /** Some entry of the skip list occurs in the href, ignoring case. */
  predicate HitsSkipList(href: string, skips: seq<string>) {
    exists skip :: skip in skips && ContainsIgnoreCase(href, skip)
  }

  /** The href filter lambda, checks in the source's order. */
  function HrefCheck(cfg: SyncConfig, isMatch: (string, string) -> bool, uris: UriParser, href: string): HrefVerdict {
    if IsBlank(href) then Rejected
    else if href[0] == '#' then Rejected
    else if !isMatch(cfg.urlFilterRegex, href) then Rejected
    else if PrefixUnset(cfg.allowedUrlPrefix) then Accepted
    else if uris.parseAbsolute(href).None? then Throws
    else if HitsSkipList(href, cfg.skipHrefSubstrings) then Rejected
    else Accepted
  }

  /**
   * The acceptance rule stated on its own: non-blank, not a fragment, the
   * filter regex matches, and, when a prefix is configured, no skip entry
   * occurs in any window of the href up to case.
   */
  ghost predicate AcceptableHref(cfg: SyncConfig, isMatch: (string, string) -> bool, href: string) {
    && Trim(href) != ""
    && !(|href| > 0 && href[0] == '#')
    && isMatch(cfg.urlFilterRegex, href)
    && (!PrefixUnset(cfg.allowedUrlPrefix) ==>
          forall i :: 0 <= i < |cfg.skipHrefSubstrings| ==> !OccursIgnoreCase(href, cfg.skipHrefSubstrings[i]))
  }

  /** The lambda accepts an href exactly when the rule above holds and the unused construction does not throw. */
  lemma HrefCheckAccepts(cfg: SyncConfig, isMatch: (string, string) -> bool, uris: UriParser, href: string)
    ensures HrefCheck(cfg, isMatch, uris, href) == Accepted <==>
      AcceptableHref(cfg, isMatch, href) && (PrefixUnset(cfg.allowedUrlPrefix) || uris.parseAbsolute(href).Some?)
    ensures HrefCheck(cfg, isMatch, uris, href) == Throws <==>
      && !IsBlank(href) && href[0] != '#' && isMatch(cfg.urlFilterRegex, href)
      && !PrefixUnset(cfg.allowedUrlPrefix) && uris.parseAbsolute(href).None?
  {
    forall i | 0 <= i < |cfg.skipHrefSubstrings| {
      ContainsIgnoreCaseIff(href, cfg.skipHrefSubstrings[i]);
    }
    if HitsSkipList(href, cfg.skipHrefSubstrings) {
      var skip :| skip in cfg.skipHrefSubstrings && ContainsIgnoreCase(href, skip);
      var i :| 0 <= i < |cfg.skipHrefSubstrings| && cfg.skipHrefSubstrings[i] == skip;
    }
  }

  /**
   * The Where lambda followed by Distinct, as enumerated by new List(links):
   * it throws when the lambda throws on any href; otherwise it lists every
   * accepted href exactly once, in the order of first occurrence.
   */
  function FilterHrefs(cfg: SyncConfig, isMatch: (string, string) -> bool, uris: UriParser, hrefs: seq<string>)
    : (r: Option<seq<string>>)
    ensures r.None? <==> exists i :: 0 <= i < |hrefs| && HrefCheck(cfg, isMatch, uris, hrefs[i]) == Throws
    ensures r.Some? ==> NoDuplicates(r.value)
    ensures r.Some? ==> forall i :: 0 <= i < |r.value| ==> r.value[i] in hrefs && HrefCheck(cfg, isMatch, uris, r.value[i]) == Accepted
    ensures r.Some? ==> forall i :: 0 <= i < |hrefs| && HrefCheck(cfg, isMatch, uris, hrefs[i]) == Accepted ==> hrefs[i] in r.value
    ensures r.Some? ==> FirstOccurrenceOrder(hrefs, r.value)
  {
    if exists i :: 0 <= i < |hrefs| && HrefCheck(cfg, isMatch, uris, hrefs[i]) == Throws then None
    else
      var keep := (h: string) => HrefCheck(cfg, isMatch, uris, h) == Accepted;
      var accepted := Where(hrefs, keep);
      DistinctWhereOrder(hrefs, keep);
      Some(Distinct(accepted))
  }

  /** The href denotes u: as an absolute URI, or resolved against the page's scheme and authority. */
  predicate ResolvesTo(uris: UriParser, pageLeftPart: string, href: string, u: Uri) {
    match uris.parseReference(href)
    case None => false
    case Some(Absolute(v)) => v == u
    case Some(Relative) =>
      uris.parseAbsolute(pageLeftPart).Some? && uris.combine(uris.parseAbsolute(pageLeftPart).value, href) == Some(u)
  }

  /** What one pass of the foreach loop does with an accepted href. */
  datatype LinkOutcome = LinkThrows | LinkSkipped | LinkTarget(uri: Uri)

  /**
   * One accepted href: the reading outside the try block throws the crawl
   * away; a failed resolution inside it skips the href; a web link is
   * resolved against the current page's origin (not the seed) and enqueued.
   */
  function LinkStep(uris: UriParser, pageLeftPart: string, href: string): (r: LinkOutcome)
    ensures r.LinkThrows? <==> uris.parseReference(href).None?
    ensures r.LinkTarget? ==> IsWebLink(Absolute(r.uri)) && ResolvesTo(uris, pageLeftPart, href, r.uri)
    ensures forall u :: ResolvesTo(uris, pageLeftPart, href, u) && IsWebLink(Absolute(u)) ==> r == LinkTarget(u)
  {
    match uris.parseReference(href)
    case None => LinkThrows
    case Some(link) =>
      var absolute :=
        if link.Absolute? then Some(link.uri)
        else match uris.parseAbsolute(pageLeftPart)
          case None => None
          case Some(pageBase) => uris.combine(pageBase, href);
      if absolute.Some? && IsWebLink(Absolute(absolute.value)) then LinkTarget(absolute.value) else LinkSkipped
  }

  /** Every URI the parser can hand to the frontier lies in U. */
  ghost predicate Closed(uris: UriParser, U: set<string>) {
    && (forall h :: uris.parseReference(h).Some? && uris.parseReference(h).value.Absolute? ==>
          uris.parseReference(h).value.uri.text in U)
    && (forall b, h :: uris.combine(b, h).Some? ==> uris.combine(b, h).value.text in U)
  }

  lemma ResolvedInUniverse(uris: UriParser, U: set<string>, pageLeftPart: string, href: string, u: Uri)
    requires Closed(uris, U) && ResolvesTo(uris, pageLeftPart, href, u)
    ensures u.text in U
  {
  }
}
