/**
 * The crawl engine of WebCrawler: a FIFO frontier of (url, depth) entries
 * seeded with the starting URL at depth 0, a visited set, and the bag of
 * imported pages. One loop iteration is the function Step; the whole loop
 * is Run; the class WebCrawler runs the same loop imperatively and is
 * proved to end in the state Run describes.
 */
module Crawler {
  import opened Wrappers
  import opened Text
  import opened Seqs
  import opened Config
  import opened Links

  /** A frontier entry. */
  datatype Entry = Entry(url: string, depth: int)

  /** SyncItem without its RetrievedAt timestamp. */
  datatype SyncItem = SyncItem(url: string, title: string, content: string)

  /**
   * What HtmlAgilityPack yields for a document: the InnerText of //title,
   * the InnerText of the first of //main, //article, //body that exists,
   * and the href values of //a[@href] in document order.
   */
  datatype ParsedPage = ParsedPage(title: Option<string>, content: Option<string>, hrefs: seq<string>)

  /** The collaborators of one crawl. */
  datatype Env = Env(
    robotsAllows: string -> bool,        // IsPathAllowed(url, "WebSiteSyncTool") of the seed host's policy
    fetch: string -> Option<string>,     // GetPageContentAsync; None when it throws
    parse: string -> ParsedPage,         // HtmlDocument.LoadHtml and the XPath selections
    isMatch: (string, string) -> bool,   // new Regex(pattern, RegexOptions.IgnoreCase).IsMatch(input)
    deEntitize: string -> string,        // HtmlEntity.DeEntitize
    uris: UriParser)

  /** The exceptions that escape CrawlAsync; each carries the URL of the page being processed. */
  datatype CrawlError =
    | InvalidUri(url: string)     // new Uri(url) on the seed or on a dequeued URL
    | FetchFailed(url: string)    // the renderer threw
    | RelativeHref(url: string)   // new Uri(href) inside the href filter
    | MalformedHref(url: string)  // new Uri(href, UriKind.RelativeOrAbsolute) before the try block

  /**
   * The loop's state: _queue, _visited, _imported, and the list of the URLs
   * that passed the visited/depth gate, in order (the URLs handed to the
   * robots check and the renderer).
   */
  datatype CrawlState = CrawlState(queue: seq<Entry>, visited: set<string>, imported: multiset<SyncItem>, processed: seq<string>)

  /** The constructor's state: only the seed, at depth 0. */
  function Initial(cfg: SyncConfig): CrawlState {
    CrawlState([Entry(cfg.startingUrl, 0)], {}, multiset{}, [])
  }

  const NoTitle := "[No Title]"

  /** The stored title: trimmed, not normalised. */
  function TitleOf(title: Option<string>): string {
    match title
    case Some(t) => Trim(t)
    case None => NoTitle
  }

  /** The text the required-text check searches: title and content, normalised together. */
  function AdmissionText(deEntitize: string -> string, title: string, plainText: string): string {
    NormalizeText(deEntitize, title + " " + plainText)
  }

  /** The required-text check: no terms, or some term occurs ignoring case. */
  predicate RequiredTextPresent(terms: seq<string>, text: string) {
    |terms| == 0 || exists t :: t in terms && ContainsIgnoreCase(text, t)
  }

  /** The required-text rule stated with windows instead of the scan. */
  ghost predicate MentionsRequiredTerm(terms: seq<string>, text: string) {
    |terms| == 0 || exists i :: 0 <= i < |terms| && OccursIgnoreCase(text, terms[i])
  }

  lemma RequiredTextPresentIff(terms: seq<string>, text: string)
    ensures RequiredTextPresent(terms, text) <==> MentionsRequiredTerm(terms, text)
  {
    forall i | 0 <= i < |terms| {
      ContainsIgnoreCaseIff(text, terms[i]);
    }
    if |terms| > 0 && RequiredTextPresent(terms, text) {
      var t :| t in terms && ContainsIgnoreCase(text, t);
      var i :| 0 <= i < |terms| && terms[i] == t;
    }
  }

  /** The dequeued entry passes the gate of line 52: not visited before and not too deep. */
  predicate Fresh(cfg: SyncConfig, s: CrawlState, item: Entry) {
    item.url !in s.visited && item.depth <= cfg.maxDepth
  }

  /** The record a page is imported as: the trimmed title and the normalised content. */
  function ItemOf(env: Env, url: string, page: ParsedPage): SyncItem
    requires page.content.Some?
  {
    SyncItem(url, TitleOf(page.title), NormalizeText(env.deEntitize, page.content.value))
  }

  /** How lines 55-96 end for a URL: an exception, a skip (continue), or a page that reaches the import decision. */
  datatype Admission = Aborted(error: CrawlError) | Dropped | Admitted(pageUri: Uri, page: ParsedPage, record: SyncItem)

  /**
   * The gates of lines 55-96 stated together: the URL reads as a URI,
   * robots allow it, the renderer answers, the page has a content node,
   * and its normalised title and text mention a required term.
   */
  predicate PassesGates(cfg: SyncConfig, env: Env, url: string) {
    && env.uris.parseAbsolute(url).Some?
    && env.robotsAllows(url)
    && env.fetch(url).Some?
    && var page := env.parse(env.fetch(url).value);
       && page.content.Some?
       && RequiredTextPresent(cfg.allowPagesWith,
            AdmissionText(env.deEntitize, TitleOf(page.title), NormalizeText(env.deEntitize, page.content.value)))
  }

  /**
   * Lines 55-96: read the URL as a URI, consult robots, fetch, parse, look
   * for a content node, check the required text. Only the URI reading and
   * the fetch can throw.
   */
  function Admit(cfg: SyncConfig, env: Env, url: string): (a: Admission)
    ensures a.Aborted? <==>
      env.uris.parseAbsolute(url).None? || (env.robotsAllows(url) && env.fetch(url).None?)
    ensures a.Aborted? ==> a.error == if env.uris.parseAbsolute(url).None? then InvalidUri(url) else FetchFailed(url)
    ensures a.Admitted? <==> PassesGates(cfg, env, url)
    ensures a.Admitted? ==>
      && env.uris.parseAbsolute(url) == Some(a.pageUri)
      && env.robotsAllows(url)
      && env.fetch(url).Some? && a.page == env.parse(env.fetch(url).value)
      && a.page.content.Some? && a.record == ItemOf(env, url, a.page)
      && RequiredTextPresent(cfg.allowPagesWith, AdmissionText(env.deEntitize, a.record.title, a.record.content))
  {
    match env.uris.parseAbsolute(url)
    case None => Aborted(InvalidUri(url))
    case Some(pageUri) =>
      if !env.robotsAllows(url) then Dropped
      else match env.fetch(url)
      case None => Aborted(FetchFailed(url))
      case Some(html) =>
        var page := env.parse(html);
        if page.content.None? then Dropped
        else
          var plainText := NormalizeText(env.deEntitize, page.content.value);
          var title := TitleOf(page.title);
          if !RequiredTextPresent(cfg.allowPagesWith, AdmissionText(env.deEntitize, title, plainText)) then Dropped
          else Admitted(pageUri, page, SyncItem(url, title, plainText))
  }

  /** The links of the page are explored: admitted, and the budget is not used up after the import decision. */
  ghost predicate Explores(cfg: SyncConfig, env: Env, url: string, count: int) {
    Admit(cfg, env, url).Admitted? && count + (if env.isMatch(cfg.urlFilterRegex, url) then 1 else 0) < cfg.maxPages
  }

  /** Some link of the list resolves to a web URI whose text is url. */
  ghost predicate Discovered(uris: UriParser, pageLeftPart: string, links: seq<string>, url: string) {
    exists i, u :: 0 <= i < |links| && ResolvesTo(uris, pageLeftPart, links[i], u) && IsWebLink(Absolute(u)) && u.text == url
  }

  lemma DiscoveredGrows(uris: UriParser, pageLeftPart: string, links: seq<string>, url: string)
    requires links != [] && Discovered(uris, pageLeftPart, links[..|links| - 1], url)
    ensures Discovered(uris, pageLeftPart, links, url)
  {
    var init := links[..|links| - 1];
    var i, u :| 0 <= i < |init| && ResolvesTo(uris, pageLeftPart, init[i], u) && IsWebLink(Absolute(u)) && u.text == url;
    assert links[i] == init[i];
  }

  /** Links found on a page: each accepted href that resolves to a web link becomes an entry at the given depth. */
  function Discover(uris: UriParser, pageLeftPart: string, links: seq<string>, depth: int): (r: Option<seq<Entry>>)
    ensures r.None? <==> exists i :: 0 <= i < |links| && LinkStep(uris, pageLeftPart, links[i]).LinkThrows?
    ensures r.Some? ==> |r.value| <= |links|
    ensures r.Some? ==> forall k :: 0 <= k < |r.value| ==> r.value[k].depth == depth
  {
    if links == [] then Some([])
    else
      var init := links[..|links| - 1];
      var last := links[|links| - 1];
      assert forall i :: 0 <= i < |init| ==> init[i] == links[i];
      match Discover(uris, pageLeftPart, init, depth)
      case None => None
      case Some(es) =>
        match LinkStep(uris, pageLeftPart, last)
        case LinkThrows => None
        case LinkSkipped => Some(es)
        case LinkTarget(u) =>
          var r := es + [Entry(u.text, depth)];
          assert forall k :: 0 <= k < |es| ==> r[k] == es[k];
          Some(r)
  }

  /** Discover spelt out for the last link of a non-empty list. */
  lemma DiscoverSnoc(uris: UriParser, pageLeftPart: string, init: seq<string>, last: string, depth: int)
    ensures var d := Discover(uris, pageLeftPart, init, depth);
      var step := LinkStep(uris, pageLeftPart, last);
      Discover(uris, pageLeftPart, init + [last], depth) ==
        if d.None? || step.LinkThrows? then None
        else if step.LinkSkipped? then d
        else Some(d.value + [Entry(step.uri.text, depth)])
  {
    var links := init + [last];
    assert links[..|links| - 1] == init;
    assert links[|links| - 1] == last;
  }

  /** One link on its own: it throws, is skipped, or yields exactly its target. */
  lemma DiscoverSingle(uris: UriParser, pageLeftPart: string, link: string, depth: int)
    ensures var r := Discover(uris, pageLeftPart, [link], depth);
      && (LinkStep(uris, pageLeftPart, link).LinkThrows? ==> r.None?)
      && (LinkStep(uris, pageLeftPart, link).LinkSkipped? ==> r == Some([]))
      && (LinkStep(uris, pageLeftPart, link).LinkTarget? ==> r == Some([Entry(LinkStep(uris, pageLeftPart, link).uri.text, depth)]))
  {
    DiscoverSnoc(uris, pageLeftPart, [], link, depth);
    assert [] + [link] == [link];
    var step := LinkStep(uris, pageLeftPart, link);
    if step.LinkTarget? {
      assert [] + [Entry(step.uri.text, depth)] == [Entry(step.uri.text, depth)];
    }
  }

  /** Every entry Discover yields comes from one of the links, resolved to a web URI. */
  lemma {:induction false} DiscoverSound(uris: UriParser, pageLeftPart: string, links: seq<string>, depth: int)
    ensures var r := Discover(uris, pageLeftPart, links, depth);
      r.Some? ==> forall k :: 0 <= k < |r.value| ==> Discovered(uris, pageLeftPart, links, r.value[k].url)
    decreases |links|
  {
    var r := Discover(uris, pageLeftPart, links, depth);
    if links != [] && r.Some? {
      var init := links[..|links| - 1];
      var last := links[|links| - 1];
      assert links == init + [last];
      DiscoverSnoc(uris, pageLeftPart, init, last, depth);
      DiscoverSound(uris, pageLeftPart, init, depth);
      var es := Discover(uris, pageLeftPart, init, depth).value;
      forall k | 0 <= k < |r.value| ensures Discovered(uris, pageLeftPart, links, r.value[k].url) {
        if k < |es| {
          assert r.value[k] == es[k];
          DiscoveredGrows(uris, pageLeftPart, links, es[k].url);
        } else {
          var u := LinkStep(uris, pageLeftPart, last).uri;
          assert r.value[k].url == u.text;
          assert ResolvesTo(uris, pageLeftPart, links[|links| - 1], u) && IsWebLink(Absolute(u));
        }
      }
    }
  }

  /** Every link that resolves to a web URI is enqueued, unless some link throws. */
  lemma {:induction false} DiscoverComplete(uris: UriParser, pageLeftPart: string, links: seq<string>, depth: int)
    ensures var r := Discover(uris, pageLeftPart, links, depth);
      r.Some? ==> forall i :: 0 <= i < |links| && LinkStep(uris, pageLeftPart, links[i]).LinkTarget? ==>
        Entry(LinkStep(uris, pageLeftPart, links[i]).uri.text, depth) in r.value
    decreases |links|
  {
    var r := Discover(uris, pageLeftPart, links, depth);
    if links != [] && r.Some? {
      var init := links[..|links| - 1];
      var last := links[|links| - 1];
      assert links == init + [last];
      DiscoverSnoc(uris, pageLeftPart, init, last, depth);
      DiscoverComplete(uris, pageLeftPart, init, depth);
      var es := Discover(uris, pageLeftPart, init, depth).value;
      assert forall x :: x in es ==> x in r.value;
      forall i | 0 <= i < |links| && LinkStep(uris, pageLeftPart, links[i]).LinkTarget?
        ensures Entry(LinkStep(uris, pageLeftPart, links[i]).uri.text, depth) in r.value
      {
        if i < |init| {
          assert links[i] == init[i];
        } else {
          assert links[i] == last;
          assert r.value[|r.value| - 1] == Entry(LinkStep(uris, pageLeftPart, last).uri.text, depth);
        }
      }
    }
  }

  /**
   * The foreach loop over a + b does the loop over a and then the loop over
   * b: the entries of a's links come first, in link order, and either half
   * throwing throws.
   */
  lemma {:induction false} DiscoverConcat(uris: UriParser, pageLeftPart: string, a: seq<string>, b: seq<string>, depth: int)
    ensures var da := Discover(uris, pageLeftPart, a, depth);
      var db := Discover(uris, pageLeftPart, b, depth);
      Discover(uris, pageLeftPart, a + b, depth) == if da.Some? && db.Some? then Some(da.value + db.value) else None
    decreases |b|
  {
    var da := Discover(uris, pageLeftPart, a, depth);
    if b == [] {
      assert a + b == a;
      assert da.Some? ==> da.value + [] == da.value;
    } else {
      var init := b[..|b| - 1];
      var last := b[|b| - 1];
      assert b == init + [last];
      assert a + b == (a + init) + [last];
      DiscoverConcat(uris, pageLeftPart, a, init, depth);
      DiscoverSnoc(uris, pageLeftPart, init, last, depth);
      DiscoverSnoc(uris, pageLeftPart, a + init, last, depth);
      var dinit := Discover(uris, pageLeftPart, init, depth);
      var step := LinkStep(uris, pageLeftPart, last);
      if da.None? || dinit.None? {
        assert Discover(uris, pageLeftPart, a + init, depth).None?;
      } else if step.LinkTarget? {
        var e := Entry(step.uri.text, depth);
        assert Discover(uris, pageLeftPart, a + init, depth) == Some(da.value + dinit.value);
        assert Discover(uris, pageLeftPart, b, depth) == Some(dinit.value + [e]);
        assert da.value + dinit.value + [e] == da.value + (dinit.value + [e]);
      }
    }
  }

  /** Lines 117-183: filter the hrefs, then resolve and collect the children at the next depth. */
  function Expand(cfg: SyncConfig, env: Env, url: string, depth: int, pageLeftPart: string, hrefs: seq<string>)
    : (r: Result<seq<Entry>, CrawlError>)
    ensures r.Ok? ==> forall k :: 0 <= k < |r.value| ==> r.value[k].depth == depth + 1
  {
    match FilterHrefs(cfg, env.isMatch, env.uris, hrefs)
    case None => Err(RelativeHref(url))
    case Some(links) =>
      match Discover(env.uris, pageLeftPart, links, depth + 1)
      case None => Err(MalformedHref(url))
      case Some(children) => Ok(children)
  }

  /** Expand spelt out for the two ways the filtered href list can come back. */
  lemma ExpandUnfold(cfg: SyncConfig, env: Env, url: string, depth: int, pageLeftPart: string, hrefs: seq<string>)
    ensures var links := FilterHrefs(cfg, env.isMatch, env.uris, hrefs);
      && (links.None? ==> Expand(cfg, env, url, depth, pageLeftPart, hrefs) == Err(RelativeHref(url)))
      && (links.Some? && Discover(env.uris, pageLeftPart, links.value, depth + 1).None? ==>
            Expand(cfg, env, url, depth, pageLeftPart, hrefs) == Err(MalformedHref(url)))
      && (links.Some? && Discover(env.uris, pageLeftPart, links.value, depth + 1).Some? ==>
            Expand(cfg, env, url, depth, pageLeftPart, hrefs) == Ok(Discover(env.uris, pageLeftPart, links.value, depth + 1).value))
  {
  }

  /** Every child lies in U when the parser is closed in U. */
  lemma ExpandInUniverse(cfg: SyncConfig, env: Env, U: set<string>, url: string, depth: int, pageLeftPart: string, hrefs: seq<string>)
    requires Closed(env.uris, U)
    ensures var r := Expand(cfg, env, url, depth, pageLeftPart, hrefs);
      r.Ok? ==> forall k :: 0 <= k < |r.value| ==> r.value[k].url in U
  {
    var r := Expand(cfg, env, url, depth, pageLeftPart, hrefs);
    if r.Ok? {
      var links := FilterHrefs(cfg, env.isMatch, env.uris, hrefs).value;
      ExpandUnfold(cfg, env, url, depth, pageLeftPart, hrefs);
      DiscoverSound(env.uris, pageLeftPart, links, depth + 1);
      forall k | 0 <= k < |r.value| ensures r.value[k].url in U {
        var i, u :| 0 <= i < |links| && ResolvesTo(env.uris, pageLeftPart, links[i], u)
          && IsWebLink(Absolute(u)) && u.text == r.value[k].url;
        ResolvedInUniverse(env.uris, U, pageLeftPart, links[i], u);
      }
    }
  }

  /** The import decision of lines 98-112: the record is added exactly when the URL matches the filter. */
  function ImportDecision(cfg: SyncConfig, env: Env, url: string, record: SyncItem, imported: multiset<SyncItem>): (r: multiset<SyncItem>)
    ensures imported <= r
    ensures |r| == |imported| + (if env.isMatch(cfg.urlFilterRegex, url) then 1 else 0)
    ensures r[record] == imported[record] + (if env.isMatch(cfg.urlFilterRegex, url) then 1 else 0)
  {
    if env.isMatch(cfg.urlFilterRegex, url) then imported + multiset{record} else imported
  }

  /**
   * Lines 55-183 for an entry that passed the gate (s already records the
   * dequeue and the visited mark). Errors are the exceptions of the body.
   */
  function Visit(cfg: SyncConfig, env: Env, item: Entry, s: CrawlState): (r: Result<CrawlState, CrawlError>)
    ensures r.Ok? ==> r.value.visited == s.visited && r.value.processed == s.processed
    ensures r.Ok? ==> |r.value.queue| >= |s.queue| && r.value.queue[..|s.queue|] == s.queue
    ensures r.Ok? ==> forall k :: |s.queue| <= k < |r.value.queue| ==> r.value.queue[k].depth == item.depth + 1
    ensures r.Ok? ==>
      r.value.imported == if Admit(cfg, env, item.url).Admitted? && env.isMatch(cfg.urlFilterRegex, item.url)
        then s.imported + multiset{Admit(cfg, env, item.url).record} else s.imported
    ensures r.Err? <==>
      || Admit(cfg, env, item.url).Aborted?
      || (Explores(cfg, env, item.url, |s.imported|) &&
          Expand(cfg, env, item.url, item.depth, Admit(cfg, env, item.url).pageUri.leftPart, Admit(cfg, env, item.url).page.hrefs).Err?)
  {
    match Admit(cfg, env, item.url)
    case Aborted(e) => Err(e)
    case Dropped => Ok(s)
    case Admitted(pageUri, page, record) =>
      var imported := ImportDecision(cfg, env, item.url, record, s.imported);
      if |imported| >= cfg.maxPages then Ok(s.(imported := imported))
      else
        match Expand(cfg, env, item.url, item.depth, pageUri.leftPart, page.hrefs)
        case Err(e) => Err(e)
        case Ok(children) =>
          assert (s.queue + children)[..|s.queue|] == s.queue;
          assert forall k :: |s.queue| <= k < |s.queue + children| ==> (s.queue + children)[k] == children[k - |s.queue|];
          Ok(s.(queue := s.queue + children, imported := imported))
  }

  /**
   * One loop iteration for the dequeued entry (s no longer holds it). The
   * URL is marked visited whatever happens; an entry already visited or
   * deeper than MaxDepth is dropped without consulting any collaborator;
   * otherwise it is logged as processed and visited.
   */
  function Step(cfg: SyncConfig, env: Env, item: Entry, s: CrawlState): (r: Result<CrawlState, CrawlError>)
    ensures !Fresh(cfg, s, item) ==> r == Ok(s.(visited := s.visited + {item.url}))
    ensures r.Err? ==> Fresh(cfg, s, item)
    ensures r.Ok? ==> r.value.visited == s.visited + {item.url}
    ensures r.Ok? ==> r.value.processed == if Fresh(cfg, s, item) then s.processed + [item.url] else s.processed
    ensures r.Ok? ==> |r.value.queue| >= |s.queue| && r.value.queue[..|s.queue|] == s.queue
    ensures r.Ok? ==> forall k :: |s.queue| <= k < |r.value.queue| ==> r.value.queue[k].depth == item.depth + 1
    ensures r.Ok? && r.value.imported != s.imported ==> Fresh(cfg, s, item)
  {
    var marked := s.(visited := s.visited + {item.url});
    if !Fresh(cfg, s, item) then Ok(marked)
    else Visit(cfg, env, item, marked.(processed := s.processed + [item.url]))
  }

  /** Every URL in the frontier lies in U. */
  ghost predicate QueueIn(queue: seq<Entry>, U: set<string>) {
    forall k :: 0 <= k < |queue| ==> queue[k].url in U
  }

  lemma RemoveOneShrinks(U: set<string>, V: set<string>, u: string)
    ensures u in U && u !in V ==> |U - (V + {u})| < |U - V|
    ensures u in V ==> V + {u} == V
  {
    assert U - (V + {u}) == (U - V) - {u};
  }

  /** A step keeps the frontier inside U. */
  lemma StepInUniverse(cfg: SyncConfig, env: Env, U: set<string>, item: Entry, s: CrawlState)
    requires Closed(env.uris, U) && QueueIn(s.queue, U)
    ensures Step(cfg, env, item, s).Ok? ==> QueueIn(Step(cfg, env, item, s).value.queue, U)
  {
    var r := Step(cfg, env, item, s);
    if r.Ok? && Fresh(cfg, s, item) {
      ExplorationRule(cfg, env, item, s);
      if Explores(cfg, env, item.url, |s.imported|) {
        var a := Admit(cfg, env, item.url);
        var e := Expand(cfg, env, item.url, item.depth, a.pageUri.leftPart, a.page.hrefs);
        ExpandInUniverse(cfg, env, U, item.url, item.depth, a.pageUri.leftPart, a.page.hrefs);
        assert forall k :: |s.queue| <= k < |s.queue + e.value| ==> (s.queue + e.value)[k] == e.value[k - |s.queue|];
      }
    }
  }

  /** Visit spelt out for an admitted page: the import decision, the budget check, then Expand. */
  lemma VisitUnfold(cfg: SyncConfig, env: Env, item: Entry, s: CrawlState)
    ensures var a := Admit(cfg, env, item.url);
      a.Admitted? ==>
        var imp := ImportDecision(cfg, env, item.url, a.record, s.imported);
        var e := Expand(cfg, env, item.url, item.depth, a.pageUri.leftPart, a.page.hrefs);
        Visit(cfg, env, item, s) ==
          if |imp| >= cfg.maxPages then Ok(s.(imported := imp))
          else if e.Err? then Err(e.error)
          else Ok(s.(queue := s.queue + e.value, imported := imp))
  {
  }

  /** Step spelt out: a fresh entry is marked visited and processed, then visited. */
  lemma StepUnfold(cfg: SyncConfig, env: Env, item: Entry, s: CrawlState)
    ensures Fresh(cfg, s, item) ==>
      Step(cfg, env, item, s) == Visit(cfg, env, item, s.(visited := s.visited + {item.url}, processed := s.processed + [item.url]))
  {
  }

  /** One turn of the loop when the budget is still open: Run continues from the state Step leaves. */
  lemma RunUnfold(cfg: SyncConfig, env: Env, U: set<string>, s: CrawlState)
    requires Closed(env.uris, U) && QueueIn(s.queue, U) && s.queue != [] && |s.imported| < cfg.maxPages
    ensures var item := s.queue[0];
      var rest := s.(queue := s.queue[1..]);
      && QueueIn(rest.queue, U)
      && (Step(cfg, env, item, rest).Ok? ==> QueueIn(Step(cfg, env, item, rest).value.queue, U))
      && (Step(cfg, env, item, rest).Err? ==> Run(cfg, env, U, s) == Err(Step(cfg, env, item, rest).error))
      && (Step(cfg, env, item, rest).Ok? ==> Run(cfg, env, U, s) == Run(cfg, env, U, Step(cfg, env, item, rest).value))
  {
    var rest := s.(queue := s.queue[1..]);
    assert forall k :: 0 <= k < |rest.queue| ==> rest.queue[k] == s.queue[k + 1];
    StepInUniverse(cfg, env, U, s.queue[0], rest);
  }

  /**
   * The loop of CrawlAsync: while an entry can be dequeued and fewer than
   * MaxPages pages are imported. The dequeue comes first, so the entry
   * taken when the budget is exhausted is dropped. The run ends with an
   * empty frontier or a spent budget.
   */
  function Run(cfg: SyncConfig, env: Env, U: set<string>, s: CrawlState): (r: Result<CrawlState, CrawlError>)
    requires Closed(env.uris, U) && QueueIn(s.queue, U)
    ensures r.Ok? ==> r.value.queue == [] || |r.value.imported| >= cfg.maxPages
    ensures r.Ok? ==> s.visited <= r.value.visited
    decreases |U - s.visited|, |s.queue|
  {
    if s.queue == [] then Ok(s)
    else if |s.imported| >= cfg.maxPages then Ok(s.(queue := s.queue[1..]))
    else
      var item := s.queue[0];
      var rest := s.(queue := s.queue[1..]);
      StepInUniverse(cfg, env, U, item, rest);
      match Step(cfg, env, item, rest)
      case Err(e) => Err(e)
      case Ok(t) =>
        RemoveOneShrinks(U, s.visited, item.url);
        Run(cfg, env, U, t)
  }

  /** CrawlAsync: read the seed as a URI (line 35), then run the loop and hand back the bag. */
  function CrawlOutcome(cfg: SyncConfig, env: Env, U: set<string>, s: CrawlState): Result<multiset<SyncItem>, CrawlError>
    requires Closed(env.uris, U) && QueueIn(s.queue, U)
  {
    if env.uris.parseAbsolute(cfg.startingUrl).None? then Err(InvalidUri(cfg.startingUrl))
    else match Run(cfg, env, U, s)
      case Err(e) => Err(e)
      case Ok(t) => Ok(t.imported)
  }

  /** The largest number of pages the crawl may import. */
  function Budget(cfg: SyncConfig): nat {
    if cfg.maxPages < 0 then 0 else cfg.maxPages
  }

  /** What an imported record satisfies: its page passed every gate, the URL matched, and it holds the page's texts. */
  ghost predicate WellImported(cfg: SyncConfig, env: Env, it: SyncItem) {
    && env.uris.parseAbsolute(it.url).Some?
    && env.robotsAllows(it.url)
    && env.fetch(it.url).Some?
    && var page := env.parse(env.fetch(it.url).value);
       && page.content.Some?
       && it.content == NormalizeText(env.deEntitize, page.content.value)
       && it.title == TitleOf(page.title)
       && MentionsRequiredTerm(cfg.allowPagesWith, NormalizeText(env.deEntitize, it.title + " " + it.content))
       && env.isMatch(cfg.urlFilterRegex, it.url)
  }

  /** Frontier depths are never negative. */
  ghost predicate DepthsOk(queue: seq<Entry>) {
    forall k :: 0 <= k < |queue| ==> queue[k].depth >= 0
  }

  /** The processed log has no repeats and lies in the visited set. */
  ghost predicate LogOk(processed: seq<string>, visited: set<string>) {
    NoDuplicates(processed) && forall k :: 0 <= k < |processed| ==> processed[k] in visited
  }

  /** Each record occurs once and no two records share a URL. */
  ghost predicate OncePerUrl(imported: multiset<SyncItem>) {
    && (forall it :: it in imported ==> imported[it] == 1)
    && (forall a, b :: a in imported && b in imported && a.url == b.url ==> a == b)
  }

  /** Every record comes from a processed URL. */
  ghost predicate FromLog(imported: multiset<SyncItem>, processed: seq<string>) {
    forall it :: it in imported ==> it.url in processed
  }

  /** Every record is well imported. */
  ghost predicate AllWellImported(cfg: SyncConfig, env: Env, imported: multiset<SyncItem>) {
    forall it :: it in imported ==> WellImported(cfg, env, it)
  }

  /** The records' part of the invariant. */
  ghost predicate ImportsOk(cfg: SyncConfig, env: Env, imported: multiset<SyncItem>, processed: seq<string>) {
    OncePerUrl(imported) && FromLog(imported, processed) && AllWellImported(cfg, env, imported)
  }

  /** The invariant of the crawl loop. */
  ghost predicate Inv(cfg: SyncConfig, env: Env, s: CrawlState) {
    && DepthsOk(s.queue)
    && |s.imported| <= Budget(cfg)
    && LogOk(s.processed, s.visited)
    && ImportsOk(cfg, env, s.imported, s.processed)
  }

  lemma InitialInv(cfg: SyncConfig, env: Env)
    ensures Inv(cfg, env, Initial(cfg))
  {
  }

  lemma AdmittedWellImported(cfg: SyncConfig, env: Env, url: string)
    requires Admit(cfg, env, url).Admitted? && env.isMatch(cfg.urlFilterRegex, url)
    ensures WellImported(cfg, env, Admit(cfg, env, url).record)
  {
    var a := Admit(cfg, env, url);
    RequiredTextPresentIff(cfg.allowPagesWith, AdmissionText(env.deEntitize, a.record.title, a.record.content));
  }

  /**
   * A fresh, admitted page whose URL matches the regex is imported by its
   * iteration with its own record, unless the iteration throws.
   */
  lemma MatchingPageImported(cfg: SyncConfig, env: Env, item: Entry, s: CrawlState)
    requires Fresh(cfg, s, item) && Admit(cfg, env, item.url).Admitted? && env.isMatch(cfg.urlFilterRegex, item.url)
    ensures var r := Step(cfg, env, item, s);
      r.Ok? ==> r.value.imported == s.imported + multiset{Admit(cfg, env, item.url).record}
    ensures WellImported(cfg, env, Admit(cfg, env, item.url).record)
  {
    StepUnfold(cfg, env, item, s);
    AdmittedWellImported(cfg, env, item.url);
  }

  lemma StepKeepsDepths(cfg: SyncConfig, env: Env, item: Entry, s: CrawlState)
    requires DepthsOk(s.queue) && item.depth >= 0
    ensures Step(cfg, env, item, s).Ok? ==> DepthsOk(Step(cfg, env, item, s).value.queue)
  {
    var r := Step(cfg, env, item, s);
    if r.Ok? {
      forall k | 0 <= k < |r.value.queue| ensures r.value.queue[k].depth >= 0 {
        if k < |s.queue| {
          assert r.value.queue[k] == r.value.queue[..|s.queue|][k];
        }
      }
    }
  }

  lemma StepKeepsLog(cfg: SyncConfig, env: Env, item: Entry, s: CrawlState)
    requires LogOk(s.processed, s.visited)
    ensures Step(cfg, env, item, s).Ok? ==> LogOk(Step(cfg, env, item, s).value.processed, Step(cfg, env, item, s).value.visited)
  {
    var r := Step(cfg, env, item, s);
    if r.Ok? && Fresh(cfg, s, item) {
      assert r.value.processed == s.processed + [item.url];
      assert item.url !in s.processed;
    }
  }

  lemma StepKeepsBudget(cfg: SyncConfig, env: Env, item: Entry, s: CrawlState)
    requires |s.imported| < cfg.maxPages
    ensures Step(cfg, env, item, s).Ok? ==> |Step(cfg, env, item, s).value.imported| <= Budget(cfg)
  {
  }

  lemma ImportsOkLogGrows(cfg: SyncConfig, env: Env, imported: multiset<SyncItem>, processed: seq<string>, u: string)
    requires ImportsOk(cfg, env, imported, processed)
    ensures ImportsOk(cfg, env, imported, processed + [u])
  {
    assert FromLog(imported, processed + [u]) by {
      forall it | it in imported ensures it.url in processed + [u] {
        assert it.url in processed;
      }
    }
  }

  lemma OncePerUrlAdd(imported: multiset<SyncItem>, it: SyncItem)
    requires OncePerUrl(imported) && forall x :: x in imported ==> x.url != it.url
    ensures OncePerUrl(imported + multiset{it})
  {
    var m := imported + multiset{it};
    assert it !in imported;
    forall x | x in m ensures m[x] == 1 {
      if x == it { assert imported[x] == 0; } else { assert m[x] == imported[x]; }
    }
  }

  lemma AllWellImportedAdd(cfg: SyncConfig, env: Env, imported: multiset<SyncItem>, it: SyncItem)
    requires AllWellImported(cfg, env, imported) && WellImported(cfg, env, it)
    ensures AllWellImported(cfg, env, imported + multiset{it})
  {
  }

  lemma ImportsOkAdd(cfg: SyncConfig, env: Env, imported: multiset<SyncItem>, processed: seq<string>, it: SyncItem)
    requires ImportsOk(cfg, env, imported, processed) && it.url !in processed && WellImported(cfg, env, it)
    ensures ImportsOk(cfg, env, imported + multiset{it}, processed + [it.url])
  {
    ImportsOkLogGrows(cfg, env, imported, processed, it.url);
    assert forall x :: x in imported ==> x.url != it.url by {
      forall x | x in imported ensures x.url != it.url {
        assert x.url in processed;
      }
    }
    OncePerUrlAdd(imported, it);
    AllWellImportedAdd(cfg, env, imported, it);
    assert FromLog(imported + multiset{it}, processed + [it.url]);
  }

  lemma StepKeepsImports(cfg: SyncConfig, env: Env, item: Entry, s: CrawlState)
    requires ImportsOk(cfg, env, s.imported, s.processed) && LogOk(s.processed, s.visited)
    ensures Step(cfg, env, item, s).Ok? ==> ImportsOk(cfg, env, Step(cfg, env, item, s).value.imported, Step(cfg, env, item, s).value.processed)
  {
    var r := Step(cfg, env, item, s);
    if r.Ok? && Fresh(cfg, s, item) {
      var t := r.value;
      assert t.processed == s.processed + [item.url];
      assert item.url !in s.processed;
      var a := Admit(cfg, env, item.url);
      if t.imported != s.imported {
        assert t.imported == s.imported + multiset{a.record};
        AdmittedWellImported(cfg, env, item.url);
        ImportsOkAdd(cfg, env, s.imported, s.processed, a.record);
      } else {
        ImportsOkLogGrows(cfg, env, s.imported, s.processed, item.url);
      }
    }
  }

  /** One iteration keeps the invariant. */
  lemma StepPreservesInv(cfg: SyncConfig, env: Env, item: Entry, s: CrawlState)
    requires Inv(cfg, env, s) && item.depth >= 0 && |s.imported| < cfg.maxPages
    ensures Step(cfg, env, item, s).Ok? ==> Inv(cfg, env, Step(cfg, env, item, s).value)
  {
    StepKeepsDepths(cfg, env, item, s);
    StepKeepsLog(cfg, env, item, s);
    StepKeepsBudget(cfg, env, item, s);
    StepKeepsImports(cfg, env, item, s);
  }

  lemma DepthsOkTail(queue: seq<Entry>)
    requires DepthsOk(queue) && queue != []
    ensures DepthsOk(queue[1..]) && queue[0].depth >= 0
  {
    assert forall k :: 0 <= k < |queue| - 1 ==> queue[1..][k] == queue[k + 1];
  }

  lemma InvDequeue(cfg: SyncConfig, env: Env, s: CrawlState)
    requires Inv(cfg, env, s) && s.queue != []
    ensures Inv(cfg, env, s.(queue := s.queue[1..])) && s.queue[0].depth >= 0
  {
    DepthsOkTail(s.queue);
    var t := s.(queue := s.queue[1..]);
    assert t.imported == s.imported && t.processed == s.processed && t.visited == s.visited;
  }

  /** The whole loop keeps the invariant. */
  lemma {:induction false} RunPreservesInv(cfg: SyncConfig, env: Env, U: set<string>, s: CrawlState)
    requires Closed(env.uris, U) && QueueIn(s.queue, U) && Inv(cfg, env, s)
    ensures Run(cfg, env, U, s).Ok? ==> Inv(cfg, env, Run(cfg, env, U, s).value)
    decreases |U - s.visited|, |s.queue|
  {
    if s.queue == [] {
      return;
    }
    var item := s.queue[0];
    var rest := s.(queue := s.queue[1..]);
    InvDequeue(cfg, env, s);
    if |s.imported| >= cfg.maxPages {
      assert Run(cfg, env, U, s) == Ok(rest);
      return;
    }
    StepInUniverse(cfg, env, U, item, rest);
    StepPreservesInv(cfg, env, item, rest);
    var r := Step(cfg, env, item, rest);
    if r.Ok? {
      RemoveOneShrinks(U, s.visited, item.url);
      assert Run(cfg, env, U, s) == Run(cfg, env, U, r.value);
      RunPreservesInv(cfg, env, U, r.value);
    }
  }

  /**
   * What a crawl from the constructor's state promises: at most MaxPages
   * records (none when MaxPages <= 0), one per URL, each taken from a page
   * that passed every gate; and no URL reached the robots check or the
   * renderer twice.
   */
  lemma CrawlGuarantees(cfg: SyncConfig, env: Env, U: set<string>)
    requires Closed(env.uris, U) && cfg.startingUrl in U
    ensures var r := Run(cfg, env, U, Initial(cfg));
      r.Ok? ==>
        && |r.value.imported| <= Budget(cfg)
        && (cfg.maxPages <= 0 ==> r.value.imported == multiset{})
        && NoDuplicates(r.value.processed)
        && (forall it :: it in r.value.imported ==> r.value.imported[it] == 1 && WellImported(cfg, env, it))
        && (forall a, b :: a in r.value.imported && b in r.value.imported && a.url == b.url ==> a == b)
  {
    InitialInv(cfg, env);
    RunPreservesInv(cfg, env, U, Initial(cfg));
  }

  /**
   * When links are explored: for a fresh entry, nothing is enqueued unless
   * the page was admitted and the budget was still open after the import
   * decision; when both hold, the children Expand computes are appended,
   * or its exception ends the crawl.
   */
  lemma ExplorationRule(cfg: SyncConfig, env: Env, item: Entry, s: CrawlState)
    requires Fresh(cfg, s, item)
    ensures var r := Step(cfg, env, item, s);
      && (!Explores(cfg, env, item.url, |s.imported|) ==> r.Err? || r.value.queue == s.queue)
      && (Explores(cfg, env, item.url, |s.imported|) ==>
            var a := Admit(cfg, env, item.url);
            var e := Expand(cfg, env, item.url, item.depth, a.pageUri.leftPart, a.page.hrefs);
            (e.Err? ==> r == Err(e.error)) && (e.Ok? ==> r.Ok? && r.value.queue == s.queue + e.value))
  {
    var m := s.(visited := s.visited + {item.url}, processed := s.processed + [item.url]);
    assert Step(cfg, env, item, s) == Visit(cfg, env, item, m);
    VisitExploration(cfg, env, item, m);
  }

  /** ExplorationRule for the body of an iteration. */
  lemma VisitExploration(cfg: SyncConfig, env: Env, item: Entry, m: CrawlState)
    ensures var r := Visit(cfg, env, item, m);
      && (!Explores(cfg, env, item.url, |m.imported|) ==> r.Err? || r.value.queue == m.queue)
      && (Explores(cfg, env, item.url, |m.imported|) ==>
            var a := Admit(cfg, env, item.url);
            var e := Expand(cfg, env, item.url, item.depth, a.pageUri.leftPart, a.page.hrefs);
            (e.Err? ==> r == Err(e.error)) && (e.Ok? ==> r.Ok? && r.value.queue == m.queue + e.value))
  {
    var r := Visit(cfg, env, item, m);
    if Explores(cfg, env, item.url, |m.imported|) {
      var a := Admit(cfg, env, item.url);
      var imported := ImportDecision(cfg, env, item.url, a.record, m.imported);
      assert |imported| < cfg.maxPages;
    } else if r.Ok? {
      assert r.value.queue == r.value.queue[..|m.queue|];
    }
  }

  /**
   * Failing the URL regex alone does not stop link discovery: an admitted
   * page whose URL does not match is not imported, and its children are
   * enqueued while the budget is open.
   */
  lemma RegexFailureStillExplores(cfg: SyncConfig, env: Env, item: Entry, s: CrawlState)
    requires Fresh(cfg, s, item) && |s.imported| < cfg.maxPages
    requires Admit(cfg, env, item.url).Admitted? && !env.isMatch(cfg.urlFilterRegex, item.url)
    ensures var a := Admit(cfg, env, item.url);
      var s' := s.(visited := s.visited + {item.url}, processed := s.processed + [item.url]);
      Step(cfg, env, item, s) == match Expand(cfg, env, item.url, item.depth, a.pageUri.leftPart, a.page.hrefs)
        case Err(e) => Err(e)
        case Ok(children) => Ok(s'.(queue := s.queue + children))
  {
    var a := Admit(cfg, env, item.url);
    var m := s.(visited := s.visited + {item.url}, processed := s.processed + [item.url]);
    assert Step(cfg, env, item, s) == Visit(cfg, env, item, m);
    assert ImportDecision(cfg, env, item.url, a.record, m.imported) == m.imported;
  }

  /** A page that fails the required-text check is neither imported nor explored. */
  lemma RequiredTextFailureStops(cfg: SyncConfig, env: Env, item: Entry, s: CrawlState)
    requires Fresh(cfg, s, item)
    requires env.uris.parseAbsolute(item.url).Some? && env.robotsAllows(item.url) && env.fetch(item.url).Some?
    requires var page := env.parse(env.fetch(item.url).value);
      page.content.Some? &&
      !MentionsRequiredTerm(cfg.allowPagesWith,
        AdmissionText(env.deEntitize, TitleOf(page.title), NormalizeText(env.deEntitize, page.content.value)))
    ensures Step(cfg, env, item, s) == Ok(s.(visited := s.visited + {item.url}, processed := s.processed + [item.url]))
  {
    var page := env.parse(env.fetch(item.url).value);
    RequiredTextPresentIff(cfg.allowPagesWith,
      AdmissionText(env.deEntitize, TitleOf(page.title), NormalizeText(env.deEntitize, page.content.value)));
  }

  /** A failed fetch ends the whole crawl: the handler around the loop body is not there. */
  lemma FetchFailureAborts(cfg: SyncConfig, env: Env, item: Entry, s: CrawlState)
    requires Fresh(cfg, s, item)
    requires env.uris.parseAbsolute(item.url).Some? && env.robotsAllows(item.url) && env.fetch(item.url).None?
    ensures Step(cfg, env, item, s) == Err(FetchFailed(item.url))
  {
  }

  /** Line 55: a dequeued URL that is not a URI ends the crawl with that exception. */
  lemma InvalidUriAborts(cfg: SyncConfig, env: Env, item: Entry, s: CrawlState)
    requires Fresh(cfg, s, item)
    requires env.uris.parseAbsolute(item.url).None?
    ensures Step(cfg, env, item, s) == Err(InvalidUri(item.url))
  {
  }

  /** With MaxPages <= 0 the first dequeue finds the budget spent: nothing is imported. */
  lemma NonPositiveBudgetImportsNothing(cfg: SyncConfig, env: Env, U: set<string>)
    requires Closed(env.uris, U) && cfg.startingUrl in U && cfg.maxPages <= 0
    ensures CrawlOutcome(cfg, env, U, Initial(cfg)) ==
      if env.uris.parseAbsolute(cfg.startingUrl).None? then Err(InvalidUri(cfg.startingUrl)) else Ok(multiset{})
  {
  }

  /**
   * The class WebCrawler: the fields the source mutates, with the
   * collaborators fixed at construction. processed is the specification's
   * log of the URLs that passed the visited/depth gate.
   */
  class WebCrawler {
    const config: SyncConfig
    const env: Env
    var queue: seq<Entry>
    var visited: set<string>
    var imported: multiset<SyncItem>
    ghost var processed: seq<string>

    ghost function State(): CrawlState
      reads this
    {
      CrawlState(queue, visited, imported, processed)
    }

    /** The constructor enqueues the seed at depth 0. */
    constructor (config: SyncConfig, env: Env)
      ensures this.config == config && this.env == env
      ensures State() == Initial(config)
    {
      this.config := config;
      this.env := env;
      queue := [Entry(config.startingUrl, 0)];
      visited := {};
      imported := multiset{};
      processed := [];
    }

    /**
     * The foreach loop of lines 157-182: enqueue the children of an accepted
     * href list, or report that a reading outside the try block threw.
     */
    method EnqueueLinks(links: seq<string>, pageLeftPart: string, depth: int) returns (ok: bool)
      modifies this`queue
      ensures ok <==> Discover(env.uris, pageLeftPart, links, depth).Some?
      ensures ok ==> queue == old(queue) + Discover(env.uris, pageLeftPart, links, depth).value
    {
      var i := 0;
      while i < |links|
        invariant 0 <= i <= |links|
        invariant Discover(env.uris, pageLeftPart, links[..i], depth).Some?
        invariant queue == old(queue) + Discover(env.uris, pageLeftPart, links[..i], depth).value
      {
        assert links[..i + 1] == links[..i] + [links[i]];
        DiscoverSnoc(env.uris, pageLeftPart, links[..i], links[i], depth);
        var target := LinkStep(env.uris, pageLeftPart, links[i]);
        match target {
          case LinkThrows =>
            assert links[..i + 1][i] == links[i];
            assert exists j :: 0 <= j < |links| && LinkStep(env.uris, pageLeftPart, links[j]).LinkThrows?;
            return false;
          case LinkSkipped =>
          case LinkTarget(u) =>
            queue := queue + [Entry(u.text, depth)];
        }
        i := i + 1;
      }
      assert links[..i] == links;
      ok := true;
    }

    /**
     * The gates of lines 55-96 for one URL: read it as a URI, consult
     * robots, fetch, parse, find content, look for a required term.
     */
    method AdmitPage(url: string) returns (a: Admission)
      ensures a == Admit(config, env, url)
    {
      var pageUri := env.uris.parseAbsolute(url);
      if pageUri.None? {
        return Aborted(InvalidUri(url));
      }
      if !env.robotsAllows(url) {
        return Dropped;
      }
      var html := env.fetch(url);
      if html.None? {
        return Aborted(FetchFailed(url));
      }
      var page := env.parse(html.value);
      if page.content.None? {
        return Dropped;
      }
      var plainText := NormalizeText(env.deEntitize, page.content.value);
      var title := TitleOf(page.title);
      if !RequiredTextPresent(config.allowPagesWith, AdmissionText(env.deEntitize, title, plainText)) {
        return Dropped;
      }
      return Admitted(pageUri.value, page, SyncItem(url, title, plainText));
    }

    /**
     * Lines 55-183 for an entry that passed the gate: the state afterwards
     * is the one Visit computes, or the exception it names is reported.
     */
    method ProcessPage(item: Entry) returns (failure: Option<CrawlError>)
      modifies this`queue, this`imported
      ensures var v := Visit(config, env, item, old(State()));
        && (failure.None? <==> v.Ok?)
        && (v.Ok? ==> State() == v.value)
        && (v.Err? ==> failure == Some(v.error))
    {
      ghost var s0 := old(State());
      var a := AdmitPage(item.url);
      match a {
        case Aborted(e) =>
          assert Visit(config, env, item, s0) == Err(e);
          return Some(e);
        case Dropped =>
          assert Visit(config, env, item, s0) == Ok(s0);
          return None;
        case Admitted(pageUri, page, record) =>
          VisitUnfold(config, env, item, s0);
          failure := ImportAndExpand(item, pageUri.leftPart, page.hrefs, record);
      }
    }

    /**
     * Lines 98-183 for an admitted page: the import decision, the budget
     * check, then the children.
     */
    method ImportAndExpand(item: Entry, pageLeftPart: string, hrefs: seq<string>, record: SyncItem)
      returns (failure: Option<CrawlError>)
      modifies this`queue, this`imported
      ensures imported == ImportDecision(config, env, item.url, record, old(imported))
      ensures var e := Expand(config, env, item.url, item.depth, pageLeftPart, hrefs);
        if |imported| >= config.maxPages then failure.None? && queue == old(queue)
        else
          && (failure.None? <==> e.Ok?)
          && (e.Err? ==> failure == Some(e.error))
          && (e.Ok? ==> queue == old(queue) + e.value)
    {
      if env.isMatch(config.urlFilterRegex, item.url) {
        imported := imported + multiset{record};
      }
      if |imported| >= config.maxPages {
        return None;
      }
      failure := ExpandPage(item, pageLeftPart, hrefs);
    }

    /**
     * Lines 117-183: filter the hrefs of an admitted page and enqueue its
     * children, or report the exception that ends the crawl.
     */
    method ExpandPage(item: Entry, pageLeftPart: string, hrefs: seq<string>) returns (failure: Option<CrawlError>)
      modifies this`queue
      ensures var e := Expand(config, env, item.url, item.depth, pageLeftPart, hrefs);
        && (failure.None? <==> e.Ok?)
        && (e.Err? ==> failure == Some(e.error))
        && (e.Ok? ==> queue == old(queue) + e.value)
    {
      ExpandUnfold(config, env, item.url, item.depth, pageLeftPart, hrefs);
      var links := FilterHrefs(config, env.isMatch, env.uris, hrefs);
      if links.None? {
        return Some(RelativeHref(item.url));
      }
      var ok := EnqueueLinks(links.value, pageLeftPart, item.depth + 1);
      if !ok {
        return Some(MalformedHref(item.url));
      }
      return None;
    }

    /**
     * CrawlAsync. The result is the one CrawlOutcome describes, and a crawl
     * that completes leaves the fields in the state Run computes.
     */
    method Crawl(ghost U: set<string>) returns (r: Result<multiset<SyncItem>, CrawlError>)
      requires Closed(env.uris, U) && QueueIn(queue, U)
      modifies this
      ensures r == CrawlOutcome(config, env, U, old(State()))
      ensures r.Ok? ==> Run(config, env, U, old(State())) == Ok(State())
    {
      if env.uris.parseAbsolute(config.startingUrl).None? {
        return Err(InvalidUri(config.startingUrl));
      }
      ghost var start := State();
      while queue != []
        invariant Closed(env.uris, U) && QueueIn(queue, U)
        invariant Run(config, env, U, State()) == Run(config, env, U, start)
        decreases |U - visited|, |queue|
      {
        ghost var before := State();
        var item := queue[0];
        queue := queue[1..];
        if |imported| >= config.maxPages {
          assert Run(config, env, U, before) == Ok(State());
          break;
        }
        RunUnfold(config, env, U, before);
        RemoveOneShrinks(U, visited, item.url);
        ghost var rest := State();
        if item.url in visited || item.depth > config.maxDepth {
          visited := visited + {item.url};
          assert State() == rest.(visited := rest.visited + {item.url});
          continue;
        }
        StepUnfold(config, env, item, rest);
        visited := visited + {item.url};
        processed := processed + [item.url];
        assert State() == rest.(visited := rest.visited + {item.url}, processed := rest.processed + [item.url]);
        var failure := ProcessPage(item);
        if failure.Some? {
          return Err(failure.value);
        }
      }
      r := Ok(imported);
    }
  }
}
