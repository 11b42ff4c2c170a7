# websitesync crawl engine in Dafny

websitesync is a command-line tool. It takes a starting URL and crawls
breadth-first from it, and imports at most `MaxPages` pages, at most
`MaxDepth` link hops deep. Only imported pages count against `MaxPages`:
a page that is fetched but not kept does not. On each page it checks robots.txt, renders the page,
extracts the main text and the title, and keeps the pages whose text
holds one of the required terms and whose URL matches a regular
expression. Each kept page is written to a `.txt` file named after its
title.

This project models two things and proves properties of them:

- the crawl engine, `WebCrawler.cs`;
- the argument handling of `Program.cs` that builds its `SyncConfig`.

Modules:

- `Wrappers`: `Option` and `Result`.
- `Text`: .NET white space and `Trim`, and `NormalizeText`. Also
  ordinal-ignore-case `Contains` and `Equals`, `ToLowerInvariant`,
  `Split` / `Join`, and `Split` with `RemoveEmptyEntries | TrimEntries`.
- `Seqs`: LINQ `Where` and `Distinct`, with the order they keep.
- `Config`: the `SyncConfig` record.
- `Links`: the href filter lambda of `CrawlAsync`, followed by `Distinct`.
  Also the resolution of one accepted href, and `IsWebLink`.
- `Crawler`: the crawl. It is stated first as pure functions:
  - `Admit`: the page gates;
  - `Expand`: link discovery;
  - `Step`: one loop iteration;
  - `Run`: the whole loop.

  Then it is stated as the class `WebCrawler`, whose `Crawl` method runs
  the same loop on its own `queue`, `visited` set and `imported` bag. Its
  contract says it computes exactly `Run`.
- `CommandLine`: `Main` up to the crawl. This covers the help rule, the
  argument dictionary and `int.TryParse`, the defaults, and the file name
  each page is written to.

The collaborators are parameters of the model, held in the record
`Crawler.Env`:

- robots.txt (`robotsAllows`);
- the renderer (`fetch`, where `None` means the call threw);
- HtmlAgilityPack (`parse` and `deEntitize`);
- the regex (`isMatch`);
- `System.Uri` (`Links.UriParser`).

Every exception that escapes `CrawlAsync` is a `Crawler.CrawlError`:

- `new Uri(StartingUrl)` (line 35) and `new Uri(item.url)` (line 55) fail;
- the renderer throws;
- `new Uri(href)` throws inside the filter lambda, which only happens when
  an URL prefix is set (line 147);
- `new Uri(href, RelativeOrAbsolute)` throws outside the inner `try`
  (line 159).

Two consequences of the code shape the model:

- A page without any required term ends its iteration with `continue`
  (`WebCrawler.cs` lines 91-96), so that page's links are not explored. A
  page that fails only the URL regex is not imported (lines 98-112), but
  its links are still explored (lines 115-183).
- The outer `catch` is commented out (`WebCrawler.cs` lines 185-188), so a
  renderer exception at line 72 ends the whole crawl with that exception
  instead of skipping the page.

`AllowedUrlPrefix` is only tested for being empty (line 140); its value is
never compared with any URL. When it is set, line 147 builds
`new Uri(baseUri, new Uri(href))` from the seed URI and the href, and that
URI is never used afterwards. So a set prefix has two effects only: the
skip list is applied (line 150), and an href that is not an absolute URI
makes `new Uri(href)` throw.

## Model

| member | source | states |
|---|---|---|
| Config.SyncConfig | SyncConfig.cs:3-13 | the crawl settings record, one field per property; the nullable `AllowedUrlPrefix` is an `Option` |
| Config.PrefixUnset | WebCrawler.cs:140 | a predicate: the prefix is unset when it is null or empty (`string.IsNullOrEmpty`) |
| Text.Trim | WebCrawler.cs:215 | the result is the input with only .NET white space cut from its two ends, and has none left at either end; it is empty exactly when the input is blank (`IsNullOrWhiteSpace`, line 122), and an already trimmed string is left alone |
| Text.TrimKeepsFreeOf | Program.cs:45 | trimming a string that avoids a set of characters gives a string that still avoids them |
| Text.ReplaceNoise | WebCrawler.cs:209-214 | the six chained `Replace` calls turn each of `_ - \r \n \t U+00A0` into a space and keep every other character in place |
| Text.NormalizeText | WebCrawler.cs:206-216 | the normalised text holds none of the six noise characters and is trimmed |
| Text.NormalizeTextStable | WebCrawler.cs:206-216 | normalising an already normalised text again (replace, then trim) changes nothing |
| Text.ContainsIgnoreCaseIff | WebCrawler.cs:89 | the ordinal-ignore-case `Contains` scan succeeds exactly when some window of the text equals the term up to ASCII case |
| Text.SplitOn | Program.cs:77 | `Split` yields at least one piece, and no piece holds a separator |
| Text.JoinSplitIsReplaceAll | Program.cs:77 | joining the pieces of `Split(chars)` with a character replaces each of those characters by it, position by position |
| Text.SplitJoinRoundTrip | Program.cs:45 | splitting a separator-free list joined by the separator gives the list back |
| Text.SplitTrimmed | Program.cs:45 | `Split(',', RemoveEmptyEntries \| TrimEntries)` yields only non-empty, trimmed entries that contain no comma |
| Text.TrimCore | WebCrawler.cs:215 | a non-empty trimmed core with only white space around it is exactly what `Trim` returns |
| Text.TrimNonEmptyEntries | Program.cs:45 | the entries are exactly the trims of the pieces that are not blank |
| Text.TrimNonEmptyConcat | Program.cs:45 | two runs of pieces keep their entries in order, one run after the other |
| Text.TrimNonEmptySingle | Program.cs:45 | a blank piece is dropped, any other piece is kept trimmed |
| Text.SplitTrimmedOfJoin | Program.cs:45 | splitting comma-joined pieces gives the trims of the non-blank pieces, in order |
| Text.SplitTrimmedEntries | Program.cs:45 | the entries of any string are the trims of its non-blank pieces |
| Text.SplitTrimmedExample | Program.cs:45 | `"pricing, plans,"` reads as `["pricing", "plans"]`: the space is trimmed and the empty piece dropped |
| Text.SplitTrimmedJoin | Program.cs:44-49 | a list of non-empty, trimmed, comma-free terms given joined by commas is read back exactly |
| Links.IsWebLink | WebCrawler.cs:218-222 | a predicate: a URI reference is a web link exactly when it is absolute with scheme `http` or `https` |
| Links.HrefCheck | WebCrawler.cs:120-151 | the lambda's checks in source order, giving Rejected, Accepted or Throws; what it accepts and when it throws is stated by `Links.HrefCheckAccepts` |
| Seqs.DistinctSnoc | WebCrawler.cs:152 | one more element extends the distinct list by that element exactly when it is new, keeping all of `Distinct`'s promises |
| Seqs.Distinct | WebCrawler.cs:152 | `Distinct` has no duplicates, holds exactly the elements of its input, and keeps them in order of first occurrence |
| Seqs.Where | WebCrawler.cs:120 | `Where` keeps exactly the elements that satisfy the predicate |
| Seqs.DistinctWhereOrder | WebCrawler.cs:120-152 | `Where` then `Distinct` lists the survivors in order of first occurrence in the input |
| Links.HrefCheckAccepts | WebCrawler.cs:120-151 | the filter lambda accepts an href exactly when it is not blank, does not start with `#`, and matches the regex, and, when a prefix is set, can be read as an absolute URI and contains no skip entry up to case; it throws exactly when the href is not blank, does not start with `#`, matches the regex, a prefix is set, and the href cannot be read as an absolute URI (lines 122-137 return before line 147 otherwise) |
| Links.FilterHrefs | WebCrawler.cs:117-152 | the filtered list is absent exactly when the lambda throws on some href; otherwise it holds every accepted href once, nothing else, in order of first occurrence |
| Links.LinkStep | WebCrawler.cs:157-181 | one accepted href throws exactly when it cannot be read as a URI reference; otherwise it yields the web link it resolves to against the page's scheme and authority when there is one, and is skipped otherwise |
| Crawler.RequiredTextPresentIff | WebCrawler.cs:88-89 | the page is allowed exactly when the required list is empty or some required term occurs in the normalised title-and-text up to case |
| Crawler.TitleOf | WebCrawler.cs:84 | the stored title is the trimmed `//title` text, or `[No Title]` when there is none |
| Crawler.RequiredTextPresent | WebCrawler.cs:88-89 | the `Any`/`Contains` check: the list is empty or some term is found ignoring case; stated on windows by `Crawler.RequiredTextPresentIff` |
| Crawler.Admit | WebCrawler.cs:55-96 | the iteration throws exactly when the page URL is not a URI, or when robots allow the page and the renderer throws; a page is admitted exactly when it passes every gate (`PassesGates`: a URI, allowed by robots, fetched, with a content node and a required term); the record of an admitted page holds the URL, the trimmed title or `[No Title]`, and the normalised text |
| Crawler.Discover | WebCrawler.cs:154-183 | the foreach throws exactly when some link throws; otherwise it enqueues at most one entry per link, each at the given depth |
| Crawler.DiscoverSound | WebCrawler.cs:157-176 | every entry enqueued comes from a link that resolves to that web URI |
| Crawler.DiscoverComplete | WebCrawler.cs:157-176 | every link that resolves to a web URI is enqueued with that URI's text at the given depth, unless some link throws |
| Crawler.DiscoverSingle | WebCrawler.cs:157-181 | a single link throws, is skipped, or enqueues exactly its own target |
| Crawler.DiscoverConcat | WebCrawler.cs:157-182 | the loop over two lists of links in a row enqueues the first list's entries, then the second's; if either throws, the whole loop throws. With `DiscoverSingle` this gives the entries in link order |
| Crawler.Expand | WebCrawler.cs:117-183 | every child is one level deeper than its page |
| Crawler.ExpandInUniverse | WebCrawler.cs:154-183 | every child URL lies in any URL set the URI parser is closed in |
| Crawler.ImportDecision | WebCrawler.cs:98-108 | the old records all stay; the page's own record is added once, and the bag grows by one, exactly when the URL matches the regex; otherwise the bag is unchanged |
| Crawler.Visit | WebCrawler.cs:55-183 | an iteration keeps the visited set and the processed log, and only appends children, each one level deeper. It adds the page's record to the bag exactly when the page is admitted and its URL matches the regex. It throws exactly when `Admit` throws, or when the links are explored and `Expand` throws |
| Crawler.Step | WebCrawler.cs:50-53 | the URL is marked visited whatever happens; an entry already visited or deeper than MaxDepth changes nothing else and cannot throw; only a fresh entry is logged as processed or can change the imported bag |
| Crawler.CrawlOutcome | WebCrawler.cs:33-203 | `CrawlAsync`: an invalid seed URI throws (line 35), otherwise the result is the bag of the finished `Run`, or its exception |
| Crawler.Run | WebCrawler.cs:50-193 | the loop ends with an empty frontier or MaxPages records imported, and never forgets a visited URL |
| Crawler.AdmittedWellImported | WebCrawler.cs:98-106 | the record of an admitted page whose URL matches the regex is well formed: its URL passed every gate, and its title and content are those the page yields |
| Crawler.MatchingPageImported | WebCrawler.cs:98-107 | a fresh, admitted page whose URL matches the regex is imported by its iteration with exactly that record, unless the iteration throws |
| Crawler.InitialInv | WebCrawler.cs:25-31 | the constructor's state satisfies the crawl invariant |
| Crawler.StepPreservesInv | WebCrawler.cs:52-183 | one iteration keeps depths non-negative, the count within MaxPages, the processed log consistent with the visited set, and each import unique per URL and well formed |
| Crawler.RunPreservesInv | WebCrawler.cs:50-193 | the whole loop keeps that invariant |
| Crawler.CrawlGuarantees | WebCrawler.cs:33-203 | a crawl imports at most MaxPages records (none when MaxPages is not positive), at most one per URL, each from a page that passed every gate, and no URL ever reaches robots or the renderer twice |
| Crawler.ExplorationRule | WebCrawler.cs:98-183 | a fresh page's links are enqueued exactly when it is admitted and the count after the import decision is below MaxPages; the children `Expand` yields are then appended after the existing frontier, or its exception ends the crawl |
| Crawler.VisitExploration | WebCrawler.cs:98-183 | the body of an iteration enqueues links exactly when the page is admitted and the count after the import decision is below MaxPages, appending what `Expand` yields or raising its exception |
| Crawler.RunUnfold | WebCrawler.cs:50-193 | while the budget is open, the loop run from a state equals the loop run after one `Step` on its first entry, or that step's exception, and the frontier stays inside the URL set |
| Crawler.RegexFailureStillExplores | WebCrawler.cs:98-115 | an admitted page whose URL fails the regex is not imported but its children are enqueued |
| Crawler.RequiredTextFailureStops | WebCrawler.cs:88-96 | a page without a required term is neither imported nor explored |
| Crawler.InvalidUriAborts | WebCrawler.cs:55 | a fresh entry whose URL is not a URI ends the crawl with `InvalidUri` for that URL |
| Crawler.FetchFailureAborts | WebCrawler.cs:72 | a renderer exception on an allowed page ends the crawl with that error |
| Crawler.NonPositiveBudgetImportsNothing | WebCrawler.cs:50 | with MaxPages at most zero nothing is imported |
| Crawler.WebCrawler.constructor | WebCrawler.cs:25-31 | the constructor's queue holds only the seed at depth 0, and nothing is visited or imported |
| Crawler.WebCrawler.AdmitPage | WebCrawler.cs:55-96 | the gates, run one after another, give the admission `Admit` describes |
| Crawler.WebCrawler.ImportAndExpand | WebCrawler.cs:98-183 | the bag gets the import decision; when the budget is then spent the queue is left alone, otherwise the children `Expand` yields are appended or its exception reported |
| Crawler.WebCrawler.ExpandPage | WebCrawler.cs:117-183 | filtering and following the hrefs appends exactly the children `Expand` yields, or reports its exception |
| Crawler.WebCrawler.EnqueueLinks | WebCrawler.cs:154-183 | the loop over accepted links appends exactly the entries `Discover` yields, or reports the exception |
| Crawler.WebCrawler.ProcessPage | WebCrawler.cs:55-183 | the body of one iteration leaves the crawler in the state `Visit` yields, or reports its error |
| Crawler.WebCrawler.Crawl | WebCrawler.cs:33-204 | `CrawlAsync` returns what `CrawlOutcome` yields, and on success the crawler ends in the state `Run` yields |
| CommandLine.WantsHelp | Program.cs:12 | a predicate: help is wanted when there are fewer than two arguments or the second is `/?` |
| CommandLine.SplitAtFirst | Program.cs:30 | `Split('=', 2)` gives the text before the first `=` and, when there is one, the rest after it |
| CommandLine.ArgPairOf | Program.cs:30-33 | an option's key is the lower-cased text before its first `=` and its value the text after it, or the whole option and `""` when it has no `=` |
| CommandLine.ArgPairs | Program.cs:28-30 | an argument yields a pair exactly when it starts with `--`, and a pair comes from such an argument; there are never more pairs than arguments |
| CommandLine.ArgPairsConcat | Program.cs:28-30 | the pairs of two runs of arguments are the first run's pairs followed by the second's, so nothing is merged or reordered |
| CommandLine.ArgPairsSingle | Program.cs:28-30 | one argument gives its own pair when it starts with `--`, and none otherwise |
| CommandLine.ArgPairAt | Program.cs:28-30 | an option at position i gives its pair at the index that counts the options before it |
| CommandLine.RepeatedKeyRejected | Program.cs:28-34 | two options with the same key, even with equal values, make the keys not distinct, so the line is rejected for a repeated key |
| CommandLine.ValueFor | Program.cs:36-51 | a key has a value exactly when some pair carries it |
| CommandLine.ValueForLast | Program.cs:36-51 | the value found is that of the last pair with the key: no later pair carries it |
| CommandLine.ToDictionary | Program.cs:31-34 | building the dictionary succeeds exactly when no key repeats, and then maps each key to its value; otherwise it fails on the first key seen twice |
| CommandLine.ParseInt | Program.cs:41-42 | `int.TryParse` yields only values in the 32-bit range |
| CommandLine.ParseIntCharacters | Program.cs:41-42 | `int.TryParse` succeeds only on a string that holds a digit and nothing but digits, signs and white space, so `12a` and the empty string fall back to the default |
| CommandLine.DropKeepsChars | Program.cs:41-42 | dropping the surrounding white space keeps every other character and adds none |
| CommandLine.ParseIntRoundTrip | Program.cs:41-42 | every 32-bit integer written in decimal parses back to itself |
| CommandLine.ParseCommandLine | Program.cs:12-52 | help is shown exactly when there are fewer than two arguments or the second is `/?`; a repeated key is rejected, then a missing `--outputpath`, then a missing `--starturl`; a line with distinct keys and both required keys is accepted, and the configuration carries the given output path and starting URL |
| CommandLine.BuildConfig | Program.cs:38-52 | the object initialiser; a list setting is empty when its key is absent; its settings are stated by `IntSettingDefaults`, `IntSettingGiven`, `FlagSettings`, `ListSettings` and `ListSettingsGiven` |
| CommandLine.ConfiguredLookup | Program.cs:36-52 | an accepted command line's dictionary holds exactly the keys given, with their values |
| CommandLine.KeyLookup | Program.cs:36-52 | on an accepted command line, a key is in the dictionary exactly when some option carries it, with the value of that option |
| CommandLine.IntSettingDefaults | Program.cs:41-42 | MaxPages is 100 and MaxDepth 3 when their key is absent or not an integer |
| CommandLine.IntSettingGiven | Program.cs:41-42 | a 32-bit integer given for `--maxpages` or `--maxdepth` is taken as given |
| CommandLine.FlagSettings | Program.cs:43-51 | the filter is the given `--filter` or `.*`; the prefix is exactly the `--urlprefix` value when given (so `--urlprefix=` gives an empty prefix, which counts as unset) and absent otherwise; JavaScript rendering is on exactly for `--usejs=true` in any case |
| CommandLine.ListSettings | Program.cs:44-49 | each list is empty when its key is absent, and a comma-joined list of trimmed, non-empty terms reads back entry by entry |
| CommandLine.ListSettingsGiven | Program.cs:44-49 | a given list value, whatever it is, is read as its `SplitTrimmed` entries |
| CommandLine.FileNameFor | Program.cs:77-78 | the file name replaces every invalid character of the title by `_`, keeps the rest, and adds `.txt` |
| CommandLine.UnixFileNameSafe | Program.cs:77-79 | with the Linux invalid set, no title yields a file name holding `/` or NUL |

## Left out

- Crawler.Run: its termination is proved only when `Links.Closed` holds and the frontier lies inside a finite set of URLs that the URI parser never leaves. An unbounded web is not modelled.
- Crawler.WebCrawler.Crawl: it requires the same finite URL set, for the same reason.
- Crawler.Expand: its own contract states only the depth of the children. Which links they come from, and their order, are stated about `Crawler.Discover`, by `DiscoverSound`, `DiscoverComplete`, `DiscoverSingle` and `DiscoverConcat`.
- Lines 36-46 are not modelled: the robots.txt download, `Robots.Load`, and the allow-all fallback. The resulting `IsPathAllowed` answer is the parameter `robotsAllows`.
- The renderers and `JsEnabledCrawler.cs` are collaborators, reduced to the parameter `fetch`. `Program.cs` lines 54-70 choose and dispose the renderer; that is left out.
- HtmlAgilityPack parsing, XPath selection of `main` / `article` / `body` / `title`, `InnerText` and `DeEntitize` are parameters (`parse`, `deEntitize`). Their results are taken as given.
- `System.Text.RegularExpressions` and `System.Uri` are parameters (`isMatch`, `UriParser`). Nothing is modelled about `Uri.ToString` canonicalisation.
- An invalid `--filter` pattern makes `new Regex` throw in the constructor (line 29). `isMatch` is total, so this case is not modelled.
- The semaphore and the concurrent collections (lines 18-23) are modelled as a sequential queue, a set, and a multiset. The tasks of lines 59-61 and 193-202 are commented out in the source.
- Console output is not modelled. The file writing of `Program.cs` lines 72-89 is not modelled either, apart from the file name.
- `SyncItem.RetrievedAt` (a clock reading) is not modelled.
- Case-insensitive comparison, `ToLowerInvariant` and `char.IsWhiteSpace` are modelled for ASCII letters and the .NET white-space set. Unicode case folding is not modelled.
- `StartsWith("--")` and `StartsWith("#")` are culture-sensitive in .NET. Here they are modelled as ordinal prefix tests.
- `Path.GetInvalidFileNameChars()` is platform-dependent, so it is a parameter. `UnixInvalidFileNameChars` holds the Linux set.
- CommandLine.ParseInt: it does not model `int.TryParse`'s acceptance of trailing NUL characters, or of culture-specific sign symbols.
- `item.depth + 1` is computed on unbounded integers. The 32-bit overflow is unreachable for any realistic `MaxDepth`.
- `IsWebScheme` (lines 224-227) is never called, so it is not modelled.
