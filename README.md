# A verified model of the crawler core

This project models the core of a small persistent web crawler (joegarb/crawler, written in
Java) and proves properties of the model. It covers seven parts of the crawler:

- **URL canonicalisation** (`UrlNormalizer.normalize`, `extractSubdomain`). Both trim the input
  and assume `http://` when it has no `://`. They then use a WHATWG URL parser. That parser is
  modelled in module `Url` for the `scheme://host[:port][path][?query][#fragment]` shape of the
  special schemes: it lower-cases scheme and host, drops the default port, gives an empty path
  as `/`, and percent-encodes path, query and fragment.
- **The frontier queue** (`FrontierStore`). The `frontier_queue` table is the class
  `FrontierStore.Frontier`. It holds the rows in insertion order, the next `AUTOINCREMENT` id
  and a logical clock for `datetime('now')`. Every table statement is also a function on
  `Table` values (`Insert`, `InsertAll`, `Next`, `Remove`). Each method is proved to move the
  table exactly as its function says and to keep the table's invariant. The invariant says
  that ids and `added_at` grow with table order, that urls are unique, that timestamps are not
  in the future, and that every stored url is its own normal form.
- **The crawled-url record** (`MetadataStore`). It is a map from url to the clock value of its
  last marking. `markAsCrawled` upserts the url as given; `hasBeenCrawled` looks up the
  url's normal form.
- **Link extraction** (`LinkExtractor.extractLinks`). The HTML parser is represented by the
  list of `href` values, and URL resolution by a function parameter. The loop is an imperative
  method, proved equal to a function that gathers the per-anchor steps.
- **Fetch-result classification** (`PageFetcher`). `fetch` is a function of what the request
  gave: a response, an I/O error, an interrupt, or an invalid URL.
- **Configuration** (`Configuration`). Each setting is taken from the environment, then the
  properties file, then the default. The environment and the properties file are passed in
  as maps. `Integer.parseInt` is modelled exactly for `int` range.
- **The command line** (`Main.main`). The argument loop, the usage error, and seeding the
  frontier through `addUrl`.

A Java `null` is `Option.None`; strings are `seq<char>`.

The source code and its tests disagree on one point. `LinkExtractorTest.java:85-104` expects
links on subdomains of the target host to be kept, and calls a two-argument `extractLinks`
that does not exist. `LinkExtractor.java:52` compares the host exactly. The model follows the
code: `LinkExtractor.SubdomainLinksDropped` proves that a subdomain link is never returned.
The comment on `RESTRICT_TO_HOST` (`Configuration.java:37`) also speaks of subdomains.

## Model

| member | source | states |
|---|---|---|
| Url.Parse | src/main/java/com/joegarb/crawler/UrlNormalizer.java:33 | the URL parser: drops tabs and newlines, splits the scheme at the first `://`, rejects a non-special scheme, parses `host[:port]` up to the first `/`, `\`, `?` or `#`, then path, query and fragment; `None` is a parse error |
| Url.Serialize | src/main/java/com/joegarb/crawler/UrlNormalizer.java:33 | the URL serializer: `scheme://host`, then `:port` when there is one, the path, `?query` and `#fragment` when present |
| Url.ParseIsWellFormed | src/main/java/com/joegarb/crawler/UrlNormalizer.java:33 | every URL the parser produces has a special scheme, a lower-case host without forbidden code points, no default port and none above 65535, a path starting with `/`, and encoded path and query |
| Url.RoundTrip | src/main/java/com/joegarb/crawler/UrlNormalizer.java:33 | parsing the serialization of a well-formed URL gives that URL back |
| Url.ParseComposed | src/main/java/com/joegarb/crawler/UrlNormalizer.java:33 | parsing `scheme://host[:port]path[?query][#fragment]` lower-cases scheme and host, drops the default port, keeps any other port, stores an empty path as `/`, and percent-encodes path, query and fragment with their encode sets |
| Url.ParseWithScheme | src/main/java/com/joegarb/crawler/UrlNormalizer.java:28-33 | text after a special scheme and `://` that parses is a URL of that scheme |
| Url.SerializeIsTrimmed | src/main/java/com/joegarb/crawler/UrlNormalizer.java:23-33 | a serialized URL without a fragment has no surrounding whitespace to trim |
| Url.SerializeHasSeparator | src/main/java/com/joegarb/crawler/UrlNormalizer.java:28-33 | a serialized URL has its first `://` right after the scheme, so normalizing it again adds no `http://` |
| Url.CaretEncoded | src/main/java/com/joegarb/crawler/UrlNormalizer.java:33 | `^` is in the path percent-encode set and is stored in a path as `%5E` |
| Url.FragmentEncoded | src/main/java/com/joegarb/crawler/UrlNormalizer.java:33 | space and backquote are in the fragment percent-encode set, while `#` in a fragment is kept |
| Strings.Trim | src/main/java/com/joegarb/crawler/UrlNormalizer.java:23 | `String.trim`: the input with its leading and then its trailing characters at or below U+0020 removed |
| Strings.TrimIsSlice | src/main/java/com/joegarb/crawler/UrlNormalizer.java:23 | the trim is the slice of the input left after cutting only trimmable characters from both ends, and it neither starts nor ends with one |
| Strings.TrimIdempotent | src/main/java/com/joegarb/crawler/UrlNormalizer.java:23 | trimming a trimmed string changes nothing |
| Strings.TrimPadding | src/main/java/com/joegarb/crawler/UrlNormalizer.java:23 | whitespace around a string does not change its trim |
| Strings.TrimEmptyIff | src/main/java/com/joegarb/crawler/UrlNormalizer.java:24 | a string trims to empty exactly when all its characters are trimmable |
| Strings.IndexOfFrom | src/main/java/com/joegarb/crawler/UrlNormalizer.java:28 | the position found is an occurrence with none before it, and no position is found only when there is no occurrence |
| Strings.IndexOfIsFirst | src/main/java/com/joegarb/crawler/UrlNormalizer.java:28 | the first occurrence is the one found |
| Strings.Contains | src/main/java/com/joegarb/crawler/UrlNormalizer.java:28 | `String.contains`: some occurrence of the text is found |
| Strings.ToLower | src/main/java/com/joegarb/crawler/UrlNormalizer.java:62 | `String.toLowerCase` on ASCII: same length, each upper-case ASCII letter replaced by its lower-case letter and every other character kept |
| Strings.ToLowerIdempotent | src/main/java/com/joegarb/crawler/UrlNormalizer.java:62 | lower-casing twice is lower-casing once |
| Strings.NatToStringRoundTrip | src/main/java/com/joegarb/crawler/Configuration.java:98-100 | reading back the decimal digits of a number gives the number |
| Strings.IntToString | src/main/java/com/joegarb/crawler/PageFetcher.java:58 | `String.valueOf(int)`: a `-` for a negative number, then its decimal digits |
| UrlNormalizer.WithScheme | src/main/java/com/joegarb/crawler/UrlNormalizer.java:28-30 | the text handed to the parser always contains `://`, and is the input itself when the input had one |
| UrlNormalizer.WithSchemeAddsHttp | src/main/java/com/joegarb/crawler/UrlNormalizer.java:28-30 | without `://` the parser sees `http://` followed by the input |
| UrlNormalizer.Normalize | src/main/java/com/joegarb/crawler/UrlNormalizer.java:18-38 | the result is `null` exactly when the input is `null` |
| UrlNormalizer.NormalizeFallsBack | src/main/java/com/joegarb/crawler/UrlNormalizer.java:23-37 | a blank input, or one the parser rejects, comes back as given, untrimmed |
| UrlNormalizer.NormalizeSucceeds | src/main/java/com/joegarb/crawler/UrlNormalizer.java:32-33 | otherwise the result is the parsed URL without its fragment, re-serialized |
| UrlNormalizer.Canonical | src/main/java/com/joegarb/crawler/UrlNormalizer.java:33 | the URL a successful normalization serializes is well formed and has no fragment |
| UrlNormalizer.NormalizedParsesBack | src/main/java/com/joegarb/crawler/UrlNormalizer.java:33 | a successful result parses back to that URL and contains no `#` |
| UrlNormalizer.NormalizeIdempotent | src/main/java/com/joegarb/crawler/UrlNormalizer.java:18-38 | normalizing twice gives what normalizing once gives, for every input including `null`, blank and unparseable ones |
| UrlNormalizer.NormalizeIgnoresPadding | src/main/java/com/joegarb/crawler/UrlNormalizer.java:23 | whitespace around a parseable input does not change its normal form |
| UrlNormalizer.NormalizeAssumesHttp | src/main/java/com/joegarb/crawler/UrlNormalizer.java:28-30 | an input without `://` normalizes as `http://` followed by its trim, and becomes an `http` URL |
| UrlNormalizer.NormalizeComposed | src/test/java/com/joegarb/crawler/UrlNormalizerTest.java:11-34 | normalizing a URL's text lower-cases scheme and host, drops a default port, keeps any other port, keeps path (empty as `/`) and query, and drops the fragment |
| UrlNormalizer.ExtractSubdomain | src/main/java/com/joegarb/crawler/UrlNormalizer.java:47-68 | a host that is returned is host text already in lower case |
| UrlNormalizer.ExtractSubdomainOfNormalized | src/main/java/com/joegarb/crawler/UrlNormalizer.java:47-68 | the host of a normalized url is the host of the original input, `null` included |
| FrontierStore.Insert | src/main/java/com/joegarb/crawler/FrontierStore.java:50-56 | `addUrl`: a `null` normal form inserts nothing; otherwise `INSERT OR IGNORE` of the normal form |
| FrontierStore.InsertRow | src/main/java/com/joegarb/crawler/FrontierStore.java:52-55 | `INSERT OR IGNORE`: a url already stored leaves the table alone; a new one is appended with the next id, the current time and no claim, and the id counter advances |
| FrontierStore.InsertAll | src/main/java/com/joegarb/crawler/FrontierStore.java:66-80 | `addUrls`: `addUrl` of each url in list order |
| FrontierStore.Next | src/main/java/com/joegarb/crawler/FrontierStore.java:89-103 | `getNextUrl`: no row when every row is claimed; otherwise the id and url of the oldest unclaimed row, which gets `claimed_at` set to now |
| FrontierStore.CountClaimed | src/main/java/com/joegarb/crawler/FrontierStore.java:113-117 | `COUNT(*)` of the rows whose `claimed_at` is set |
| FrontierStore.OldestUnclaimed | src/main/java/com/joegarb/crawler/FrontierStore.java:91-93 | the row chosen is unclaimed, has the smallest `added_at` among unclaimed rows, and is the first such row; none is chosen exactly when every row is claimed |
| FrontierStore.Remove | src/main/java/com/joegarb/crawler/FrontierStore.java:131-137 | the rows left are exactly the rows whose id differs, and there are no more of them than before |
| FrontierStore.EmptyInvariant | src/main/java/com/joegarb/crawler/FrontierStore.java:29-36 | a freshly created table satisfies the invariant |
| FrontierStore.InvariantLater | src/main/java/com/joegarb/crawler/FrontierStore.java:34-35 | the invariant survives the clock moving forward |
| FrontierStore.InsertRowPreservesInvariant | src/main/java/com/joegarb/crawler/FrontierStore.java:52-55 | `INSERT OR IGNORE` of a url in normal form keeps the invariant |
| FrontierStore.InsertPreservesInvariant | src/main/java/com/joegarb/crawler/FrontierStore.java:50-56 | `addUrl` keeps the invariant for every input |
| FrontierStore.InsertNull | src/main/java/com/joegarb/crawler/FrontierStore.java:33 | a `null` url inserts nothing |
| FrontierStore.InsertStoresNormalized | src/main/java/com/joegarb/crawler/FrontierStore.java:50-56 | afterwards the normal form is stored in exactly one row and old rows are unchanged; a new row is last, unclaimed, added now, with an id above every issued id, and the counter moves past it |
| FrontierStore.InsertSameNormalForm | src/main/java/com/joegarb/crawler/FrontierStore.java:50-56 | adding a url whose normal form is already stored, such as the same url twice, changes nothing |
| FrontierStore.InsertKeepsClaims | src/main/java/com/joegarb/crawler/FrontierStore.java:52 | inserting keeps every existing row, claims included |
| FrontierStore.InsertAllEmpty | src/main/java/com/joegarb/crawler/FrontierStore.java:66-69 | an empty batch changes nothing |
| FrontierStore.InsertAllConcat | src/main/java/com/joegarb/crawler/FrontierStore.java:73-78 | a batch acts as its first part followed by its second part |
| FrontierStore.InsertAllPreservesInvariant | src/main/java/com/joegarb/crawler/FrontierStore.java:66-80 | `addUrls` keeps the invariant |
| FrontierStore.InsertAllStoresEach | src/main/java/com/joegarb/crawler/FrontierStore.java:66-80 | after a batch every earlier row is still there and every non-null url of the batch is stored in its normal form |
| FrontierStore.OldestIsFirstUnclaimed | src/main/java/com/joegarb/crawler/FrontierStore.java:90-94 | under the invariant the row claimed is the first unclaimed row in insertion order |
| FrontierStore.NextNoneIff | src/main/java/com/joegarb/crawler/FrontierStore.java:89-103 | a claim returns `null` exactly when every row is claimed, and then changes nothing |
| FrontierStore.NextClaimsOldest | src/main/java/com/joegarb/crawler/FrontierStore.java:90-98 | a successful claim returns the id and url of an unclaimed row with the smallest `added_at`, marks it claimed now, and leaves every other row and the id counter alone |
| FrontierStore.NextPreservesInvariant | src/main/java/com/joegarb/crawler/FrontierStore.java:89-103 | a claim keeps the invariant |
| FrontierStore.ClaimedNeverReturned | src/main/java/com/joegarb/crawler/FrontierStore.java:92 | a row that is already claimed is never returned |
| FrontierStore.NextTwiceDistinct | src/main/java/com/joegarb/crawler/FrontierStore.java:89-103 | two claims in a row never return the same row |
| FrontierStore.CountClaimedPositive | src/main/java/com/joegarb/crawler/FrontierStore.java:113-117 | the count of claimed rows is positive exactly when some row is claimed |
| FrontierStore.RemoveUnknown | src/main/java/com/joegarb/crawler/FrontierStore.java:131-137 | removing an id no row has changes nothing |
| FrontierStore.RemoveKnown | src/main/java/com/joegarb/crawler/FrontierStore.java:131-137 | removing the id of row `k` removes row `k` alone and keeps the others in order |
| FrontierStore.RemovePreservesInvariant | src/main/java/com/joegarb/crawler/FrontierStore.java:131-137 | removing a row keeps the invariant |
| FrontierStore.Frontier.constructor | src/main/java/com/joegarb/crawler/FrontierStore.java:29-36 | a new table is empty, its first id is 1, and it is valid |
| FrontierStore.Frontier.Tick | src/main/java/com/joegarb/crawler/FrontierStore.java:34 | the clock behind `datetime('now')` advances and the table stays valid |
| FrontierStore.Frontier.AddUrl | src/main/java/com/joegarb/crawler/FrontierStore.java:50-56 | the new table is `Insert` of the old one at the current clock, and stays valid |
| FrontierStore.Frontier.InsertOrIgnore | src/main/java/com/joegarb/crawler/FrontierStore.java:52-55 | the new table is `InsertRow` of the old one, and stays valid |
| FrontierStore.Frontier.AddUrls | src/main/java/com/joegarb/crawler/FrontierStore.java:66-80 | a `null` list changes nothing; otherwise the new table is `InsertAll` of the old one, the urls added one by one in order |
| FrontierStore.Frontier.GetNextUrl | src/main/java/com/joegarb/crawler/FrontierStore.java:89-103 | the returned row and the new table are `Next` of the old table at the current clock, and the table stays valid |
| FrontierStore.Frontier.HasClaimedUrls | src/main/java/com/joegarb/crawler/FrontierStore.java:112-122 | true exactly when some row is claimed |
| FrontierStore.Frontier.RemoveUrl | src/main/java/com/joegarb/crawler/FrontierStore.java:131-137 | the new rows are `Remove` of the old rows, the counter is unchanged, and the table stays valid |
| MetadataStore.Crawled | src/main/java/com/joegarb/crawler/MetadataStore.java:63-72 | `hasBeenCrawled` on the table: the normal form of the url is not `null` and is a key of the table |
| MetadataStore.NeverMarked | src/main/java/com/joegarb/crawler/MetadataStore.java:63-72 | nothing counts as crawled in a fresh table |
| MetadataStore.MarkNormalizedThenCrawled | src/main/java/com/joegarb/crawler/MetadataStore.java:47-72 | after marking the normal form of a url, the url and its normal form both count as crawled |
| MetadataStore.MarkVerbatimMisses | src/main/java/com/joegarb/crawler/MetadataStore.java:47-72 | a url that is not its own normal form, marked as given, is not found unless its normal form was marked too |
| MetadataStore.MarkKeepsOthers | src/main/java/com/joegarb/crawler/MetadataStore.java:47-53 | marking adds or replaces one record, keeps every other record, and removes none |
| MetadataStore.RemarkReplaces | src/main/java/com/joegarb/crawler/MetadataStore.java:26-53 | re-marking replaces the record: the earlier marking leaves no trace |
| MetadataStore.RemarkIsLater | src/main/java/com/joegarb/crawler/MetadataStore.java:26-53 | once the clock has advanced, re-marking gives a strictly later timestamp, and no timestamp is in the future |
| MetadataStore.CrawledUrls.constructor | src/main/java/com/joegarb/crawler/MetadataStore.java:26-31 | a new table is empty and valid |
| MetadataStore.CrawledUrls.Tick | src/main/java/com/joegarb/crawler/MetadataStore.java:30 | the clock behind `datetime('now')` advances and the table stays valid |
| MetadataStore.CrawledUrls.MarkAsCrawled | src/main/java/com/joegarb/crawler/MetadataStore.java:47-53 | the url as given now maps to the current clock; a `null` url adds an unreachable row |
| MetadataStore.CrawledUrls.HasBeenCrawled | src/main/java/com/joegarb/crawler/MetadataStore.java:63-72 | the answer is `Crawled` of the table, so the lemmas about `Crawled` apply to it; never true for `null` |
| LinkExtractor.StepOf | src/main/java/com/joegarb/crawler/LinkExtractor.java:40-57 | one anchor: an empty `href` or an invalid one is skipped, any other resolution failure ends the extraction, and a resolved URL is normalized and kept only when its host is exactly the target |
| LinkExtractor.Extracted | src/main/java/com/joegarb/crawler/LinkExtractor.java:26-64 | `extractLinks`: nothing without a target or for a page that does not parse; otherwise the kept links of the anchors in document order, up to the first failure |
| LinkExtractor.VisitAnchor | src/main/java/com/joegarb/crawler/LinkExtractor.java:40-57 | one turn of the loop: an empty `href` or an invalid one is skipped, another failure ends it, and a resolved link is kept, normalized, when its host is the target |
| LinkExtractor.ExtractLinks | src/main/java/com/joegarb/crawler/LinkExtractor.java:26-64 | the links returned are the steps of the anchors gathered in order up to the first failure |
| LinkExtractor.NoTargetNoLinks | src/main/java/com/joegarb/crawler/LinkExtractor.java:30-33 | without a target host no link is returned |
| LinkExtractor.SkippedAnchor | src/main/java/com/joegarb/crawler/LinkExtractor.java:41-57 | empty and unresolvable `href` values add nothing, and later anchors are still read |
| LinkExtractor.OnTargetKept | src/main/java/com/joegarb/crawler/LinkExtractor.java:47-54 | a resolved anchor on the target host is returned, normalized, before the later links |
| LinkExtractor.CollectConcat | src/main/java/com/joegarb/crawler/LinkExtractor.java:39-58 | without failures, the links of a page are those of its first anchors followed by those of the rest, so order and duplicates are kept |
| LinkExtractor.CollectStopsAtFailure | src/main/java/com/joegarb/crawler/LinkExtractor.java:35-63 | a failure keeps the links gathered before it and drops those after it |
| LinkExtractor.CollectLength | src/main/java/com/joegarb/crawler/LinkExtractor.java:39-58 | there are never more links than anchors |
| LinkExtractor.KeptAnchor | src/main/java/com/joegarb/crawler/LinkExtractor.java:40-54 | an anchor adds a link only if its `href` is non-empty and resolves, and the link is the normalized resolution with the target host |
| LinkExtractor.CollectedLinks | src/main/java/com/joegarb/crawler/LinkExtractor.java:39-58 | every link returned is the normalized resolution of a non-empty `href` and has exactly the target host |
| LinkExtractor.SubdomainLinksDropped | src/main/java/com/joegarb/crawler/LinkExtractor.java:51-53 | a link on a subdomain of the target host is never returned |
| LinkExtractor.KeptByResolvedHost | src/main/java/com/joegarb/crawler/LinkExtractor.java:48-52 | whether a resolved link is kept depends only on the host of the resolved URL |
| PageFetcher.Success | src/main/java/com/joegarb/crawler/PageFetcher.java:52-54 | `FetchResult.success`: successful, with the response and no error message |
| PageFetcher.HttpError | src/main/java/com/joegarb/crawler/PageFetcher.java:56-59 | `FetchResult.httpError`: unsuccessful, with the response and the message `HTTP error: ` + status + ` ` + URI |
| PageFetcher.Failure | src/main/java/com/joegarb/crawler/PageFetcher.java:61-63 | `FetchResult.failure`: unsuccessful, no response, the given message |
| PageFetcher.HttpStatusCode | src/main/java/com/joegarb/crawler/PageFetcher.java:70-72 | `httpStatusCode`: the status of the response, `null` without one |
| PageFetcher.IsHtml | src/main/java/com/joegarb/crawler/PageFetcher.java:79-86 | `isHtml`: there is a response and its lower-cased `Content-Type` (empty when absent) contains `text/html` |
| PageFetcher.Fetch | src/main/java/com/joegarb/crawler/PageFetcher.java:95-128 | `fetch`: a 2xx response is a success and any other response an HTTP error; an I/O error, an interrupt and an invalid URL are failures with `Network error: `, `Interrupted` and `Invalid URL: ` messages |
| PageFetcher.DiagnoseFetch | src/main/java/com/joegarb/crawler/PageFetcher.java:95-128 | the outcome of every fetch, exception message included, can be read back from its result |
| PageFetcher.FetchSuccess | src/main/java/com/joegarb/crawler/PageFetcher.java:52-116 | a fetch succeeds exactly on a 2xx response, and exactly when it carries no error message |
| PageFetcher.FetchResponse | src/main/java/com/joegarb/crawler/PageFetcher.java:52-72 | a result keeps the response exactly when one arrived, and its status code is then the response's status and otherwise `null` |
| PageFetcher.HttpErrorMessage | src/main/java/com/joegarb/crawler/PageFetcher.java:56-59 | a non-2xx response has an error message starting with `HTTP error: `, the status code and a space (the URI follows) |
| PageFetcher.NoResponseNotHtml | src/main/java/com/joegarb/crawler/PageFetcher.java:79-82 | a result without a response is not HTML |
| PageFetcher.IsHtmlIgnoresCase | src/main/java/com/joegarb/crawler/PageFetcher.java:83-85 | the HTML check ignores letter case in `Content-Type` |
| PageFetcher.HtmlContentType | src/main/java/com/joegarb/crawler/PageFetcher.java:79-86 | a `Content-Type` starting `text/html` in any case makes the page HTML, for an error response too |
| Configuration.GetProperty | src/main/java/com/joegarb/crawler/Configuration.java:70-87 | `getProperty`: a non-empty environment value, else a non-empty property, else the default |
| Configuration.GetIntProperty | src/main/java/com/joegarb/crawler/Configuration.java:97-110 | `getIntProperty`: the setting read with the default written in decimal, parsed as an `int`, and the default when it does not parse |
| Configuration.ParseBoolean | src/main/java/com/joegarb/crawler/Configuration.java:126-139 | the boolean vocabulary, read after lower-casing and trimming: `true`, `1`, `yes` and `false`, `0`, `no`; anything else is no boolean |
| Configuration.GetBooleanProperty | src/main/java/com/joegarb/crawler/Configuration.java:120-140 | `getBooleanProperty`: the setting read with the default written as text, and the default when it is outside the vocabulary |
| Configuration.Load | src/main/java/com/joegarb/crawler/Configuration.java:16-39 | the seven settings, each read with its own property key, environment variable and default |
| Configuration.ParseInt | src/main/java/com/joegarb/crawler/Configuration.java:100 | a parsed value is always an `int` |
| Configuration.ParseIntRoundTrip | src/main/java/com/joegarb/crawler/Configuration.java:98-100 | parsing the decimal text of any `int` gives that `int` back |
| Configuration.EnvironmentWins | src/main/java/com/joegarb/crawler/Configuration.java:72-76 | a non-empty environment value wins |
| Configuration.PropertyThenDefault | src/main/java/com/joegarb/crawler/Configuration.java:79-86 | otherwise a non-empty property wins, and otherwise the default |
| Configuration.EmptyIsAbsent | src/main/java/com/joegarb/crawler/Configuration.java:70-87 | empty values count as absent |
| Configuration.IntPropertyFallsBack | src/main/java/com/joegarb/crawler/Configuration.java:97-110 | a value that is not an `int` literal gives the default |
| Configuration.IntPropertyRange | src/main/java/com/joegarb/crawler/Configuration.java:97-110 | an integer setting is always an `int`, and with nothing configured it is the default |
| Configuration.IntPropertyReads | src/main/java/com/joegarb/crawler/Configuration.java:97-100 | a configured `int` written in decimal is read as that number |
| Configuration.ParseBooleanIgnoresCaseAndPadding | src/main/java/com/joegarb/crawler/Configuration.java:126 | case and surrounding whitespace do not change how a boolean is read |
| Configuration.ParseBooleanVocabulary | src/main/java/com/joegarb/crawler/Configuration.java:126-139 | `true`/`1`/`yes` read as true, `false`/`0`/`no` as false, both directions |
| Configuration.BooleanDefaultRoundTrip | src/main/java/com/joegarb/crawler/Configuration.java:122 | a boolean default written as text reads back as itself |
| Configuration.DefaultSettings | src/main/java/com/joegarb/crawler/Configuration.java:16-39 | with nothing configured the settings are the documented defaults |
| CrawlerMain.FirstPositional | src/main/java/com/joegarb/crawler/Main.java:23-29 | a start URL exists exactly when some argument is positional, and it is the first of them |
| CrawlerMain.ParseArgs | src/main/java/com/joegarb/crawler/Main.java:19-29 | worker mode holds exactly when `--worker` is among the arguments, and the start URL is the first positional argument |
| CrawlerMain.UsageError | src/main/java/com/joegarb/crawler/Main.java:32-35 | the usage error: no `--worker` and no start URL |
| CrawlerMain.UsageErrorIff | src/main/java/com/joegarb/crawler/Main.java:32-35 | the usage error happens exactly when every argument is a `--` option other than `--worker` |
| CrawlerMain.OtherOptionsIgnored | src/main/java/com/joegarb/crawler/Main.java:23-29 | `--` options other than `--worker`, wherever they appear, change neither result |
| CrawlerMain.LaterPositionalIgnored | src/main/java/com/joegarb/crawler/Main.java:26-28 | positional arguments after the start URL are ignored |
| CrawlerMain.Start | src/main/java/com/joegarb/crawler/Main.java:31-47 | exit status 1 exactly on a usage error; in normal mode the frontier becomes `Insert` of the start URL; otherwise it is unchanged |
| CrawlerMain.SeedIsNormalized | src/main/java/com/joegarb/crawler/Main.java:38-43 | seeding stores the normal form of the start URL, and seeding again changes nothing |

## Left out

- Url.Parse: the percent-encode sets are those of the current URL Standard (its path set includes `^`; fragments are encoded with the fragment set). The galimatias library the crawler calls implements an earlier version of the standard, whose sets differ in places; galimatias is not part of this model.
- The URL parser covers only the special schemes with `scheme://host[:port]...` text. It has no userinfo, no IPv4 or IPv6 hosts, no IDNA, no percent-decoding of the host, and no relative or non-special URLs. It removes no `.` or `..` path segments.
- UrlNormalizer.ExtractSubdomain: the branch for a parsed URL without a host is absent, because every URL the modelled parser accepts has a host.
- Lower-casing (`Strings.ToLower`) and trimming cover Java's behaviour on ASCII letters and on code points up to U+0020. Other Unicode case mappings are not modelled.
- Configuration.ParseInt: Unicode digits outside `0`-`9`, which `Integer.parseInt` also accepts, are not modelled.
- The database is an in-memory table. SQL atomicity, concurrent workers and `SQLException` paths are not modelled, and neither are the `DatabaseManager` and `Worker` classes.
- Starting and joining the worker threads in `Main.main` is concurrency; it is not modelled. Neither is the interrupt flag that `fetch` restores with `Thread.currentThread().interrupt()` before returning its `Interrupted` failure.
- Logging is not modelled. `loadProperties` and `System.getenv` are I/O: the environment and the properties file are parameters.
- `datetime('now')` is a natural-number clock advanced by `Tick`; SQLite's one-second text timestamps are not modelled.
- FrontierStore.OldestUnclaimed: when several unclaimed rows share the smallest `added_at`, the SQL leaves the choice open. The model takes the first of them in table order.
- FrontierStore.Entry: ids are unbounded naturals. The 64-bit limit of `long` and `AUTOINCREMENT` is not modelled. An ignored `INSERT OR IGNORE` leaves the model's id counter alone; SQLite may advance its sequence then, which the model does not capture.
- MetadataStore.CrawledUrls.MarkAsCrawled: rows with a `NULL` url are only counted. No lookup can find them.
- The HTTP request itself is represented by its outcome: the timeout, redirects, the `User-Agent` header and the exception `URI.create` throws for an invalid url. `getUserAgent` reads package metadata and is not modelled.
- `fetch(null)` is not modelled: it throws a `NullPointerException` that `fetch` does not catch.
- Jsoup parsing is represented by the list of `href` values in document order, or by a parse failure. Resolution against the base URL is a function parameter.
- `FAILED_RETRY_INTERVAL_SECONDS` and `SUCCESS_REFRESH_INTERVAL_SECONDS` are loaded like the other settings; nothing in the core uses them.
