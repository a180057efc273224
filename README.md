# Crawler post-processing and API gating, in Dafny

This project models the deterministic core of a small website crawler built on a
headless-browser crawling library and an Express control API. The crawl itself is
delegated to the library: visit order, same-domain enqueueing, the request budget,
retries and navigation timeouts. What the repository's own code decides is modelled here:

- **Link post-processing** in three crawler variants:
  - the raw-href filter of the text-and-links crawler (`javascript:` and `#` prefixes, empty
    values) with `Set` deduplication;
  - the link collector of the page crawler with link buckets (trim, skip blanks and
    unresolvable hrefs, keep `http:`/`https:` only, strip the fragment, deduplicate), and its
    split into internal and external links by exact hostname equality;
  - the `startsWith('http')` filter of the simple page crawler.
- **Contact extraction.** Three global regular expressions are written as scanners with
  JavaScript's global-match semantics (leftmost, greedy, non-overlapping):
  - e-mail `/[A-Z0-9._%+-]+@[A-Z0-9.-]+\.[A-Z]{2,}/gi`;
  - generic phone `/(\+?\d[\d\-\s]{7,}\d)/g`;
  - Dutch mobile `/(\+31|0)6\s?\d{8}/g`.

  The model also covers the deduplication of their matches and the numeric `contactFound`
  value.
- **Keyword candidates.** A case-insensitive test for `contact|about|over|impressum|legal|team`,
  then the first five links that pass.
- **Crawler options.** `??` defaults for the navigation timeout (30) and the retry count (3).
- **API gating** in the Express server:
  - the token middleware, through the `x-api-token` header or HTTP Basic authentication
    (RFC 7617 section 2);
  - `/run` body validation and its reply with the `pages` projection;
  - the `run-` prefix selection of "delete all".

Module layout:
- `Seqs` holds filtering, `Set`-order deduplication and the order-preserving subsequence
  relation.
- `Js` holds the JavaScript string semantics used: white space, `trim`, `startsWith`, `split`,
  truthiness and `??`.
- `Patterns` holds the three regular expressions.
- `Urls` holds parsed URLs, their serialisation and reading a hostname back.
- There is one module per source file: `TextLinksCrawler`, `ExternalLinksCrawler`,
  `SimplePageCrawler`, `ContactCrawler` and `ApiServer`.

The link collector and the internal/external split are loops in the source. They are methods
here, proved against the functions that specify them. Everything else is written as functions
and lemmas, because the source writes it as filter/map/`Set` expression chains.

The code has no crawl frontier, priority tiers, politeness delay or retry state machine, so
none is modelled. Three details of the code matter for what is proved:
- The candidate-link keywords are exactly the six words above.
- `contactFound` is `emails.length || phones.length`, a number, not a boolean.
- Only exact-string duplicates are merged.

## Model

| member | source | states |
|---|---|---|
| `Seqs.DedupSpec` | crawlers/textLinksCrawler.js:23-26 | `[...new Set(xs)]` holds every value of `xs` and nothing else, once each, as a subsequence of `xs`, in order of first occurrence |
| `Seqs.FilterMembers` | crawlers/textLinksCrawler.js:25 | `xs.filter(p)` keeps exactly the elements of `xs` that satisfy `p` |
| `TextLinksCrawler.LinksSpec` | crawlers/textLinksCrawler.js:22-27 | `links` is duplicate-free and in first-occurrence order among the raw hrefs; every entry is an unmodified raw href that is non-empty and does not start with `javascript:` or `#`; every such href is present |
| `TextLinksCrawler.MixedCaseJavascriptKept` | crawlers/textLinksCrawler.js:25 | the prefix tests are case-sensitive: `JavaScript:void(0)` survives, while `javascript:` and `#` hrefs are dropped |
| `TextLinksCrawler.ContactFound` | crawlers/textLinksCrawler.js:35 | `contactFound` is `emails.length` when that is non-zero and `phones.length` otherwise; it is non-zero exactly when either list is non-empty |
| `TextLinksCrawler.ContactFoundIffMatch` | crawlers/textLinksCrawler.js:30-35 | the contact value is truthy exactly when the e-mail or phone expression matches at some position of the text, that is when some piece of the text is in either language |
| `TextLinksCrawler.CandidateLinksSpec` | crawlers/textLinksCrawler.js:38-40 | the candidates number min(5, number of keyword links); each is a keyword link from `links`; they form an order-preserving subsequence; no keyword link is skipped in favour of a later one |
| `TextLinksCrawler.PageRecordSpec` | crawlers/textLinksCrawler.js:42-50 | the one record per page has the page URL and the trimmed text, duplicate-free links, duplicate-free e-mails and phones of the right shape found in the text, the contact value, and at most five candidates taken from the links |
| `Patterns.MatchAt` | crawlers/textLinksCrawler.js:30-31 | a match anchored at a position ends inside the text, and the matched text is in the language of its expression |
| `Patterns.MatchAtComplete` | crawlers/textLinksCrawler.js:30-31 | wherever a piece of the text starting at a position is in the expression's language, the anchored match succeeds there and is at least that long, so it is the longest such piece |
| `Patterns.MatchAtNoneIff` | crawlers/textLinksCrawler.js:30-31 | the anchored match fails at a position exactly when no piece of the text starting there is in the expression's language |
| `Patterns.Scan` | crawlers/textLinksCrawler.js:32-33 | the global search returns start/end pairs that lie inside the text, are non-empty, and do not overlap, in left-to-right order |
| `Patterns.SpanMatched` | crawlers/textLinksCrawler.js:32-33 | every span the global search returns is one the anchored expression accepts at the span's start |
| `Patterns.SpansEmpty` | crawlers/textLinksCrawler.js:32-33 | the global search returns nothing exactly when the expression matches at no position, that is when no piece of the text is in its language |
| `Patterns.SpansCoverEveryMatch` | crawlers/textLinksCrawler.js:32-33 | the global search skips no match: every position where a piece in the expression's language starts lies inside a span found, before, between or after the others |
| `Patterns.NoMatchNoResult` | crawlers/contactCrawler.js:15-16 | `s.match(rx)` (or `[]` when it yields `null`) is empty exactly when no position matches, that is when no piece of the text is in the expression's language, and the same holds after deduplication |
| `Patterns.DistinctMatchesSpec` | crawlers/textLinksCrawler.js:32-33 | deduplicated matches are duplicate-free, are exactly the distinct matches, each in the expression's language and a piece of the text, in first-occurrence order |
| `Patterns.PhoneMatchLength` | crawlers/textLinksCrawler.js:31 | a generic phone match has at least 9 characters, or at least 10 when it starts with `+` |
| `ContactCrawler.DistinctListSpec` | crawlers/contactCrawler.js:7-16 | each list is duplicate-free, holds exactly the matches of its expression in the raw HTML, each a piece of the HTML in the expression's language, in first-occurrence order, and is empty exactly when no piece of the HTML is in the expression's language |
| `ContactCrawler.RecordSpec` | crawlers/contactCrawler.js:13-18 | the record `{url, emails, phones}` has the page URL and two deduplicated lists of shaped matches found in the HTML, with every match present |
| `ContactCrawler.CaseVariantsBothKept` | crawlers/contactCrawler.js:15 | dedup is by exact string: `A@B.com a@b.com` yields both addresses, in page order |
| `SimplePageCrawler.SettingsDefaults` | crawlers/simplePageCrawler.js:16-17 | each setting takes its default (30 s, 3 retries) only when the option is absent, `null` or `undefined`; any other value passes unchanged |
| `SimplePageCrawler.ExplicitZeroKept` | crawlers/simplePageCrawler.js:16-17 | explicit `0` options are kept, not replaced by the defaults |
| `SimplePageCrawler.LinksSpec` | crawlers/simplePageCrawler.js:33-38 | every link is a trimmed `a.href` that textually starts with `http`; every such trimmed value is present; duplicate-free; first-occurrence order among the trimmed values |
| `SimplePageCrawler.DistinctLinksKept` | crawlers/simplePageCrawler.js:35-37 | two hrefs with different trimmed values (differing only in the fragment, say) give two links in order: nothing beyond trimming is normalised |
| `SimplePageCrawler.HandlePage` | crawlers/simplePageCrawler.js:41-45 | the record `{url, textContent, links}` has the page URL, the trimmed text, and duplicate-free trimmed `http` links taken from the hrefs |
| `Urls.StripFragment` | crawlers/simplePageCrawlerWithExternalLinks.js:57 | `u.hash = ''` removes the fragment and changes no other component |
| `Urls.SerializeWithoutFragment` | crawlers/simplePageCrawlerWithExternalLinks.js:57-58 | a URL without a fragment serialises to a string with no `#` |
| `Urls.HostnameOfSerialize` | crawlers/simplePageCrawlerWithExternalLinks.js:71 | `new URL(u.toString()).hostname` is `u`'s host: serialisation loses nothing the split reads |
| `ExternalLinksCrawler.CollectAllLinks` | crawlers/simplePageCrawlerWithExternalLinks.js:46-64 | the collecting loop with its `Set` returns `[...new Set(...)]` of what each anchor contributes |
| `ExternalLinksCrawler.CollectSpec` | crawlers/simplePageCrawlerWithExternalLinks.js:49-58 | an anchor contributes exactly when its trimmed href is non-blank, resolves, and has scheme `http:` or `https:`; what it contributes starts with `http://` or `https://`, has no `#`, and its hostname is the resolved host |
| `ExternalLinksCrawler.BlankHrefSkipped` | crawlers/simplePageCrawlerWithExternalLinks.js:49-50 | an empty or whitespace-only href contributes nothing |
| `ExternalLinksCrawler.AllLinksSpec` | crawlers/simplePageCrawlerWithExternalLinks.js:47-63 | `allLinks` is duplicate-free, in first-occurrence order of the contributions, holds exactly the contributed strings, and every link is an http(s) URL without `#` whose hostname can be read |
| `ExternalLinksCrawler.SkippedHrefChangesNothing` | crawlers/simplePageCrawlerWithExternalLinks.js:51-61 | a skipped href (blank, unresolvable or not http(s)) leaves the result exactly as if it were absent: collection goes on |
| `ExternalLinksCrawler.FragmentVariantsMerge` | crawlers/simplePageCrawlerWithExternalLinks.js:57-58 | two hrefs whose URLs differ only in the fragment give one link |
| `ExternalLinksCrawler.SplitByHost` | crawlers/simplePageCrawlerWithExternalLinks.js:67-76 | the split loop puts into `internal` the links whose hostname is the start host and into `external` those with another readable hostname |
| `ExternalLinksCrawler.SplitSpec` | crawlers/simplePageCrawlerWithExternalLinks.js:67-76 | the buckets are disjoint, order-preserving subsequences of the links, internal exactly when the hostname equals the start host, duplicate-free for duplicate-free input, and together all links when every hostname is readable |
| `ExternalLinksCrawler.CollectedLinksSplitFully` | crawlers/simplePageCrawlerWithExternalLinks.js:67-76 | for collected links the two buckets together hold every link exactly once (multiset union) |
| `ExternalLinksCrawler.BucketOfAnchor` | crawlers/simplePageCrawlerWithExternalLinks.js:71-72 | an anchor's link is internal exactly when the host its href resolved to equals the start host, and external otherwise |
| `ExternalLinksCrawler.OnlyHostDecides` | crawlers/simplePageCrawlerWithExternalLinks.js:71-72 | URLs that share a host land in the same bucket, whatever their scheme, port, path or fragment |
| `ExternalLinksCrawler.WwwVariantExternal` | crawlers/simplePageCrawlerWithExternalLinks.js:72 | a `www.` variant of the start host is external: host equality is exact |
| `ExternalLinksCrawler.PhonesSpec` | crawlers/simplePageCrawlerWithExternalLinks.js:30-31 | every phone is `+31` or `0`, then `6`, at most one white-space character, then 8 digits (10 to 13 characters), and occurs in the text; there are none exactly when no piece of the text has that shape |
| `ExternalLinksCrawler.RepeatedPhoneKept` | crawlers/simplePageCrawlerWithExternalLinks.js:31 | phones are not deduplicated: a number that appears twice is listed twice |
| `ExternalLinksCrawler.HandlePage` | crawlers/simplePageCrawlerWithExternalLinks.js:20-89 | the record has the URL, the trimmed text, its Dutch phones, the WordPress flag (`wp-content` in the HTML), and the two buckets of the collected links, disjoint and together as long as `allLinks` |
| `ApiServer.UnsetTokenDisablesAuth` | api-server.js:13-15 | with `API_TOKEN` unset (or empty) every request passes, whatever headers it carries |
| `ApiServer.SetTokenEnforced` | api-server.js:13-28 | with a non-empty `API_TOKEN`, a request without credentials gets the 401 answer |
| `ApiServer.SecondField` | api-server.js:24 | the second `:`-field exists exactly when the text contains a colon, and it contains no colon |
| `ApiServer.BasicPassword` | api-server.js:23-24 | the credential field of a `Basic ` header always exists, and a decoded password never contains a colon |
| `ApiServer.Authorize` | api-server.js:14-29 | an empty token lets everything through, and so does an `x-api-token` header equal to the token; any other pass needs a `Basic ` header; every refusal is 401 with `WWW-Authenticate: Basic realm="Crawler"` and `{error:'unauthorized'}` |
| `ApiServer.LowerCaseSchemeRejected` | api-server.js:22 | a `basic ` header is refused whatever its credential: the scheme test is case-sensitive |
| `ApiServer.CredentialField` | api-server.js:23 | the credential is the second space-separated field, and text after a further space is ignored |
| `ApiServer.PasswordField` | api-server.js:24 | the password is the second `:`-separated field of the decoded text, and text after a further colon is cut off |
| `ApiServer.BasicCredentialsAccepted` | api-server.js:21-25 | a client that sends `Basic` with a credential decoding to `user-id:token` gets in, whatever the user-id |
| `ApiServer.BasicAcceptedExactly` | api-server.js:17-26 | without the header token, a request passes exactly when its authorization is `Basic `, a credential and optional text, and the credential decodes to `user:token` plus optional `:`-text |
| `ApiServer.ColonTruncatedPasswordAccepted` | api-server.js:24-25 | `user:tok:extra` is accepted for the token `tok` |
| `ApiServer.ColonTokenOnlyByHeader` | api-server.js:18-25 | a token containing `:` can never pass through Basic; only the `x-api-token` header lets such requests through |
| `ApiServer.ValidateRun` | api-server.js:36-39 | a body passes exactly when `crawler_type` is the string `text` and `startUrl` is truthy; `options` defaults to `{}` only when undefined |
| `ApiServer.ValidateRunExamples` | api-server.js:36-37 | another crawler type, a missing type, an empty or missing start URL are all refused; an explicit `null` for the options is passed on |
| `ApiServer.RunId` | api-server.js:41 | a run's dataset id is `run-` followed by at least one digit and only digits |
| `ApiServer.Pages` | api-server.js:47 | `pages` has the length and order of `items`, and `pages[i] = items[i].url` |
| `ApiServer.RunHandler` | api-server.js:35-58 | `/run` answers 400 with its message exactly when validation fails; for a valid body the reply is a success exactly when the crawl completes, with `status: 'ok'`, the run's `run-` dataset id, the crawl's own items and `pages` aligned with them; a crawl that fails gives 500 with the crawl's error message |
| `ApiServer.BadRequestRunsNoCrawl` | api-server.js:37-43 | for a refused body the reply does not depend on the crawl: no crawl runs |
| `ApiServer.PagesAreHandledUrls` | api-server.js:45-47 | when the dataset holds the text crawler's records, `pages` is the list of handled page URLs |
| `ApiServer.DeleteAll` | api-server.js:72-78 | delete-all replies `deleted-all` with a count equal to the number of directory entries whose names start with `run-` |
| `ApiServer.DeleteAllSpec` | api-server.js:76-78 | delete-all selects exactly the entries whose names start with `run-`, in listing order, and the count it reports is the number of directories it deletes |
| `ApiServer.RunDatasetsAreDeleted` | api-server.js:76 | every dataset that `/run` created is among those delete-all removes, and `default` is not |

## Left out

- Browser work is outside the model: rendering, removing script/style elements, `innerText`,
  choosing the `main,article,#content` root, `a.href` resolution, reading `outerHTML`, and
  jQuery detection. Their results are inputs (text, hrefs, HTML, jQuery version).
- Crawling-library behaviour is library-internal and concurrent: `enqueueLinks` with the
  same-domain strategy, `maxRequestsPerCrawl`, retries, navigation timeouts, and request
  queue order and deduplication. Only the option values handed to the library are modelled.
- Dataset I/O is left out: `Dataset.open`, `pushData`, `getData`, `Dataset.delete`,
  `fs.readdir` and the static file route. The crawl's result is an input of the `/run`
  handler. The delete loop and its failures (500 replies) are not modelled. Neither is the
  single-dataset delete route, which is only I/O.
- Express routing, `express.json` and `app.listen` are left out; only the decision functions
  are modelled.
- `Date.now()` is a parameter `now` of the `/run` handler.
- crawlers/sitemapCrawler.js is not part of this model. It is a network client over a foreign
  XML parser.
- WHATWG URL parsing is a parameter `resolve` that returns a parsed URL or fails (the thrown
  exception). Serialisation is written out only for URLs with an authority. IPv6 literal hosts
  are not covered. The http(s) URLs this applies to always have an authority.
- Node's base64 decoder is a parameter `decode`. The model does not say which strings it
  accepts or how it treats malformed input.
- Header values are single strings. Repeated headers are not modelled.
- Strings are sequences of `char`, not UTF-16 code units. No character class here contains a
  character outside the Basic Multilingual Plane.
- The `/run` body is modelled as a map of object fields. A JSON array body
  is treated as having none of the three properties, which is what destructuring reads from
  it.
