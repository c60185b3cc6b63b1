# michi_matome_crawler: acquisition core and export ranking in Dafny

This project models the crawling core of `michi_matome_crawler`. The crawler keeps a local
archive of road-trip blog articles.

## How a site is acquired

For each configured site, `fetch_and_store` first reads `<base>/sitemap.xml`:

- When the sitemap yields URLs, each URL is handed to `crawl_article`, in turn.
- The loop stops after the fifth new article (`MAX_NEW_PER_SITE`).

When the sitemap yields nothing, it falls back to `crawl_html`, a breadth-first crawl over a
persistent queue:

- Batches of ten pending URLs are taken from the queue.
- `crawl_page` enqueues every same-domain link of a page.
- `crawl_article` stores the page itself.
- A successfully crawled page is marked done.
- Crawling stops once the accumulated `new_count` reaches the cap.

## How an article is stored

`crawl_article` does four things, in order:

1. It honours a per-URL error backoff in the `error_sites` table (the `site` key of `error_sites` is the article's URL).
2. It fetches the page with `fetch_html`. The body is decoded with the first known encoding among:
   - the header's `charset=`;
   - a `charset` declaration sniffed from the first 4096 bytes;
   - statistical detection.
3. A 404 registers a seven-day backoff.
4. The page is stored insert-if-absent, keyed by its URL.

## Export

`export_json` reads every stored row (`ORDER BY published_at DESC`) and scores each one by three
Japanese patterns:

| pattern | meaning | score |
|---|---|---|
| `…道N号` | a numbered road | +5 |
| `…跡` | a historic site | +3 |
| `…道` | a road | +1 |

A title containing "404 Not Found" costs 3 points. The rows are then stable-sorted by
descending score.

## Model structure

| module | file | models |
|---|---|---|
| `Web` | `web.dfy` | The libraries: the HTTP client, HTML and XML parsers, URL parser, encodings and detector, as the `Env` record of total functions. Also `HeaderValue::to_str`. |
| `Strings` | `strings.dfy` | `find`, `contains`, `ends_with`, `trim`, `trim_end_matches` and `split(..).nth(1)` on `seq<char>`. |
| `Links` | `links.dfy` | `is_article_link`, `same_domain`, `normalize_url`. |
| `Charset` | `charset.dfy` | `fetch_html`: the status gate and the three-step encoding choice. The header split and the sniffing regular expression are modelled exactly. |
| `Sitemap` | `sitemap.dfy` | `fetch_sitemap`: the event loop with its `inside_loc` flag. |
| `Store` | `store.dfy` | `src/db.rs`: class `Db` with the `contents` and `error_sites` tables as maps. Also `insert`, `register_error`, `should_skip` and `fetch_all`. |
| `Frontier` | `frontier.dfy` | The crawl queue (`enqueue`, `next_pending`, `mark_done`), class `Queue`. |
| `Crawl` | `crawl.dfy` | `crawl_page`, `crawl_article`, `crawl_html`, `fetch_and_store`. |
| `Export` | `export.dfy` | `calculate_score` and `export_json`. |

Methods appear where the source updates state in place or loops:

- the store and queue operations;
- the link loop of `crawl_page`;
- the batch loop of `crawl_html`;
- the sitemap loop of `fetch_and_store`;
- the XML event loop;
- the export loop.

Each such method is proved against a function or state predicate. Properties of that function
or predicate are stated as lemmas.

## Where the code behaves unexpectedly

The model follows the code in each case:

- `MAX_NEW_PER_SITE` (src/blog.rs:14) is five. In the sitemap loop (src/blog.rs:41-48) it caps newly inserted articles: `counter` grows by one per insertion. `crawl_html` receives the same constant as `max_new`, but there it caps links, not articles. `new_count` grows by a page's count of newly enqueued links, and only when that page's article was newly inserted (src/blog.rs:132-134). So one article with five new links already ends the crawl, and an inserted page with no new links counts nothing.
- `same_domain` compares the `domain()` values, which are Options. Two URLs whose hosts are IP addresses therefore count as the same domain.
- `crawl_article` passes the page's own URL to `should_skip` and `register_error` (src/blog.rs:194, 208), so the `site` column of `error_sites` (src/db.rs:93, 142) holds article URLs. A 404 blocks only that page for seven days, not the rest of its web site.
- `fetch_sitemap` does not look at the HTTP status. A 404 page is parsed like a sitemap.
- `trim_end_matches('/')` strips every trailing slash of the base URL.
- The header charset is `split("charset=").nth(1)`: the text between the first and any second `charset=`, trimmed.
- `crawl_page` fails on a Content-Type header that is not visible ASCII (`to_str()?`), so such a page stays pending.

## Model

| member | source | states |
|---|---|---|
| Web.HeaderToStr | src/blog.rs:307 | `to_str` succeeds exactly on tab and printable-ASCII bytes, and then reads each byte as one char |
| Strings.TrimEndBy | src/blog.rs:60 | the result is a prefix ending in a kept char, and everything dropped matched the predicate |
| Strings.SecondPiece | src/blog.rs:308 | `split(sep).nth(1)` is None exactly when `sep` is absent; otherwise it is the text after the first `sep`, up to the next `sep` or the end, and contains no `sep` |
| Links.IsArticleLink | src/blog.rs:255-259 | true exactly when `/20` occurs in the href or it ends in `.html` |
| Links.SameDomain | src/blog.rs:262-270 | both URLs parse and their `domain()` values are equal |
| Links.SameDomainNeedsParse | src/blog.rs:262-270 | a URL that does not parse is on no domain, not even its own |
| Links.SameDomainSymmetric | src/blog.rs:262-270 | the same-domain test is symmetric |
| Links.SameDomainReflexive | src/blog.rs:262-270 | a URL is on its own domain exactly when it parses |
| Links.SameDomainTransitive | src/blog.rs:262-270 | the same-domain test is transitive |
| Links.SameDomainComparesDomainOption | src/blog.rs:267 | for parsed URLs the test is equality of `domain()`, so two domain-less hosts compare equal |
| Links.NormalizeUrl | src/blog.rs:272-284 | the joined serialisation when base and join succeed, else the href unchanged |
| Charset.CaptureAt | src/blog.rs:320-323 | a capture at `i` needs the literal `charset` there and is a non-empty run of label chars |
| Charset.CaptureDeclaration | src/blog.rs:320-323 | after any prefix, `charset`, white space, `=`, white space, at most one quote, a label and a rest not continuing it, the capture at the `charset` is exactly the label |
| Charset.CaptureIsDeclaration | src/blog.rs:320-323 | conversely, every capture at `i` is the label of such a declaration starting at `i` |
| Charset.DeclaredCapture | src/blog.rs:320-323 | the same criterion by positions: a match laid out at `i`, `k`, `m`, `q`, `e` captures exactly `t[q..e]` |
| Charset.CaptureDeclared | src/blog.rs:320-323 | every capture is laid out at such positions, and is the text between the last two |
| Charset.SniffLabel | src/blog.rs:320-323 | `re.captures(text)` and its first group: the capture at the leftmost match |
| Charset.MatchFrom | src/blog.rs:322 | the leftmost match position at or after `i`, and none before it |
| Charset.SniffLabelShape | src/blog.rs:320-323 | the sniffed label is the capture of the leftmost `charset` declaration; without `charset`, nothing is sniffed |
| Charset.SniffQuotedDeclaration | src/blog.rs:320 | `charset = 'name…` yields `name`: white space, `=` and the quote are skipped, and the label stops at the first non-label char |
| Charset.Head | src/blog.rs:318 | the sniff window is the first `min(len, 4096)` bytes |
| Charset.HeaderLabel | src/blog.rs:306-309 | the header label: `to_str` of the Content-Type, then the text after the first `charset=` up to any second one, trimmed |
| Charset.ChooseEncoding | src/blog.rs:305-339 | the header's encoding if its label is known, else the sniffed label's if known, else the detector's guess |
| Charset.HeaderWins | src/blog.rs:305-315 | a known header label decides the encoding, whatever the body |
| Charset.SniffedLabelNext | src/blog.rs:317-329 | with no usable header label, a known sniffed label decides, and it depends only on the window |
| Charset.SniffIgnoresTail | src/blog.rs:318 | bytes past 4096 cannot change the sniffed encoding |
| Charset.DetectorLast | src/blog.rs:331-339 | with neither label, the detector's guess decides |
| Charset.FetchHtml | src/blog.rs:291-340 | transport error ⇒ `Transport`; non-2xx ⇒ `HttpStatus(status, url)`; 2xx ⇒ always text, decoded with the chosen encoding |
| Charset.HeaderDeclaredLabel | src/blog.rs:306-309 | a header `prefix charset=name` with no `=` in the prefix declares exactly `name` |
| Charset.FindDeclaration | src/blog.rs:308 | in such a header the separator is found right after the prefix and not again |
| Charset.AsciiRoundTrip | src/blog.rs:307 | `to_str` of an ASCII string's bytes gives the string back |
| Sitemap.SitemapUrl | src/blog.rs:60 | the base with `trim_end_matches('/')`, then `/sitemap.xml` |
| Sitemap.SitemapUrlShape | src/blog.rs:60 | the sitemap URL is the base less all trailing slashes, plus `/sitemap.xml` |
| Sitemap.SitemapUrlIgnoresTrailingSlashes | src/blog.rs:60 | an extra trailing slash on the base does not change the sitemap URL |
| Sitemap.LocTexts | src/blog.rs:71-88 | the event fold: `loc` start and end tags set and clear the flag, text inside it is collected lossily, end of input or an error stops the fold |
| Sitemap.StopTruncates | src/blog.rs:83-84 | the end of input or a parse error ends the fold: later events are never read |
| Sitemap.NoLocNoUrls | src/blog.rs:73-79 | without a `loc` start tag, nothing is collected |
| Sitemap.EntryContributes | src/blog.rs:71-88 | one `<url><loc>u</loc></url>` entry contributes exactly `u` and leaves the flag clear |
| Sitemap.TwoEntrySitemap | src/blog.rs:71-94 | a two-entry sitemap yields both locations in document order |
| Sitemap.FetchSitemap | src/blog.rs:59-95 | the event loop returns the `loc` fold of the body, or an error on transport failure or no URLs |
| Store.Upsert | src/db.rs:97-107 | `ON CONFLICT(site) DO UPDATE`: the site's row becomes `(now, now + days, message)` |
| Store.InBackoff | src/db.rs:147-156 | a site is skipped exactly when it has a row and `now` is before its `retry_after` |
| Store.UpsertOverwrites | src/db.rs:97-107 | after `register_error` there is exactly one row for the site, with the new values; other rows are unchanged |
| Store.BackoffWindow | src/db.rs:142-157 | after an error at `at` with `d` days, the site is skipped exactly while `now < at + d` days; other sites are unaffected |
| Store.BackoffHoldsFromRegistration | src/db.rs:93-110 | with `d >= 1`, the site is skipped from the moment of registration until `d` days have passed |
| Store.SevenDayWindow | src/blog.rs:207-209 | the 404 row skips the site at registration and up to the last second of the seventh day, and not after |
| Store.LexLeTotal | src/db.rs:118 | text order is total |
| Store.LexLeTransitive | src/db.rs:118 | text order is transitive |
| Store.PublishedTotal | src/db.rs:118 | `published_at DESC` (NULLs last) is total |
| Store.PublishedTransitive | src/db.rs:118 | `published_at DESC` is transitive |
| Store.InsertByPublishedSorted | src/db.rs:118 | inserting a row keeps the list in `published_at DESC` order |
| Store.InsertByPublishedIds | src/db.rs:113-140 | inserting a row adds exactly that row and its id |
| Store.Db.constructor | src/db.rs:18-58 | both tables start empty |
| Store.Db.Insert | src/db.rs:61-91 | reports true exactly when the id is new; only then is the row added; an existing row is kept as it was |
| Store.Db.RegisterError | src/db.rs:93-110 | the error table becomes the upsert of `(now, now + days, message)` for the site |
| Store.Db.ShouldSkip | src/db.rs:142-157 | true exactly when the site has a row and `now` is before its `retry_after` |
| Store.Db.FetchAll | src/db.rs:113-140 | every stored row exactly once (ids equal the table's keys, count equals the table size), in `published_at DESC` order |
| Frontier.Queue.Enqueue | src/blog.rs:178 | true exactly for a first sighting, which becomes pending with its parent; a known URL is left alone |
| Frontier.Queue.NextPending | src/blog.rs:113 | `min(limit, #pending)` distinct pending URLs, empty only when nothing is pending |
| Frontier.Queue.MarkDone | src/blog.rs:136 | a known URL becomes done, nothing else changes |
| Crawl.Harvest | src/blog.rs:170-182 | at most one link per `href`, every link resolved from an href and on the page's domain |
| Crawl.HarvestComplete | src/blog.rs:170-182 | conversely, every `href` whose resolved URL is on the page's domain is offered |
| Crawl.PageLinks | src/blog.rs:148-184 | what `crawl_page` does with a reply: transport or status error, a bad Content-Type error, no links for a non-HTML type or an untyped non-article URL, else the harvested links |
| Crawl.PageFailsIff | src/blog.rs:148-164 | `crawl_page` errs exactly on transport failure, a non-2xx status, or a Content-Type that is not visible ASCII (tab or 32–126) |
| Crawl.PageLinksGates | src/blog.rs:151-162 | non-2xx ⇒ error; a non-HTML type, or no type on a non-article URL, ⇒ no links; every offered link is same-domain |
| Crawl.EnqueueAllEffect | src/blog.rs:170-182 | enqueueing the links adds exactly the unseen ones, each pending with the page as parent; known entries are unchanged |
| Crawl.EnqueueAllCount | src/blog.rs:178-180 | the queue grows by exactly the number of distinct links it had not seen |
| Crawl.EnqueueLinks | src/blog.rs:168-184 | the link loop leaves the queue equal to the enqueue fold of the harvested links; `added` is its growth |
| Crawl.CrawlPage | src/blog.rs:148-185 | an error leaves the queue untouched; success adds exactly the offered links, and its count is the number of them that were new (at most the number offered) |
| Crawl.CrawlArticle | src/blog.rs:187-253 | backoff ⇒ `Ok(false)`, nothing changed; fetch error ⇒ that error, with a 7-day row exactly on 404; success ⇒ `Ok(url is new)`, and the row is inserted only when new; only this URL's error row can change |
| Crawl.TryArticle | src/blog.rs:125-130 | `unwrap_or(false)`: true exactly when the URL is outside its backoff, the page can be fetched and the URL has no row yet; then exactly its article row is added, otherwise no `contents` row changes; the error table becomes `ArticleErrors` (the seven-day row on a 404 outside backoff) |
| Crawl.Acquirable | src/blog.rs:187-253 | the condition under which `crawl_article(url, false)` inserts: no active backoff, `fetch_html` succeeds, and no row has the URL as id |
| Crawl.Article | src/blog.rs:217-244 | the stored row: id and url are the page URL, type `blog`, the first title or `No Title`, the first description's `content` or none, no thumbnail or date |
| Crawl.ArticleErrorsEffect | src/blog.rs:194-213 | `crawl_article` changes at most the URL's own error row, and an active backoff stays active |
| Crawl.AcquiredStep | src/blog.rs:30-48 | one more call keeps `Acquired`: the new rows are exactly the acquirable attempted URLs, judged against the store at the start, and the count of insertions grows by one exactly when this call inserted |
| Crawl.AcquiredCount | src/blog.rs:30-48 | the store grows by exactly the number of acquirable attempted URLs |
| Crawl.PacedMeans | src/blog.rs:107-121 | each URL was visited while `new_count` was below the cap, and it failed exactly when `crawl_page` fails on it |
| Crawl.ExplainedStep | src/blog.rs:118-141 | one visit keeps the queue invariant: done URLs are exactly the crawled ones, and every new URL has a same-domain parent |
| Crawl.Visit | src/blog.rs:123-140 | one batch entry: fails exactly when `crawl_page` fails, and then nothing changes; on success `added` is the number of offered links the queue had not seen, which is the queue's growth; `inserted` is exactly `Acquirable` against the store before the call, the article row is added exactly then, and the error table follows `ArticleErrors` |
| Crawl.CreditStep | src/blog.rs:132-134 | one visit adds the page's `added` to the number of credited URLs (first enqueued by a page whose article was newly stored) exactly when its article was inserted |
| Crawl.ProgressStep | src/blog.rs:118-141 | one visit below the cap keeps the run invariant: pacing, the queue invariant, the new rows are the acquirable crawled pages, and `new_count` equals the number of credited URLs |
| Crawl.Advance | src/blog.rs:122-140 | one inner-loop iteration extends the steps by the visit, adds its count to `new_count` exactly when its article was inserted, and keeps the run invariant |
| Crawl.CrawlBatch | src/blog.rs:118-142 | the inner loop keeps the run invariant, and its count is the accumulated `new_count` |
| Crawl.CrawlHtml | src/blog.rs:97-146 | the BFS ends with `new_count` at the cap, nothing pending, or fuel spent; `new_count` is the number of URLs first enqueued by pages whose article was newly stored; the new rows are exactly the acquirable crawled pages, each holding its article; every visit was paced; the queue invariant holds |
| Crawl.AcquireListed | src/blog.rs:30-49 | the sitemap loop tries a prefix of the URLs, and stops early only right after the fifth insertion; the new rows are exactly the acquirable tried URLs, judged against the store at the start, and there are `min(5, #acquirable listed URLs)` of them |
| Crawl.FetchAndStore | src/blog.rs:22-57 | old rows are kept and every new row is a fetched article; sitemap ⇒ the queue is untouched, only listed URLs' error rows change, the new rows are acquirable listed URLs, `min(5, #acquirable listed)` of them, and all of them when at most five are acquirable; otherwise the crawl root is queued |
| Export.DigitsThenNumberIff | src/export.rs:56 | the digits-then-`号` scanner is exactly `\d+号` from that position |
| Export.HasMarkedIff | src/export.rs:67-88 | the scanner is exactly `is_match` of `[一-龠ぁ-んァ-ン]+跡` / `…+道` |
| Export.HasRoadNumberIff | src/export.rs:56-66 | the scanner is exactly `is_match` of `[一-龠ぁ-んァ-ン]+道\d+号` |
| Export.RoadNumberIsRoad | src/export.rs:56-88 | every road-number match is also a road match |
| Export.CalculateScore | src/export.rs:54-94 | `+5`, `+3`, `+1` by the three patterns on `"title, description"`, `-3` for "404 Not Found" in the title; the score is one of -3, -2, 0, 1, 3, 4, 6, 9 |
| Export.MarkedJoined | src/export.rs:57-62 | a mark pattern matches `"title, description"` exactly when it matches one of the two |
| Export.RoadNumberJoined | src/export.rs:57-62 | the road-number pattern matches the joined text exactly when it matches the title or the description |
| Export.ScoreByParts | src/export.rs:54-94 | the score is the pattern score of title and description taken separately, with the penalty from the title |
| Export.RoadNumberScores | src/export.rs:56-66 | a road number scores at least 6, or at least 3 on a "404 Not Found" page |
| Export.RoadNumberShape | src/export.rs:56 | a class char, `道`, digits and `号` match the road-number pattern |
| Export.SortByScore | src/export.rs:44 | the stable sort by descending score, as insertion sort on a sequence |
| Export.SortByScoreDescending | src/export.rs:44-45 | the sorted list is in descending order of score |
| Export.SortByScorePermutes | src/export.rs:44-45 | the sorted list holds exactly the input items (same multiset) |
| Export.SortByScoreStable | src/export.rs:44-45 | for every score, the items with that score keep their input order |
| Export.SortByScoreOrder | src/export.rs:44-45 | the sort keeps the length, and is descending, a permutation and stable |
| Export.ExportJson | src/export.rs:23-52 | every stored row once, scored, sorted descending and stably from the `published_at DESC` read |

## Left out

- HTTP, async I/O, parsers and encodings are not modelled. The HTTP client, HTML parsing and selectors, XML tokenising, URL parsing and joining, encoding lookup, decoding and detection are arbitrary functions in `Web.Env`. Only the crawler's logic around their results is modelled.
- `Web.Env`: a URL always gets the same reply. The two requests `crawl_html` makes for one page (in `crawl_page` and in `fetch_html`) therefore see the same response. A server that answers differently is not modelled.
- `Crawl.PageLinks`: a body read error is folded into `TransportFailure`. Neither `text()` nor `bytes()` is modelled separately.
- Database errors are not modelled. A failing statement, and every `?` on a database call, is assumed not to happen, so `Store.Db` methods always succeed.
- Console logging (`println!`, `eprintln!`) is left out.
- Time is a number of seconds supplied as `now`. RFC 3339 formatting and parsing is not modelled. `fetched_at` is kept as an opaque string.
- The clock is frozen for a whole run: `FetchAndStore`, `AcquireListed` and `CrawlHtml` pass one `now` to every call. The source reads `Utc::now()` afresh in each `should_skip` (src/db.rs:151) and `register_error` (src/db.rs:94). So in the model a backoff cannot lapse in the middle of a run, and a 404 row registered during the run starts at the run's `now`.
- `Frontier.Queue`: `db::enqueue`, `db::next_pending` and `db::mark_done` are called but not defined in the repository, and no queue table is created. Their behaviour is assumed from the call sites.
- `Frontier.Queue.NextPending`: assumed to hand out min(limit, #pending) distinct URLs, so an empty batch means nothing is pending. The call site (src/blog.rs:113-116) shows only that at most `limit` URLs come back and that an empty batch ends the crawl. The order in which pending URLs are handed out is left open.
- `Store.Db.FetchAll`: the order among rows with equal `published_at` is left open, as SQLite leaves it.
- `Crawl.CrawlHtml`: is bounded by a `fuel` count of batches. A page whose `crawl_page` fails stays pending and is handed out again, so the source loop need not terminate. The model does not describe runs longer than `fuel` batches.
- `Crawl.CrawlHtml`: the proof is split into `Visit` and `CrawlBatch` (the inner loop). These are divisions of the source loops, not source functions.
- `Crawl.FetchAndStore`: the sitemap loop is split out as `AcquireListed`. That is a division of the source loop, not a source function.
- `Crawl.FetchAndStore`: in the fallback branch it promises, besides growth of the store, only that the root is queued.
- `Export.IsDigit`: approximates the regex class `\d` by ASCII and full-width digits. Rust's `\d` is every Unicode decimal digit.
- `Export.CalculateScore`: the source's `i32` cannot overflow, since the score stays within -3..9, so it is an `int`.
- `Export.SortByScore`: `sort_by` works in place on the vector. A stable sort's result is unique, so it is modelled as the stable insertion sort on a sequence.
- `Export.ExportJson`: JSON serialisation and writing the file are left out. The method returns the list that would be serialised.
- `main.rs` is not modelled: the loop over configured sites and the call order.
- `config.rs` is not modelled: loading the configuration.
- `db::init` and `db::init_error_table` are modelled only as the empty tables of a fresh database, in `Store.Db.constructor`. `CREATE TABLE IF NOT EXISTS` (src/db.rs:25, 49) keeps the rows of an existing database; every operation accepts any valid `Store.Db`, so such a start is covered. The schema text is not modelled.
