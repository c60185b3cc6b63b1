/** The crawl control of `src/blog.rs`: `crawl_page` (link harvesting into the queue),
    `crawl_article` (backoff check, fetch, 404 bookkeeping, insertion), `crawl_html` (the
    breadth-first loop over queue batches) and `fetch_and_store` (sitemap first, with the
    per-site insertion cap, and the fallback to `crawl_html`). */
module Crawl {
  import opened Wrappers
  import opened Strings
  import opened Web
  import opened Links
  import opened Charset
  import opened Sitemap
  import Store
  import opened Frontier

  /** `MAX_NEW_PER_SITE`. */
  const MaxNewPerSite: nat := 5
  /** The batch size `crawl_html` asks `next_pending` for. */
  const BatchSize: nat := 10
  /** The window `crawl_article` registers for a 404, in days. */
  const NotFoundRetryDays: int := 7

  datatype PageError =
    | PageTransport
    | PageStatus(status: int)
    | BadContentType

  // ---------------------------------------------------------------- crawl_page

  /** The number of anchors that carry an `href`. */
  function CountHrefs(hrefs: seq<Option<string>>): nat
  {
    if hrefs == [] then 0
    else CountHrefs(hrefs[..|hrefs| - 1]) + (if hrefs[|hrefs| - 1].Some? then 1 else 0)
  }

  /** The links `crawl_page` offers to the queue, in anchor order: every `href` resolved against
      the page URL, kept when it is on the page's domain. */
  function Harvest(env: Env, page: string, hrefs: seq<Option<string>>): (links: seq<string>)
    ensures |links| <= CountHrefs(hrefs)
    ensures forall i :: 0 <= i < |links| ==> SameDomain(env, page, links[i])
    ensures Elems(links) <= Resolved(env, page, hrefs)
  {
    if hrefs == [] then []
    else
      var init := hrefs[..|hrefs| - 1];
      var earlier := Harvest(env, page, init);
      assert Resolved(env, page, init) <= Resolved(env, page, hrefs) by {
        forall j | 0 <= j < |init| && init[j].Some? ensures init[j] == hrefs[j] { }
      }
      match hrefs[|hrefs| - 1]
      case None => earlier
      case Some(href) =>
        var next := NormalizeUrl(env, page, href);
        if SameDomain(env, page, next) then earlier + [next] else earlier
  }

  /** Every `href` of the page, resolved against it. */
  ghost function Resolved(env: Env, page: string, hrefs: seq<Option<string>>): set<string>
  {
    set j | 0 <= j < |hrefs| && hrefs[j].Some? :: NormalizeUrl(env, page, hrefs[j].value)
  }

  function Elems(links: seq<string>): set<string>
  {
    set l | l in links
  }

  lemma {:induction false} ElemsBound(links: seq<string>)
    ensures |Elems(links)| <= |links|
  {
    if links != [] {
      var init := links[..|links| - 1];
      ElemsBound(init);
      assert links == init + [links[|links| - 1]];
      assert Elems(links) == Elems(init) + {links[|links| - 1]};
    }
  }

  /** The converse of `Harvest`'s contract: every `href` whose resolved URL is on the page's
      domain is offered. */
  lemma {:induction false} HarvestComplete(env: Env, page: string, hrefs: seq<Option<string>>, j: nat)
    requires j < |hrefs| && hrefs[j].Some?
    requires SameDomain(env, page, NormalizeUrl(env, page, hrefs[j].value))
    ensures NormalizeUrl(env, page, hrefs[j].value) in Harvest(env, page, hrefs)
    decreases |hrefs|
  {
    var init := hrefs[..|hrefs| - 1];
    if j < |init| {
      assert init[j] == hrefs[j];
      HarvestComplete(env, page, init, j);
    }
  }

  /** What `crawl_page` does with a page: an error, or the links it enqueues. A page that is not
      HTML, or has no content type and does not look like an article, offers no links. */
  function PageLinks(env: Env, url: string): Result<seq<string>, PageError>
  {
    match env.get(url)
    case TransportFailure => Err(PageTransport)
    case Response(status, contentType, body) =>
      if !IsSuccess(status) then Err(PageStatus(status))
      else if contentType.Some? && HeaderToStr(contentType.value).None? then Err(BadContentType)
      else if contentType.Some? && !Contains(HeaderToStr(contentType.value).value, "text/html") then Ok([])
      else if contentType.None? && !IsArticleLink(url) then Ok([])
      else Ok(Harvest(env, url, env.parseHtml(env.text(contentType, body)).hrefs))
  }

  /** The cases in which `crawl_page` returns an error: the request fails, the status is not a
      success, or the content type is not a visible-ASCII header value. */
  predicate PageFails(env: Env, url: string)
  {
    match env.get(url)
    case TransportFailure => true
    case Response(status, contentType, _) =>
      !IsSuccess(status) || (contentType.Some? && HeaderToStr(contentType.value).None?)
  }

  lemma PageFailsIff(env: Env, url: string)
    ensures PageFails(env, url) <==> PageLinks(env, url).Err?
  {
  }

  /** The decisions of `crawl_page` before any link is looked at. */
  lemma PageLinksGates(env: Env, url: string)
    ensures env.get(url).Response? && !IsSuccess(env.get(url).status) ==>
              PageLinks(env, url) == Err(PageStatus(env.get(url).status))
    ensures env.get(url).Response? && IsSuccess(env.get(url).status) && env.get(url).contentType.Some?
            && HeaderToStr(env.get(url).contentType.value).Some?
            && !Contains(HeaderToStr(env.get(url).contentType.value).value, "text/html") ==>
              PageLinks(env, url) == Ok([])
    ensures env.get(url).Response? && IsSuccess(env.get(url).status) && env.get(url).contentType.None?
            && !IsArticleLink(url) ==>
              PageLinks(env, url) == Ok([])
    ensures PageLinks(env, url).Ok? ==> forall u :: u in PageLinks(env, url).value ==> SameDomain(env, url, u)
  {
  }

  /** The queue after `enqueue(link, Some(page))` for each link in order: a first sighting
      becomes pending with the page as parent, a URL seen before is left alone. */
  function EnqueueAll(status: map<string, Status>, parent: map<string, Option<string>>,
                      links: seq<string>, page: string): (map<string, Status>, map<string, Option<string>>)
  {
    if links == [] then (status, parent)
    else
      var (s, p) := EnqueueAll(status, parent, links[..|links| - 1], page);
      var u := links[|links| - 1];
      if u in s then (s, p) else (s[u := Pending], p[u := Some(page)])
  }

  /** What enqueueing a batch of links does to the queue: the known URLs are those known before
      plus the links; a known URL keeps its status and parent; a new one is pending with the
      page as parent. */
  lemma {:induction false} EnqueueAllEffect(status: map<string, Status>, parent: map<string, Option<string>>,
                                            links: seq<string>, page: string)
    requires status.Keys == parent.Keys
    ensures var (s, p) := EnqueueAll(status, parent, links, page);
      && s.Keys == p.Keys
      && s.Keys == status.Keys + Elems(links)
      && (forall u :: u in status ==> s[u] == status[u] && p[u] == parent[u])
      && (forall u :: u in s && u !in status ==> s[u] == Pending && p[u] == Some(page))
  {
    if links != [] {
      var init := links[..|links| - 1];
      EnqueueAllEffect(status, parent, init, page);
      assert links == init + [links[|links| - 1]];
      ElemsSnoc(init, links[|links| - 1]);
    }
  }

  /** Enqueueing a batch adds exactly one entry per link the queue had not seen. */
  lemma {:induction false} EnqueueAllCount(status: map<string, Status>, parent: map<string, Option<string>>,
                                           links: seq<string>, page: string)
    requires status.Keys == parent.Keys
    ensures |EnqueueAll(status, parent, links, page).0| == |status| + |Elems(links) - status.Keys|
  {
    if links == [] {
      assert Elems(links) - status.Keys == {};
    } else {
      var init := links[..|links| - 1];
      var u := links[|links| - 1];
      EnqueueAllCount(status, parent, init, page);
      EnqueueAllEffect(status, parent, init, page);
      assert links == init + [u];
      ElemsSnoc(init, u);
      var s := EnqueueAll(status, parent, init, page).0;
      if u !in s {
        DiffGrows(Elems(init), status.Keys, u);
      } else {
        DiffSame(Elems(init), status.Keys, u);
      }
    }
  }

  /** The link loop of `crawl_page`: every `href` is resolved against the page, kept when it is
      on the page's domain and enqueued with the page as parent; the result counts the URLs the
      queue had not seen. */
  method EnqueueLinks(q: Queue, env: Env, page: string, hrefs: seq<Option<string>>) returns (added: nat)
    requires q.Valid()
    modifies q
    ensures q.Valid()
    ensures (q.status, q.parent) == EnqueueAll(old(q.status), old(q.parent), Harvest(env, page, hrefs), page)
    ensures added + |old(q.status)| == |q.status|
  {
    ghost var status0, parent0 := q.status, q.parent;
    added := 0;
    assert hrefs[..0] == [];
    for i := 0 to |hrefs|
      invariant q.Valid()
      invariant (q.status, q.parent) == EnqueueAll(status0, parent0, Harvest(env, page, hrefs[..i]), page)
      invariant status0.Keys <= q.status.Keys
      invariant added + |status0| == |q.status|
    {
      HarvestStep(env, page, hrefs, i);
      if hrefs[i].Some? {
        var next := NormalizeUrl(env, page, hrefs[i].value);
        if SameDomain(env, page, next) {
          ghost var links := Harvest(env, page, hrefs[..i]);
          assert (links + [next])[..|links|] == links;
          var isNew := q.Enqueue(next, Some(page));
          if isNew {
            added := added + 1;
          }
        }
      }
    }
    assert hrefs[..|hrefs|] == hrefs;
  }

  lemma HarvestStep(env: Env, page: string, hrefs: seq<Option<string>>, i: nat)
    requires i < |hrefs|
    ensures Harvest(env, page, hrefs[..i + 1]) ==
              if hrefs[i].Some? && SameDomain(env, page, NormalizeUrl(env, page, hrefs[i].value))
              then Harvest(env, page, hrefs[..i]) + [NormalizeUrl(env, page, hrefs[i].value)]
              else Harvest(env, page, hrefs[..i])
  {
    assert hrefs[..i + 1][..i] == hrefs[..i];
  }

  lemma ElemsPrefix(links: seq<string>, more: seq<string>)
    requires links <= more
    ensures Elems(links) <= Elems(more)
  {
    forall u | u in Elems(links) ensures u in Elems(more) {
      var k :| 0 <= k < |links| && links[k] == u;
      assert more[k] == u;
    }
  }

  lemma ElemsSnoc(links: seq<string>, x: string)
    ensures Elems(links + [x]) == Elems(links) + {x}
  {
  }

  lemma DiffGrows(e: set<string>, k: set<string>, x: string)
    requires x !in e && x !in k
    ensures |(e + {x}) - k| == |e - k| + 1
  {
    assert (e + {x}) - k == (e - k) + {x};
  }

  lemma DiffSame(e: set<string>, k: set<string>, x: string)
    requires x in e || x in k
    ensures (e + {x}) - k == e - k
  {
  }

  /** The queue `(s1, p1)` extends `(s0, p0)` by URLs found on `page`: known URLs keep their
      status and parent, and each new one is pending, has `page` as parent and is on its domain. */
  ghost predicate Discovers(env: Env, page: string, s0: map<string, Status>, p0: map<string, Option<string>>,
                            s1: map<string, Status>, p1: map<string, Option<string>>)
  {
    && s0.Keys <= s1.Keys
    && (forall u :: u in s0 ==> s1[u] == s0[u])
    && (forall u :: u in s0 && u in p0 ==> u in p1 && p1[u] == p0[u])
    && (forall u :: u in s1 && u !in s0 ==> s1[u] == Pending && u in p1 && p1[u] == Some(page) && SameDomain(env, page, u))
  }

  /** `crawl_page`: on an error the queue is untouched; otherwise every offered link is
      enqueued with the page as parent, and the result counts the links that were new. */
  method CrawlPage(q: Queue, env: Env, url: string) returns (r: Result<nat, PageError>)
    requires q.Valid()
    modifies q
    ensures q.Valid()
    ensures PageLinks(env, url).Err? ==>
              r == Err(PageLinks(env, url).error) && q.status == old(q.status) && q.parent == old(q.parent)
    ensures PageLinks(env, url).Ok? ==>
              var links := PageLinks(env, url).value;
              && r.Ok?
              && q.status.Keys == old(q.status).Keys + Elems(links)
              && r.value == |Elems(links) - old(q.status).Keys|
              && r.value <= |links|
    ensures Discovers(env, url, old(q.status), old(q.parent), q.status, q.parent)
  {
    var reply := env.get(url);
    if reply.TransportFailure? {
      return Err(PageTransport);
    }
    if !IsSuccess(reply.status) {
      return Err(PageStatus(reply.status));
    }
    if reply.contentType.Some? {
      var text := HeaderToStr(reply.contentType.value);
      if text.None? {
        return Err(BadContentType);
      }
      if !Contains(text.value, "text/html") {
        assert Elems([]) == {};
        return Ok(0);
      }
    } else if !IsArticleLink(url) {
      assert Elems([]) == {};
      return Ok(0);
    }
    var document := env.parseHtml(env.text(reply.contentType, reply.body));
    var added := EnqueueLinks(q, env, url, document.hrefs);
    ghost var links := Harvest(env, url, document.hrefs);
    EnqueueAllEffect(old(q.status), old(q.parent), links, url);
    EnqueueAllCount(old(q.status), old(q.parent), links, url);
    ElemsBound(links);
    assert Elems(links) - old(q.status).Keys <= Elems(links);
    return Ok(added);
  }


  // ---------------------------------------------------------------- crawl_article

  /** The row `crawl_article` stores for a page: id and url are the page URL, type `blog`, the
      first title's text or `No Title`, the first description element's `content` or none, and
      no thumbnail or publication date. */
  function Article(url: string, document: Document): Store.Content
  {
    Store.Content(
      url, "blog",
      if document.titles == [] then "No Title" else document.titles[0],
      url,
      if document.descriptions == [] then None else document.descriptions[0],
      None, None)
  }

  /** The row stored for a page that can be fetched, with the run's `fetched_at`. */
  function ArticleRow(env: Env, url: string, fetchedAt: string): Store.Row
    requires Fetches(env, url)
  {
    Store.Row(Article(url, env.parseHtml(FetchHtml(env, url).value)), fetchedAt)
  }

  /** `crawl_article(url, false)` inserts a row exactly when the site is outside its backoff,
      the page can be fetched and no row has the URL as its id yet. */
  predicate Acquirable(env: Env, contents: map<string, Store.Row>, errors: map<string, Store.ErrorRecord>,
                       url: string, now: int)
  {
    !Store.InBackoff(errors, url, now) && Fetches(env, url) && url !in contents
  }

  /** The error table after `crawl_article(url, false)`: a 404 reply (which `fetch_html`
      reports as `HttpStatus(404, url)`), when the site was not skipped, registers the
      seven-day row; nothing else changes the table. */
  function ArticleErrors(env: Env, errors: map<string, Store.ErrorRecord>, url: string, now: int)
    : map<string, Store.ErrorRecord>
  {
    if !Store.InBackoff(errors, url, now) && env.get(url).Response? && env.get(url).status == NotFound
    then Store.Upsert(errors, url, "404", NotFoundRetryDays, now)
    else errors
  }

  /** The error table `e1` differs from `e0` at most at the given URLs and lost no entry. */
  ghost predicate TouchesOnly(e0: map<string, Store.ErrorRecord>, e1: map<string, Store.ErrorRecord>, urls: set<string>)
  {
    && e0.Keys <= e1.Keys
    && forall u :: u in e1 && u !in urls ==> u in e0 && e1[u] == e0[u]
  }

  lemma TouchesOnlyStep(e0: map<string, Store.ErrorRecord>, e1: map<string, Store.ErrorRecord>,
                        e2: map<string, Store.ErrorRecord>, urls: set<string>, url: string)
    requires TouchesOnly(e0, e1, urls) && TouchesOnly(e1, e2, {url})
    ensures TouchesOnly(e0, e2, urls + {url})
  {
  }

  /** `crawl_article` with the clock reading `now` (for the backoff check and the error row). */
  method CrawlArticle(db: Store.Db, env: Env, url: string, fetchedAt: string, ignoreSkip: bool, now: int)
    returns (r: Result<bool, FetchError>)
    requires db.Valid()
    modifies db
    ensures db.Valid()
    ensures Store.InBackoff(old(db.errors), url, now) && !ignoreSkip ==>
              r == Ok(false) && db.contents == old(db.contents) && db.errors == old(db.errors)
    ensures !(Store.InBackoff(old(db.errors), url, now) && !ignoreSkip) ==>
              match FetchHtml(env, url)
              case Err(e) =>
                && r == Err(e)
                && db.contents == old(db.contents)
                && db.errors == if e.HttpStatus? && e.status == NotFound
                                then Store.Upsert(old(db.errors), url, "404", NotFoundRetryDays, now)
                                else old(db.errors)
              case Ok(body) =>
                && r == Ok(url !in old(db.contents))
                && db.errors == old(db.errors)
                && db.contents == if url in old(db.contents) then old(db.contents)
                                  else old(db.contents)[url := Store.Row(Article(url, env.parseHtml(body)), fetchedAt)]
    ensures r == Ok(true) ==> url !in old(db.contents) && db.contents.Keys == old(db.contents).Keys + {url}
    ensures r == Ok(true) ==> |db.contents| == |old(db.contents)| + 1
    ensures r != Ok(true) ==> db.contents == old(db.contents)
    ensures TouchesOnly(old(db.errors), db.errors, {url})
  {
    var skip := db.ShouldSkip(url, now);
    if skip && !ignoreSkip {
      return Ok(false);
    }
    var fetched := FetchHtml(env, url);
    if fetched.Err? {
      if fetched.error.HttpStatus? && fetched.error.status == NotFound {
        db.RegisterError(fetched.error.url, "404", NotFoundRetryDays, now);
      }
      return Err(fetched.error);
    }
    var document := env.parseHtml(fetched.value);
    var title := if document.titles == [] then "No Title" else document.titles[0];
    var description := if document.descriptions == [] then None else document.descriptions[0];
    var inserted := db.Insert(url, "blog", title, url, description, None, None, fetchedAt);
    return Ok(inserted);
  }

  /** `crawl_article(url, false)` as both callers use it, with an error read as "not
      inserted" (`unwrap_or(false)`): true exactly when the URL was acquirable, and then its
      row is added; the error table changes as `ArticleErrors` says. */
  method TryArticle(db: Store.Db, env: Env, url: string, fetchedAt: string, now: int) returns (inserted: bool)
    requires db.Valid()
    modifies db
    ensures db.Valid()
    ensures inserted == Acquirable(env, old(db.contents), old(db.errors), url, now)
    ensures db.contents == if inserted then old(db.contents)[url := ArticleRow(env, url, fetchedAt)] else old(db.contents)
    ensures db.errors == ArticleErrors(env, old(db.errors), url, now)
  {
    var outcome := CrawlArticle(db, env, url, fetchedAt, false, now);
    inserted := outcome == Ok(true);
  }

  // ---------------------------------------------------------------- what a run stores

  /** The attempted URLs that were acquirable against the store `(c0, e0)` a run started from. */
  ghost function AcquirableIn(env: Env, c0: map<string, Store.Row>, e0: map<string, Store.ErrorRecord>,
                              attempted: set<string>, now: int): set<string>
  {
    set u | u in attempted && Acquirable(env, c0, e0, u, now)
  }

  /** The store `(c1, e1)` after `crawl_article` ran on the URLs `attempted`, in any order and
      any number of times each, starting from `(c0, e0)`: the new rows are exactly those of the
      attempted URLs that were acquirable at the start, each holding its page's article; old
      rows are untouched; only attempted URLs have a changed error row, and no backoff lapsed
      (the clock reads `now` throughout). */
  ghost predicate Acquired(env: Env, c0: map<string, Store.Row>, e0: map<string, Store.ErrorRecord>,
                           c1: map<string, Store.Row>, e1: map<string, Store.ErrorRecord>,
                           attempted: set<string>, fetchedAt: string, now: int)
  {
    && c1.Keys == c0.Keys + AcquirableIn(env, c0, e0, attempted, now)
    && (forall u :: u in c0 ==> c1[u] == c0[u])
    && (forall u :: u in c1 && u !in c0 ==> Fetches(env, u) && c1[u] == ArticleRow(env, u, fetchedAt))
    && TouchesOnly(e0, e1, attempted)
    && (forall u :: Store.InBackoff(e0, u, now) ==> Store.InBackoff(e1, u, now))
  }

  lemma AcquiredNone(env: Env, c0: map<string, Store.Row>, e0: map<string, Store.ErrorRecord>, fetchedAt: string, now: int)
    ensures Acquired(env, c0, e0, c0, e0, {}, fetchedAt, now)
  {
    assert AcquirableIn(env, c0, e0, {}, now) == {};
  }

  /** One more `crawl_article` call keeps `Acquired`: a URL already attempted cannot be
      inserted again, and a first attempt sees the store as the run found it. */
  lemma AcquiredStep(env: Env, c0: map<string, Store.Row>, e0: map<string, Store.ErrorRecord>,
                     c: map<string, Store.Row>, e: map<string, Store.ErrorRecord>,
                     c1: map<string, Store.Row>, e1: map<string, Store.ErrorRecord>,
                     attempted: set<string>, url: string, inserted: bool, fetchedAt: string, now: int)
    requires Acquired(env, c0, e0, c, e, attempted, fetchedAt, now)
    requires inserted == Acquirable(env, c, e, url, now)
    requires c1 == if inserted then c[url := ArticleRow(env, url, fetchedAt)] else c
    requires e1 == ArticleErrors(env, e, url, now)
    ensures Acquired(env, c0, e0, c1, e1, attempted + {url}, fetchedAt, now)
    ensures |AcquirableIn(env, c0, e0, attempted + {url}, now)|
              == |AcquirableIn(env, c0, e0, attempted, now)| + if inserted then 1 else 0
  {
    AcquirableInStep(env, c0, e0, c, e, attempted, url, now);
    var before := AcquirableIn(env, c0, e0, attempted, now);
    var after := AcquirableIn(env, c0, e0, attempted + {url}, now);
    RowsStep(env, c0, c, c1, before, after, url, inserted, fetchedAt);
    ArticleErrorsEffect(env, e, url, now);
    TouchesOnlyStep(e0, e, e1, attempted, url);
    BackoffKept(e0, e, e1, now);
  }

  lemma RowsStep(env: Env, c0: map<string, Store.Row>, c: map<string, Store.Row>, c1: map<string, Store.Row>,
                 before: set<string>, after: set<string>, url: string, inserted: bool, fetchedAt: string)
    requires c.Keys == c0.Keys + before
    requires forall u :: u in c0 ==> c[u] == c0[u]
    requires forall u :: u in c && u !in c0 ==> Fetches(env, u) && c[u] == ArticleRow(env, u, fetchedAt)
    requires inserted ==> url !in c && Fetches(env, url) && url !in before
    requires after == before + if inserted then {url} else {}
    requires c1 == if inserted then c[url := ArticleRow(env, url, fetchedAt)] else c
    ensures c1.Keys == c0.Keys + after
    ensures forall u :: u in c0 ==> c1[u] == c0[u]
    ensures forall u :: u in c1 && u !in c0 ==> Fetches(env, u) && c1[u] == ArticleRow(env, u, fetchedAt)
  {
  }

  lemma BackoffKept(e0: map<string, Store.ErrorRecord>, e: map<string, Store.ErrorRecord>,
                    e1: map<string, Store.ErrorRecord>, now: int)
    requires forall u :: Store.InBackoff(e0, u, now) ==> Store.InBackoff(e, u, now)
    requires forall u :: Store.InBackoff(e, u, now) ==> Store.InBackoff(e1, u, now)
    ensures forall u :: Store.InBackoff(e0, u, now) ==> Store.InBackoff(e1, u, now)
  {
  }

  /** The acquirable set grows by the URL exactly when the call inserts it. */
  lemma AcquirableInStep(env: Env, c0: map<string, Store.Row>, e0: map<string, Store.ErrorRecord>,
                         c: map<string, Store.Row>, e: map<string, Store.ErrorRecord>,
                         attempted: set<string>, url: string, now: int)
    requires c.Keys == c0.Keys + AcquirableIn(env, c0, e0, attempted, now)
    requires TouchesOnly(e0, e, attempted)
    requires Store.InBackoff(e0, url, now) ==> Store.InBackoff(e, url, now)
    ensures Acquirable(env, c, e, url, now) ==> url !in AcquirableIn(env, c0, e0, attempted, now)
    ensures AcquirableIn(env, c0, e0, attempted + {url}, now)
              == AcquirableIn(env, c0, e0, attempted, now) + if Acquirable(env, c, e, url, now) then {url} else {}
  {
    var before := AcquirableIn(env, c0, e0, attempted, now);
    if url in attempted {
      assert attempted + {url} == attempted;
      if Acquirable(env, c0, e0, url, now) {
        assert url in before;
      }
    } else {
      assert url in c <==> url in c0;
      assert Store.InBackoff(e, url, now) == Store.InBackoff(e0, url, now);
    }
  }

  /** `crawl_article` changes at most the URL's own error row, and a backoff it finds stays:
      a fresh 404 row starts a seven-day window at `now`. */
  lemma ArticleErrorsEffect(env: Env, e: map<string, Store.ErrorRecord>, url: string, now: int)
    ensures TouchesOnly(e, ArticleErrors(env, e, url, now), {url})
    ensures forall u :: Store.InBackoff(e, u, now) ==> Store.InBackoff(ArticleErrors(env, e, url, now), u, now)
  {
    Store.BackoffWindow(e, url, "404", NotFoundRetryDays, now, now);
  }

  /** The store holds one row per acquirable attempted URL more than at the start. */
  lemma AcquiredCount(env: Env, c0: map<string, Store.Row>, e0: map<string, Store.ErrorRecord>,
                      c1: map<string, Store.Row>, e1: map<string, Store.ErrorRecord>,
                      attempted: set<string>, fetchedAt: string, now: int)
    requires Acquired(env, c0, e0, c1, e1, attempted, fetchedAt, now)
    ensures |c1| == |c0| + |AcquirableIn(env, c0, e0, attempted, now)|
  {
    var a := AcquirableIn(env, c0, e0, attempted, now);
    assert a * c0.Keys == {};
    assert |c1.Keys| == |c0.Keys| + |a|;
  }

  lemma SubsetCard(a: set<string>, b: set<string>)
    requires a <= b
    ensures |a| <= |b|
    ensures |a| == |b| ==> a == b
  {
    assert b == a + (b - a);
    assert a * (b - a) == {};
    if |a| == |b| {
      assert |b - a| == 0;
    }
  }

  // ---------------------------------------------------------------- crawl_html

  /** What happened to one URL of a batch: `crawl_page` succeeded (its link count, and whether
      the article was then inserted), or it failed. */
  datatype PageStep =
    | Crawled(url: string, added: nat, inserted: bool)
    | Failed(url: string)

  /** `new_count` as `crawl_html` accumulates it: a page's link count, and only when its
      article was newly inserted. */
  function CountedLinks(steps: seq<PageStep>): nat
  {
    if steps == [] then 0
    else
      var last := steps[|steps| - 1];
      CountedLinks(steps[..|steps| - 1]) + (if last.Crawled? && last.inserted then last.added else 0)
  }

  /** The URLs whose page was crawled successfully. */
  function CrawledUrls(steps: seq<PageStep>): set<string>
  {
    if steps == [] then {}
    else
      var last := steps[|steps| - 1];
      CrawledUrls(steps[..|steps| - 1]) + (if last.Crawled? then {last.url} else {})
  }

  /** Every step was taken while the count was still below the cap, and a step failed exactly
      when `crawl_page` fails on its URL. */
  ghost predicate Paced(env: Env, steps: seq<PageStep>, maxNew: nat)
  {
    steps != [] ==>
      var last := steps[|steps| - 1];
      && Paced(env, steps[..|steps| - 1], maxNew)
      && CountedLinks(steps[..|steps| - 1]) < maxNew
      && (last.Failed? <==> PageFails(env, last.url))
  }

  lemma {:induction false} PacedMeans(env: Env, steps: seq<PageStep>, maxNew: nat)
    requires Paced(env, steps, maxNew)
    ensures forall k :: 0 <= k < |steps| ==> CountedLinks(steps[..k]) < maxNew
    ensures forall k :: 0 <= k < |steps| ==> (steps[k].Failed? <==> PageFails(env, steps[k].url))
  {
    if steps != [] {
      var init := steps[..|steps| - 1];
      PacedMeans(env, init, maxNew);
      forall k | 0 <= k < |steps|
        ensures CountedLinks(steps[..k]) < maxNew
      {
        if k < |init| {
          assert steps[..k] == init[..k];
        } else {
          assert steps[..k] == init;
        }
      }
      forall k | 0 <= k < |init|
        ensures steps[k] == init[k]
      {
      }
    }
  }

  lemma PacedStep(env: Env, steps: seq<PageStep>, step: PageStep, maxNew: nat)
    requires Paced(env, steps, maxNew) && CountedLinks(steps) < maxNew
    requires step.Failed? <==> PageFails(env, step.url)
    ensures Paced(env, steps + [step], maxNew)
  {
    assert (steps + [step])[..|steps|] == steps;
  }

  /** One more step adds its count when its article was inserted, and its URL when its page
      was crawled. */
  lemma StepsSnoc(steps: seq<PageStep>, step: PageStep)
    ensures CountedLinks(steps + [step]) == CountedLinks(steps) + (if step.Crawled? && step.inserted then step.added else 0)
    ensures CrawledUrls(steps + [step]) == CrawledUrls(steps) + (if step.Crawled? then {step.url} else {})
  {
    assert (steps + [step])[..|steps|] == steps;
  }

  /** How one visit may change the queue: no URL is forgotten, a done URL stays done, parents
      never change, only the visited URL can become done (and does when its page was crawled),
      every new URL was discovered on the visited page and is on its domain, and a failed
      page changes nothing. */
  ghost predicate Transition(env: Env, s0: map<string, Status>, p0: map<string, Option<string>>,
                             s1: map<string, Status>, p1: map<string, Option<string>>, step: PageStep)
  {
    && s0.Keys <= s1.Keys
    && (forall u :: u in s0 && s0[u] == Done ==> s1[u] == Done)
    && (forall u :: u in s0 && u in p0 && u in p1 ==> p1[u] == p0[u])
    && (forall u :: u in s1 && s1[u] == Done ==> (u in s0 && s0[u] == Done) || (step.Crawled? && u == step.url))
    && (forall u :: u in s1 && u !in s0 ==> u in p1 && p1[u] == Some(step.url) && SameDomain(env, step.url, u))
    && (step.Crawled? ==> step.url in s1 && s1[step.url] == Done)
    && (step.Failed? ==> s1 == s0 && p1 == p0)
  }

  /** What `crawl_html` keeps true of the queue, relative to the queue `s0` it started from:
      crawled pages are done, a page became done only by being crawled, and every URL the run
      enqueued, other than the root, was found on a crawled page of its own domain. */
  ghost predicate Explained(env: Env, baseUrl: string, s0: map<string, Status>,
                            s: map<string, Status>, p: map<string, Option<string>>, steps: seq<PageStep>)
  {
    && s.Keys == p.Keys
    && baseUrl in s
    && s0.Keys <= s.Keys
    && (forall u :: u in CrawledUrls(steps) ==> u in s && s[u] == Done)
    && (forall u :: u in s && s[u] == Done ==> (u in s0 && s0[u] == Done) || u in CrawledUrls(steps))
    && (forall u :: u in s && u !in s0 && u != baseUrl ==> p[u].Some?)
    && (forall u :: u in s && u !in s0 && p[u].Some? ==>
          p[u].value in CrawledUrls(steps) && SameDomain(env, p[u].value, u))
    && (baseUrl !in s0 ==> p[baseUrl] == None)
  }

  lemma ExplainedStep(env: Env, baseUrl: string, s0: map<string, Status>,
                      s: map<string, Status>, p: map<string, Option<string>>,
                      s1: map<string, Status>, p1: map<string, Option<string>>,
                      steps: seq<PageStep>, step: PageStep)
    requires Explained(env, baseUrl, s0, s, p, steps)
    requires Transition(env, s, p, s1, p1, step) && s1.Keys == p1.Keys
    requires CrawledUrls(steps + [step]) == CrawledUrls(steps) + (if step.Crawled? then {step.url} else {})
    ensures Explained(env, baseUrl, s0, s1, p1, steps + [step])
  {
  }

  /** The URLs the run first enqueued whose parent page had its article newly stored. */
  ghost function Credited(s0: map<string, Status>, s: map<string, Status>, p: map<string, Option<string>>,
                          stored: set<string>): set<string>
  {
    set u | u in s && u !in s0 && u in p && p[u].Some? && p[u].value in stored
  }

  /** A visit adds its link count to the credited URLs exactly when its article was inserted:
      the URLs it enqueued have the page as parent, and no URL enqueued before does, since the
      page was not crawled before. */
  lemma CreditStep(env: Env, s0: map<string, Status>,
                   s: map<string, Status>, p: map<string, Option<string>>,
                   s1: map<string, Status>, p1: map<string, Option<string>>,
                   crawled: set<string>, step: PageStep, stored: set<string>, stored1: set<string>)
    requires s0.Keys <= s.Keys && s.Keys == p.Keys && s1.Keys == p1.Keys
    requires forall u :: u in s && u !in s0 && p[u].Some? ==> p[u].value in crawled
    requires Transition(env, s, p, s1, p1, step)
    requires step.url !in crawled && stored <= crawled
    requires step.Crawled? && step.inserted ==> stored1 == stored + {step.url}
    requires !(step.Crawled? && step.inserted) ==> stored1 == stored
    requires step.Crawled? ==> step.added == |s1.Keys - s.Keys|
    ensures |Credited(s0, s1, p1, stored1)|
              == |Credited(s0, s, p, stored)| + (if step.Crawled? && step.inserted then step.added else 0)
  {
    var x := step.url;
    assert forall u :: u in s ==> p1[u] == p[u];
    assert forall u :: u in s && u !in s0 && p[u].Some? ==> p[u].value != x;
    if step.Crawled? && step.inserted {
      CreditGrows(s0, s, p, s1, p1, stored, x);
      DisjointCard(Credited(s0, s, p, stored), s1.Keys - s.Keys);
    } else {
      CreditSame(s0, s, p, s1, p1, stored, x);
    }
  }

  lemma CreditGrows(s0: map<string, Status>, s: map<string, Status>, p: map<string, Option<string>>,
                    s1: map<string, Status>, p1: map<string, Option<string>>, stored: set<string>, x: string)
    requires s0.Keys <= s.Keys <= s1.Keys && s.Keys == p.Keys && s1.Keys == p1.Keys
    requires forall u :: u in s ==> p1[u] == p[u]
    requires forall u :: u in s1 && u !in s ==> p1[u] == Some(x)
    requires forall u :: u in s && u !in s0 && p[u].Some? ==> p[u].value != x
    ensures Credited(s0, s1, p1, stored + {x}) == Credited(s0, s, p, stored) + (s1.Keys - s.Keys)
  {
  }

  lemma CreditSame(s0: map<string, Status>, s: map<string, Status>, p: map<string, Option<string>>,
                   s1: map<string, Status>, p1: map<string, Option<string>>, stored: set<string>, x: string)
    requires s0.Keys <= s.Keys <= s1.Keys && s.Keys == p.Keys && s1.Keys == p1.Keys
    requires forall u :: u in s ==> p1[u] == p[u]
    requires forall u :: u in s1 && u !in s ==> p1[u] == Some(x)
    requires x !in stored
    ensures Credited(s0, s1, p1, stored) == Credited(s0, s, p, stored)
  {
  }

  lemma DisjointCard(a: set<string>, b: set<string>)
    requires a * b == {}
    ensures |a + b| == |a| + |b|
  {
  }

  /** What `crawl_html` keeps true from where it started (the store `(c0, e0)` and the queue
      `s0`): the queue is explained by the steps, the store holds exactly the articles of the
      acquirable crawled pages, and `new_count` is the number of credited URLs. */
  ghost predicate Progress(env: Env, baseUrl: string, fetchedAt: string, now: int, maxNew: nat,
                           c0: map<string, Store.Row>, e0: map<string, Store.ErrorRecord>, s0: map<string, Status>,
                           c: map<string, Store.Row>, e: map<string, Store.ErrorRecord>,
                           s: map<string, Status>, p: map<string, Option<string>>, steps: seq<PageStep>)
  {
    && Paced(env, steps, maxNew)
    && Explained(env, baseUrl, s0, s, p, steps)
    && Acquired(env, c0, e0, c, e, CrawledUrls(steps), fetchedAt, now)
    && CountedLinks(steps) == |Credited(s0, s, p, c.Keys - c0.Keys)|
  }

  /** What one visit does to the store, from `(c, e)` to `(c1, e1)`: nothing when the page
      failed; otherwise the article is inserted exactly when it was acquirable, and the error
      table changes as `crawl_article` changes it. */
  ghost predicate Recorded(env: Env, fetchedAt: string, now: int,
                           c: map<string, Store.Row>, e: map<string, Store.ErrorRecord>,
                           c1: map<string, Store.Row>, e1: map<string, Store.ErrorRecord>, step: PageStep)
  {
    && (step.Failed? ==> c1 == c && e1 == e)
    && (step.Crawled? ==>
          && step.inserted == Acquirable(env, c, e, step.url, now)
          && c1 == (if step.inserted then c[step.url := ArticleRow(env, step.url, fetchedAt)] else c)
          && e1 == ArticleErrors(env, e, step.url, now))
  }

  /** The store part of `Progress` survives one visit, and the visit adds its URL to the stored
      ones exactly when it inserted. */
  lemma AcquiredVisit(env: Env, fetchedAt: string, now: int,
                      c0: map<string, Store.Row>, e0: map<string, Store.ErrorRecord>,
                      c: map<string, Store.Row>, e: map<string, Store.ErrorRecord>,
                      c1: map<string, Store.Row>, e1: map<string, Store.ErrorRecord>,
                      steps: seq<PageStep>, step: PageStep)
    requires Acquired(env, c0, e0, c, e, CrawledUrls(steps), fetchedAt, now)
    requires Recorded(env, fetchedAt, now, c, e, c1, e1, step)
    ensures Acquired(env, c0, e0, c1, e1, CrawledUrls(steps + [step]), fetchedAt, now)
    ensures c.Keys - c0.Keys <= CrawledUrls(steps)
    ensures step.Crawled? && step.inserted ==> c1.Keys - c0.Keys == (c.Keys - c0.Keys) + {step.url}
    ensures !(step.Crawled? && step.inserted) ==> c1 == c
  {
    var crawled := CrawledUrls(steps);
    StepsSnoc(steps, step);
    AcquiredWithin(env, c0, e0, c, e, crawled, fetchedAt, now);
    if step.Crawled? {
      AcquiredCrawl(env, fetchedAt, now, c0, e0, c, e, c1, e1, crawled, step.url, step.inserted);
    }
  }

  /** The store part of `AcquiredVisit` for a page that was crawled. */
  lemma AcquiredCrawl(env: Env, fetchedAt: string, now: int,
                      c0: map<string, Store.Row>, e0: map<string, Store.ErrorRecord>,
                      c: map<string, Store.Row>, e: map<string, Store.ErrorRecord>,
                      c1: map<string, Store.Row>, e1: map<string, Store.ErrorRecord>,
                      crawled: set<string>, url: string, inserted: bool)
    requires Acquired(env, c0, e0, c, e, crawled, fetchedAt, now)
    requires inserted == Acquirable(env, c, e, url, now)
    requires c1 == (if inserted then c[url := ArticleRow(env, url, fetchedAt)] else c)
    requires e1 == ArticleErrors(env, e, url, now)
    ensures Acquired(env, c0, e0, c1, e1, crawled + {url}, fetchedAt, now)
    ensures inserted ==> c1.Keys - c0.Keys == (c.Keys - c0.Keys) + {url}
  {
    AcquiredStep(env, c0, e0, c, e, c1, e1, crawled, url, inserted, fetchedAt, now);
    if inserted {
      AcquiredWithin(env, c0, e0, c, e, crawled, fetchedAt, now);
      StoredStep(c0, c, url, ArticleRow(env, url, fetchedAt));
    }
  }

  /** One visit of a pending URL keeps `Progress`. */
  lemma ProgressStep(env: Env, baseUrl: string, fetchedAt: string, now: int, maxNew: nat,
                     c0: map<string, Store.Row>, e0: map<string, Store.ErrorRecord>, s0: map<string, Status>,
                     c: map<string, Store.Row>, e: map<string, Store.ErrorRecord>,
                     s: map<string, Status>, p: map<string, Option<string>>, steps: seq<PageStep>,
                     c1: map<string, Store.Row>, e1: map<string, Store.ErrorRecord>,
                     s1: map<string, Status>, p1: map<string, Option<string>>, step: PageStep)
    requires Progress(env, baseUrl, fetchedAt, now, maxNew, c0, e0, s0, c, e, s, p, steps)
    requires CountedLinks(steps) < maxNew
    requires step.url in s && s[step.url] == Pending
    requires step.Failed? <==> PageFails(env, step.url)
    requires Transition(env, s, p, s1, p1, step) && s1.Keys == p1.Keys
    requires step.Crawled? ==> step.added == |s1.Keys - s.Keys|
    requires Recorded(env, fetchedAt, now, c, e, c1, e1, step)
    ensures Progress(env, baseUrl, fetchedAt, now, maxNew, c0, e0, s0, c1, e1, s1, p1, steps + [step])
  {
    StepsSnoc(steps, step);
    PacedStep(env, steps, step, maxNew);
    ExplainedStep(env, baseUrl, s0, s, p, s1, p1, steps, step);
    AcquiredVisit(env, fetchedAt, now, c0, e0, c, e, c1, e1, steps, step);
    assert step.url !in CrawledUrls(steps);
    CreditStep(env, s0, s, p, s1, p1, CrawledUrls(steps), step, c.Keys - c0.Keys, c1.Keys - c0.Keys);
  }

  lemma AcquiredWithin(env: Env, c0: map<string, Store.Row>, e0: map<string, Store.ErrorRecord>,
                       c: map<string, Store.Row>, e: map<string, Store.ErrorRecord>,
                       attempted: set<string>, fetchedAt: string, now: int)
    requires Acquired(env, c0, e0, c, e, attempted, fetchedAt, now)
    ensures c.Keys - c0.Keys <= attempted
  {
  }

  lemma StoredStep(c0: map<string, Store.Row>, c: map<string, Store.Row>, url: string, row: Store.Row)
    requires c0.Keys <= c.Keys && url !in c
    ensures c[url := row].Keys - c0.Keys == (c.Keys - c0.Keys) + {url}
  {
  }

  /** In a batch of distinct URLs, visiting one leaves the later ones pending. */
  lemma PendingKept(env: Env, s: map<string, Status>, p: map<string, Option<string>>,
                    s1: map<string, Status>, p1: map<string, Option<string>>, step: PageStep,
                    targets: seq<string>, i: nat)
    requires i < |targets| && step.url == targets[i]
    requires forall j, k :: 0 <= j < k < |targets| ==> targets[j] != targets[k]
    requires forall j :: i <= j < |targets| ==> targets[j] in s && s[targets[j]] == Pending
    requires Transition(env, s, p, s1, p1, step)
    ensures forall j :: i + 1 <= j < |targets| ==> targets[j] in s1 && s1[targets[j]] == Pending
  {
    forall j | i + 1 <= j < |targets|
      ensures targets[j] in s1 && s1[targets[j]] == Pending
    {
      assert targets[j] != targets[i];
    }
  }

  /** One URL of a batch, as `crawl_html`'s inner loop handles it: `crawl_page`; on success
      `crawl_article` (an error counts as not inserted) and `mark_done`. */
  method Visit(db: Store.Db, q: Queue, env: Env, url: string, fetchedAt: string, now: int)
    returns (step: PageStep)
    requires db.Valid() && q.Valid()
    modifies db, q
    ensures db.Valid() && q.Valid()
    ensures step.url == url
    ensures step.Failed? <==> PageFails(env, url)
    ensures url in old(q.status) ==> Transition(env, old(q.status), old(q.parent), q.status, q.parent, step)
    ensures step.Failed? ==> q.status == old(q.status) && q.parent == old(q.parent)
    ensures step.Crawled? ==>
              && PageLinks(env, url).Ok?
              && step.added == |Elems(PageLinks(env, url).value) - old(q.status).Keys|
              && step.added == |q.status.Keys - old(q.status).Keys|
    ensures Recorded(env, fetchedAt, now, old(db.contents), old(db.errors), db.contents, db.errors, step)
  {
    ghost var s0, p0 := q.status, q.parent;
    ghost var c0, e0 := db.contents, db.errors;
    var page := CrawlPage(q, env, url);
    ghost var s1, p1 := q.status, q.parent;
    PageFailsIff(env, url);
    match page {
      case Ok(added) =>
        ghost var links := Elems(PageLinks(env, url).value);
        assert s1.Keys == s0.Keys + links && added == |links - s0.Keys|;
        var inserted := TryArticle(db, env, url, fetchedAt, now);
        q.MarkDone(url);
        step := Crawled(url, added, inserted);
        assert q.status.Keys == s1.Keys;
        UnionDiff(s0.Keys, links);
        assert Recorded(env, fetchedAt, now, c0, e0, db.contents, db.errors, step);
        if url in s0 {
          VisitTransition(env, url, s0, p0, s1, p1, q.status, q.parent, step);
        }
      case Err(_) =>
        step := Failed(url);
        assert s1 == s0 && p1 == p0;
        if url in s0 {
          VisitTransition(env, url, s0, p0, s1, p1, q.status, q.parent, step);
        }
    }
  }

  lemma UnionDiff(a: set<string>, b: set<string>)
    ensures (a + b) - a == b - a
  {
  }

  lemma VisitTransition(env: Env, url: string, s0: map<string, Status>, p0: map<string, Option<string>>,
                        s1: map<string, Status>, p1: map<string, Option<string>>,
                        s2: map<string, Status>, p2: map<string, Option<string>>, step: PageStep)
    requires url in s0 && step.url == url
    requires Discovers(env, url, s0, p0, s1, p1)
    requires step.Crawled? ==> s2 == (if url in s1 then s1[url := Done] else s1) && p2 == p1
    requires step.Failed? ==> s1 == s0 && p1 == p0 && s2 == s1 && p2 == p1
    ensures Transition(env, s0, p0, s2, p2, step)
  {
  }

  /** One batch of `crawl_html`'s inner loop: the handed-out URLs are visited in order until
      the count reaches the cap, continuing the count and the steps taken so far. */
  method CrawlBatch(db: Store.Db, q: Queue, env: Env, baseUrl: string,
                    ghost c0: map<string, Store.Row>, ghost e0: map<string, Store.ErrorRecord>,
                    ghost status0: map<string, Status>,
                    targets: seq<string>, maxNew: nat, count0: nat, ghost steps0: seq<PageStep>,
                    fetchedAt: string, now: int)
    returns (count: nat, ghost steps: seq<PageStep>)
    requires db.Valid() && q.Valid()
    requires forall j :: 0 <= j < |targets| ==> targets[j] in q.status && q.status[targets[j]] == Pending
    requires forall j, k :: 0 <= j < k < |targets| ==> targets[j] != targets[k]
    requires count0 == CountedLinks(steps0)
    requires Progress(env, baseUrl, fetchedAt, now, maxNew, c0, e0, status0, db.contents, db.errors, q.status, q.parent, steps0)
    modifies db, q
    ensures db.Valid() && q.Valid()
    ensures count == CountedLinks(steps)
    ensures Progress(env, baseUrl, fetchedAt, now, maxNew, c0, e0, status0, db.contents, db.errors, q.status, q.parent, steps)
  {
    count, steps := count0, steps0;
    for i := 0 to |targets|
      invariant db.Valid() && q.Valid()
      invariant count == CountedLinks(steps)
      invariant forall j :: i <= j < |targets| ==> targets[j] in q.status && q.status[targets[j]] == Pending
      invariant Progress(env, baseUrl, fetchedAt, now, maxNew, c0, e0, status0, db.contents, db.errors, q.status, q.parent, steps)
    {
      if count >= maxNew {
        break;
      }
      var step := Advance(db, q, env, baseUrl, c0, e0, status0, targets, i, maxNew, steps, fetchedAt, now);
      count := count + (if step.Crawled? && step.inserted then step.added else 0);
      steps := steps + [step];
    }
  }

  /** One iteration of the inner loop, below the cap: the visit of `targets[i]` extends the
      steps by one, keeps `Progress`, and leaves the later targets pending. */
  method Advance(db: Store.Db, q: Queue, env: Env, baseUrl: string,
                 ghost c0: map<string, Store.Row>, ghost e0: map<string, Store.ErrorRecord>,
                 ghost status0: map<string, Status>, targets: seq<string>, i: nat, maxNew: nat,
                 ghost steps: seq<PageStep>, fetchedAt: string, now: int)
    returns (step: PageStep)
    requires db.Valid() && q.Valid()
    requires i < |targets|
    requires forall j :: i <= j < |targets| ==> targets[j] in q.status && q.status[targets[j]] == Pending
    requires forall j, k :: 0 <= j < k < |targets| ==> targets[j] != targets[k]
    requires CountedLinks(steps) < maxNew
    requires Progress(env, baseUrl, fetchedAt, now, maxNew, c0, e0, status0, db.contents, db.errors, q.status, q.parent, steps)
    modifies db, q
    ensures db.Valid() && q.Valid()
    ensures step.url == targets[i]
    ensures forall j :: i + 1 <= j < |targets| ==> targets[j] in q.status && q.status[targets[j]] == Pending
    ensures CountedLinks(steps + [step]) == CountedLinks(steps) + (if step.Crawled? && step.inserted then step.added else 0)
    ensures Progress(env, baseUrl, fetchedAt, now, maxNew, c0, e0, status0, db.contents, db.errors, q.status, q.parent, steps + [step])
  {
    ghost var c, e, s, p := db.contents, db.errors, q.status, q.parent;
    step := Visit(db, q, env, targets[i], fetchedAt, now);
    ProgressStep(env, baseUrl, fetchedAt, now, maxNew, c0, e0, status0, c, e, s, p, steps,
                 db.contents, db.errors, q.status, q.parent, step);
    PendingKept(env, s, p, q.status, q.parent, step, targets, i);
    StepsSnoc(steps, step);
  }

  /** `crawl_html(base_url, max_new)`, with at most `fuel` batches: a failing page stays pending
      and is handed out again, so the source's loop need not terminate. The ghost results are
      the final `new_count`, the steps taken and the number of batches. `new_count` ends up
      as the number of URLs the run first enqueued from pages whose article it newly stored. */
  method CrawlHtml(db: Store.Db, q: Queue, env: Env, baseUrl: string, maxNew: nat,
                   fetchedAt: string, now: int, fuel: nat)
    returns (ghost newCount: nat, ghost steps: seq<PageStep>, ghost rounds: nat)
    requires db.Valid() && q.Valid()
    modifies db, q
    ensures db.Valid() && q.Valid()
    ensures newCount == CountedLinks(steps)
    ensures newCount == |Credited(old(q.status), q.status, q.parent, db.contents.Keys - old(db.contents).Keys)|
    ensures Acquired(env, old(db.contents), old(db.errors), db.contents, db.errors, CrawledUrls(steps), fetchedAt, now)
    ensures rounds <= fuel
    ensures newCount >= maxNew || q.PendingSet() == {} || rounds == fuel
    ensures Paced(env, steps, maxNew)
    ensures Explained(env, baseUrl, old(q.status), q.status, q.parent, steps)
  {
    ghost var status0 := q.status;
    var _ := q.Enqueue(baseUrl, None);
    var count: nat := 0;
    var batches: nat := 0;
    steps := [];
    AcquiredNone(env, db.contents, db.errors, fetchedAt, now);
    assert Credited(status0, q.status, q.parent, db.contents.Keys - old(db.contents).Keys) == {};
    while batches < fuel
      invariant db.Valid() && q.Valid()
      invariant count == CountedLinks(steps)
      invariant batches <= fuel
      invariant Progress(env, baseUrl, fetchedAt, now, maxNew, old(db.contents), old(db.errors), status0,
                         db.contents, db.errors, q.status, q.parent, steps)
      decreases fuel - batches
    {
      if count >= maxNew {
        break;
      }
      var targets := q.NextPending(BatchSize);
      if targets == [] {
        break;
      }
      batches := batches + 1;
      count, steps := CrawlBatch(db, q, env, baseUrl, old(db.contents), old(db.errors), status0,
                                 targets, maxNew, count, steps, fetchedAt, now);
    }
    newCount, rounds := count, batches;
  }

  // ---------------------------------------------------------------- fetch_and_store

  /** The last URL attempted is one whose row was newly inserted. */
  ghost predicate EndsWithInsert(c0: map<string, Store.Row>, c1: map<string, Store.Row>, attempted: seq<string>)
  {
    attempted != [] && attempted[|attempted| - 1] in c1 && attempted[|attempted| - 1] !in c0
  }

  lemma ElemsGrow(urls: seq<string>, i: nat)
    requires i < |urls|
    ensures Elems(urls[..i + 1]) == Elems(urls[..i]) + {urls[i]}
  {
    assert urls[..i + 1] == urls[..i] + [urls[i]];
    ElemsSnoc(urls[..i], urls[i]);
  }

  /** The sitemap branch of `fetch_and_store`: the URLs are handed to `crawl_article` in order,
      only newly inserted articles count, and the loop stops right after the fifth insertion.
      So the number of insertions is the smaller of five and the number of distinct listed
      URLs that were acquirable when the loop started. The ghost results are the URLs
      attempted and the number of insertions. */
  method AcquireListed(db: Store.Db, env: Env, urls: seq<string>, fetchedAt: string, now: int)
    returns (ghost attempted: seq<string>, ghost counter: nat)
    requires db.Valid()
    modifies db
    ensures db.Valid()
    ensures attempted <= urls
    ensures Acquired(env, old(db.contents), old(db.errors), db.contents, db.errors, Elems(attempted), fetchedAt, now)
    ensures counter == |AcquirableIn(env, old(db.contents), old(db.errors), Elems(attempted), now)|
    ensures counter == Min(MaxNewPerSite, |AcquirableIn(env, old(db.contents), old(db.errors), Elems(urls), now)|)
    ensures |attempted| < |urls| ==> counter == MaxNewPerSite && EndsWithInsert(old(db.contents), db.contents, attempted)
  {
    ghost var c0, e0 := db.contents, db.errors;
    var count: nat := 0;
    var i := 0;
    ghost var seen: set<string> := {};
    assert Elems(urls[..0]) == {};
    AcquiredNone(env, c0, e0, fetchedAt, now);
    while i < |urls|
      invariant db.Valid()
      invariant i <= |urls|
      invariant count < MaxNewPerSite
      invariant seen == Elems(urls[..i])
      invariant Acquired(env, c0, e0, db.contents, db.errors, seen, fetchedAt, now)
      invariant count == |AcquirableIn(env, c0, e0, seen, now)|
    {
      ghost var c, e := db.contents, db.errors;
      var inserted := TryArticle(db, env, urls[i], fetchedAt, now);
      AcquiredStep(env, c0, e0, c, e, db.contents, db.errors, seen, urls[i], inserted, fetchedAt, now);
      ElemsGrow(urls, i);
      seen := seen + {urls[i]};
      i := i + 1;
      if inserted {
        count := count + 1;
        if count >= MaxNewPerSite {
          assert EndsWithInsert(c0, db.contents, urls[..i]);
          break;
        }
      }
    }
    attempted, counter := urls[..i], count;
    ElemsPrefix(attempted, urls);
    SubsetCard(AcquirableIn(env, c0, e0, Elems(attempted), now), AcquirableIn(env, c0, e0, Elems(urls), now));
    if i == |urls| {
      assert attempted == urls;
    }
  }

  /** `fetch_and_store(base_url)`: the sitemap when it yields URLs, with the queue untouched;
      otherwise the breadth-first crawl from the base URL with the same cap. Either way old
      rows are kept and each new row holds its page's article. From the sitemap, the new rows
      are acquirable listed URLs, as many as the smaller of five and the number of those. */
  method FetchAndStore(db: Store.Db, q: Queue, env: Env, baseUrl: string, fetchedAt: string, now: int, fuel: nat)
    requires db.Valid() && q.Valid()
    modifies db, q
    ensures db.Valid() && q.Valid()
    ensures forall u :: u in old(db.contents) ==> u in db.contents && db.contents[u] == old(db.contents)[u]
    ensures forall u :: u in db.contents && u !in old(db.contents) ==>
              Fetches(env, u) && db.contents[u] == ArticleRow(env, u, fetchedAt)
    ensures SitemapResult(env, baseUrl).Ok? ==> TouchesOnly(old(db.errors), db.errors, Elems(SitemapResult(env, baseUrl).value))
    ensures SitemapResult(env, baseUrl).Ok? ==> q.status == old(q.status) && q.parent == old(q.parent)
    ensures SitemapResult(env, baseUrl).Ok? ==>
              var listed := AcquirableIn(env, old(db.contents), old(db.errors), Elems(SitemapResult(env, baseUrl).value), now);
              && db.contents.Keys <= old(db.contents).Keys + listed
              && |db.contents| == |old(db.contents)| + Min(MaxNewPerSite, |listed|)
              && (|listed| <= MaxNewPerSite ==> db.contents.Keys == old(db.contents).Keys + listed)
    ensures SitemapResult(env, baseUrl).Err? ==> baseUrl in q.status
  {
    ghost var c0, e0 := db.contents, db.errors;
    var sitemap := FetchSitemap(env, baseUrl);
    if sitemap.Ok? {
      ghost var attempted, counter := AcquireListed(db, env, sitemap.value, fetchedAt, now);
      ghost var tried := AcquirableIn(env, c0, e0, Elems(attempted), now);
      ghost var listed := AcquirableIn(env, c0, e0, Elems(sitemap.value), now);
      ElemsPrefix(attempted, sitemap.value);
      assert tried <= listed;
      AcquiredCount(env, c0, e0, db.contents, db.errors, Elems(attempted), fetchedAt, now);
      SubsetCard(tried, listed);
    } else {
      ghost var newCount, steps, rounds := CrawlHtml(db, q, env, baseUrl, MaxNewPerSite, fetchedAt, now, fuel);
    }
  }
}
