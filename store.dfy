/** The SQLite store of `src/db.rs`: the `contents` table (insert-if-absent, keyed by id) and
    the `error_sites` table (one upserted row per failing site with a retry window), held as
    two maps. Timestamps of the error table are seconds; `fetched_at` is kept as the opaque
    RFC 3339 text the caller passes. */
module Store {
  import opened Wrappers

  const SecondsPerDay: int := 86400

  /** A `contents` row as `fetch_all` returns it (the `Content` struct). */
  datatype Content = Content(
    id: string,
    contentType: string,
    title: string,
    url: string,
    description: Option<string>,
    thumbnail: Option<string>,
    publishedAt: Option<string>)

  /** A stored `contents` row: the exported columns plus `fetched_at`. */
  datatype Row = Row(content: Content, fetchedAt: string)

  /** An `error_sites` row. */
  datatype ErrorRecord = ErrorRecord(lastErrorAt: int, retryAfter: int, message: string)

  // ---------------------------------------------------------------- error table

  /** `should_skip`: a row exists and the clock is strictly before its `retry_after`. */
  predicate InBackoff(errors: map<string, ErrorRecord>, site: string, now: int)
  {
    site in errors && now < errors[site].retryAfter
  }

  /** The table after `register_error(site, message, retryDays)` at time `now`
      (`INSERT ... ON CONFLICT(site) DO UPDATE`). */
  function Upsert(errors: map<string, ErrorRecord>, site: string, message: string, retryDays: int, now: int)
    : map<string, ErrorRecord>
  {
    errors[site := ErrorRecord(now, now + retryDays * SecondsPerDay, message)]
  }

  /** After an upsert there is exactly one row for the site, carrying the new values; every
      other site's row is as before. */
  lemma UpsertOverwrites(errors: map<string, ErrorRecord>, site: string, message: string, retryDays: int, now: int)
    ensures var e := Upsert(errors, site, message, retryDays, now);
      && e.Keys == errors.Keys + {site}
      && e[site] == ErrorRecord(now, now + retryDays * SecondsPerDay, message)
      && (forall s :: s in errors && s != site ==> e[s] == errors[s])
  {
  }

  /** The backoff window: after `register_error(site, _, d)` at `at`, the site is skipped at every
      later instant before `at + d` days and at none from then on; other sites are unaffected. */
  lemma BackoffWindow(errors: map<string, ErrorRecord>, site: string, message: string, d: int, at: int, now: int)
    ensures InBackoff(Upsert(errors, site, message, d, at), site, now) <==> now < at + d * SecondsPerDay
    ensures forall other :: other != site ==>
              InBackoff(Upsert(errors, site, message, d, at), other, now) == InBackoff(errors, other, now)
  {
  }

  /** With a window of at least one day, the site is skipped from the moment of the error until
      less than `d` days have passed. */
  lemma BackoffHoldsFromRegistration(errors: map<string, ErrorRecord>, site: string, message: string, d: int, at: int, now: int)
    requires d >= 1 && at <= now < at + d * SecondsPerDay
    ensures InBackoff(Upsert(errors, site, message, d, at), site, now)
  {
  }

  /** The seven-day window the crawler registers on a 404. */
  lemma SevenDayWindow(errors: map<string, ErrorRecord>, site: string, at: int)
    ensures InBackoff(Upsert(errors, site, "404", 7, at), site, at)
    ensures InBackoff(Upsert(errors, site, "404", 7, at), site, at + 7 * SecondsPerDay - 1)
    ensures !InBackoff(Upsert(errors, site, "404", 7, at), site, at + 7 * SecondsPerDay)
  {
  }

  // ---------------------------------------------------------------- published_at order

  /** SQLite's BINARY collation on TEXT: lexicographic by code point (memcmp on UTF-8). */
  predicate LexLe(a: string, b: string)
  {
    a == [] || (b != [] && (a[0] < b[0] || (a[0] == b[0] && LexLe(a[1..], b[1..]))))
  }

  lemma {:induction false} LexLeTotal(a: string, b: string)
    ensures LexLe(a, b) || LexLe(b, a)
  {
    if a != [] && b != [] && a[0] == b[0] {
      LexLeTotal(a[1..], b[1..]);
    }
  }

  lemma {:induction false} LexLeTransitive(a: string, b: string, c: string)
    requires LexLe(a, b) && LexLe(b, c)
    ensures LexLe(a, c)
  {
    if a != [] && b != [] && c != [] && a[0] == b[0] && b[0] == c[0] {
      LexLeTransitive(a[1..], b[1..], c[1..]);
    }
  }

  /** `a` may precede `b` under `ORDER BY published_at DESC`, where NULL is the smallest value
      and so comes last. */
  predicate PublishedAtLeast(a: Option<string>, b: Option<string>)
  {
    match (a, b)
    case (Some(x), Some(y)) => LexLe(y, x)
    case (Some(_), None) => true
    case (None, None) => true
    case (None, Some(_)) => false
  }

  lemma PublishedTotal(a: Option<string>, b: Option<string>)
    ensures PublishedAtLeast(a, b) || PublishedAtLeast(b, a)
  {
    if a.Some? && b.Some? {
      LexLeTotal(a.value, b.value);
    }
  }

  lemma PublishedTransitive(a: Option<string>, b: Option<string>, c: Option<string>)
    requires PublishedAtLeast(a, b) && PublishedAtLeast(b, c)
    ensures PublishedAtLeast(a, c)
  {
    if a.Some? && b.Some? && c.Some? {
      LexLeTransitive(c.value, b.value, a.value);
    }
  }

  ghost predicate SortedByPublished(rows: seq<Content>)
  {
    forall i, j :: 0 <= i < j < |rows| ==> PublishedAtLeast(rows[i].publishedAt, rows[j].publishedAt)
  }

  /** Places `c` after every row that may precede it. */
  function InsertByPublished(rows: seq<Content>, c: Content): seq<Content>
  {
    if rows == [] then [c]
    else if PublishedAtLeast(rows[0].publishedAt, c.publishedAt) then [rows[0]] + InsertByPublished(rows[1..], c)
    else [c] + rows
  }

  /** The ids of a list of rows. */
  ghost function Ids(rows: seq<Content>): set<string>
  {
    set r | r in rows :: r.id
  }

  lemma {:induction false} InsertByPublishedElements(rows: seq<Content>, c: Content)
    ensures |InsertByPublished(rows, c)| == |rows| + 1
    ensures multiset(InsertByPublished(rows, c)) == multiset(rows) + multiset{c}
  {
    if rows != [] && PublishedAtLeast(rows[0].publishedAt, c.publishedAt) {
      InsertByPublishedElements(rows[1..], c);
      assert rows == [rows[0]] + rows[1..];
    }
  }

  lemma InsertByPublishedIds(rows: seq<Content>, c: Content)
    ensures forall r :: r in InsertByPublished(rows, c) <==> r in rows || r == c
    ensures Ids(InsertByPublished(rows, c)) == Ids(rows) + {c.id}
  {
    var ins := InsertByPublished(rows, c);
    InsertByPublishedElements(rows, c);
    forall r ensures r in ins <==> r in rows || r == c {
      assert r in ins <==> r in multiset(ins);
      assert r in rows <==> r in multiset(rows);
    }
  }

  lemma SortedCons(x: Content, rows: seq<Content>)
    requires SortedByPublished(rows)
    requires forall r :: r in rows ==> PublishedAtLeast(x.publishedAt, r.publishedAt)
    ensures SortedByPublished([x] + rows)
  {
    var s := [x] + rows;
    forall i, j | 0 <= i < j < |s| ensures PublishedAtLeast(s[i].publishedAt, s[j].publishedAt) {
      assert s[j] == rows[j - 1];
      if i > 0 {
        assert s[i] == rows[i - 1];
      }
    }
  }

  lemma {:induction false} InsertByPublishedSorted(rows: seq<Content>, c: Content)
    requires SortedByPublished(rows)
    ensures SortedByPublished(InsertByPublished(rows, c))
  {
    if rows == [] {
    } else if PublishedAtLeast(rows[0].publishedAt, c.publishedAt) {
      var tail := InsertByPublished(rows[1..], c);
      assert SortedByPublished(rows[1..]) by {
        forall i, j | 0 <= i < j < |rows| - 1
          ensures PublishedAtLeast(rows[1..][i].publishedAt, rows[1..][j].publishedAt)
        {
          assert rows[1..][i] == rows[i + 1] && rows[1..][j] == rows[j + 1];
        }
      }
      InsertByPublishedSorted(rows[1..], c);
      InsertByPublishedIds(rows[1..], c);
      forall r | r in tail ensures PublishedAtLeast(rows[0].publishedAt, r.publishedAt) {
        if r != c {
          var k :| 0 <= k < |rows[1..]| && rows[1..][k] == r;
          assert rows[k + 1] == r;
        }
      }
      SortedCons(rows[0], tail);
    } else {
      PublishedTotal(rows[0].publishedAt, c.publishedAt);
      forall r | r in rows ensures PublishedAtLeast(c.publishedAt, r.publishedAt) {
        var k :| 0 <= k < |rows| && rows[k] == r;
        if k > 0 {
          PublishedTransitive(c.publishedAt, rows[0].publishedAt, rows[k].publishedAt);
        }
      }
      SortedCons(c, rows);
    }
  }

  // ---------------------------------------------------------------- the store

  /** `rows` holds, sorted, exactly the stored rows whose ids are `taken`, one row per id. */
  ghost predicate Gathered(rows: seq<Content>, taken: set<string>, contents: map<string, Row>)
  {
    && |rows| == |taken|
    && Ids(rows) == taken
    && SortedByPublished(rows)
    && forall r :: r in rows ==> r.id in contents && contents[r.id].content == r
  }

  /** Taking one more stored row out of `remaining` keeps the gathered list in order. */
  lemma GatherStep(rows: seq<Content>, remaining: set<string>, contents: map<string, Row>, id: string)
    requires remaining <= contents.Keys && Gathered(rows, contents.Keys - remaining, contents)
    requires id in remaining && contents[id].content.id == id
    ensures Gathered(InsertByPublished(rows, contents[id].content), contents.Keys - (remaining - {id}), contents)
  {
    var row := contents[id].content;
    InsertByPublishedElements(rows, row);
    InsertByPublishedIds(rows, row);
    InsertByPublishedSorted(rows, row);
    assert contents.Keys - (remaining - {id}) == (contents.Keys - remaining) + {id};
  }

  /** Once every id is taken, the list holds each stored row exactly once. */
  lemma GatherDone(rows: seq<Content>, contents: map<string, Row>)
    requires Gathered(rows, contents.Keys - {}, contents)
    ensures SortedByPublished(rows) && |rows| == |contents| && Ids(rows) == contents.Keys
    ensures forall i :: 0 <= i < |rows| ==> rows[i].id in contents && contents[rows[i].id].content == rows[i]
  {
    assert contents.Keys - {} == contents.Keys;
    assert |contents| == |contents.Keys|;
    forall i | 0 <= i < |rows| ensures rows[i].id in contents && contents[rows[i].id].content == rows[i] {
      assert rows[i] in rows;
    }
  }

  class Db {
    /** `contents`, keyed by `id`. */
    var contents: map<string, Row>
    /** `error_sites`, keyed by `site`. */
    var errors: map<string, ErrorRecord>

    /** The primary key of `contents` is the row's own `id`. */
    ghost predicate Valid()
      reads this
    {
      forall id :: id in contents ==> contents[id].content.id == id
    }

    /** `init`: both tables exist and are empty. */
    constructor ()
      ensures Valid() && contents == map[] && errors == map[]
    {
      contents := map[];
      errors := map[];
    }

    /** `insert` (`INSERT OR IGNORE`): adds the row when its id is new, and reports whether it did.
        An existing row, its `fetched_at` included, is left as it was. */
    method Insert(id: string, contentType: string, title: string, url: string,
                  description: Option<string>, thumbnail: Option<string>,
                  publishedAt: Option<string>, fetchedAt: string)
      returns (inserted: bool)
      requires Valid()
      modifies this`contents
      ensures Valid()
      ensures inserted <==> id !in old(contents)
      ensures contents == if inserted
        then old(contents)[id := Row(Content(id, contentType, title, url, description, thumbnail, publishedAt), fetchedAt)]
        else old(contents)
    {
      inserted := id !in contents;
      if inserted {
        contents := contents[id := Row(Content(id, contentType, title, url, description, thumbnail, publishedAt), fetchedAt)];
      }
    }

    /** `register_error` with the clock reading `now`. */
    method RegisterError(site: string, message: string, retryDays: int, now: int)
      modifies this`errors
      ensures errors == Upsert(old(errors), site, message, retryDays, now)
    {
      var retryAfter := now + retryDays * SecondsPerDay;
      errors := errors[site := ErrorRecord(now, retryAfter, message)];
    }

    /** `should_skip` with the clock reading `now`; it reads the table and deletes nothing. */
    method ShouldSkip(site: string, now: int) returns (skip: bool)
      ensures skip <==> site in errors && now < errors[site].retryAfter
      ensures skip == InBackoff(errors, site, now)
    {
      skip := false;
      if site in errors {
        var retryAfter := errors[site].retryAfter;
        if now < retryAfter {
          skip := true;
        }
      }
    }

    /** `fetch_all`: every `contents` row exactly once, without `fetched_at`, in
        `published_at DESC` order (NULLs last); rows with equal `published_at` come in an
        order the model leaves open, as SQLite does. */
    method FetchAll() returns (rows: seq<Content>)
      requires Valid()
      ensures SortedByPublished(rows)
      ensures |rows| == |contents|
      ensures forall i :: 0 <= i < |rows| ==> rows[i].id in contents && contents[rows[i].id].content == rows[i]
      ensures Ids(rows) == contents.Keys
    {
      rows := [];
      var remaining := contents.Keys;
      assert contents.Keys - remaining == {};
      while remaining != {}
        invariant remaining <= contents.Keys
        invariant Gathered(rows, contents.Keys - remaining, contents)
        decreases remaining
      {
        var id :| id in remaining;
        GatherStep(rows, remaining, contents, id);
        rows := InsertByPublished(rows, contents[id].content);
        remaining := remaining - {id};
      }
      GatherDone(rows, contents);
    }
  }
}
