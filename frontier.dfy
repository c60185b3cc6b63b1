/** The crawl queue that `crawl_html` drives through `db::enqueue`, `db::next_pending` and
    `db::mark_done`. The repository calls these three functions but does not define them, nor
    does `db::init` create a queue table, so their behaviour here is an ASSUMPTION taken from
    the call sites (src/blog.rs:113-116, 136, 178): `enqueue` is insert-if-absent and reports
    whether the URL is new, `next_pending(limit)` hands out at most `limit` distinct pending
    URLs (none only when nothing is pending), and `mark_done` takes a URL out of the pending
    set. The bodies below are one implementation meeting those assumptions. */
module Frontier {
  import opened Wrappers

  datatype Status = Pending | Done

  class Queue {
    /** The status of every URL ever enqueued. */
    var status: map<string, Status>
    /** The page each URL was discovered on (None for a crawl root). */
    var parent: map<string, Option<string>>

    ghost predicate Valid()
      reads this
    {
      status.Keys == parent.Keys
    }

    function PendingSet(): set<string>
      reads this
    {
      set u | u in status && status[u] == Pending
    }

    constructor ()
      ensures Valid() && status == map[] && parent == map[]
    {
      status := map[];
      parent := map[];
    }

    /** `enqueue(url, parent)`: adds a first sighting as pending and reports true; a URL seen
        before (pending or done) is left alone and reported false. */
    method Enqueue(url: string, parentUrl: Option<string>) returns (added: bool)
      requires Valid()
      modifies this
      ensures Valid()
      ensures added <==> url !in old(status)
      ensures status == if added then old(status)[url := Pending] else old(status)
      ensures parent == if added then old(parent)[url := parentUrl] else old(parent)
    {
      added := url !in status;
      if added {
        status := status[url := Pending];
        parent := parent[url := parentUrl];
      }
    }

    /** `next_pending(limit)`: up to `limit` distinct pending URLs, in an order left open. */
    method NextPending(limit: nat) returns (batch: seq<string>)
      requires Valid()
      ensures |batch| <= limit
      ensures forall i :: 0 <= i < |batch| ==> batch[i] in status && status[batch[i]] == Pending
      ensures forall i, j :: 0 <= i < j < |batch| ==> batch[i] != batch[j]
      ensures |batch| == Min(limit, |PendingSet()|)
    {
      batch := [];
      var remaining := PendingSet();
      while |batch| < limit && remaining != {}
        invariant remaining <= PendingSet()
        invariant forall i :: 0 <= i < |batch| ==> batch[i] in PendingSet() && batch[i] !in remaining
        invariant forall i, j :: 0 <= i < j < |batch| ==> batch[i] != batch[j]
        invariant |batch| + |remaining| == |PendingSet()|
        invariant |batch| <= limit
        decreases remaining
      {
        var u :| u in remaining;
        batch := batch + [u];
        remaining := remaining - {u};
      }
    }

    /** `mark_done(url)`: a known URL becomes done; an unknown one changes nothing. */
    method MarkDone(url: string)
      requires Valid()
      modifies this
      ensures Valid()
      ensures status == if url in old(status) then old(status)[url := Done] else old(status)
      ensures parent == old(parent)
    {
      if url in status {
        status := status[url := Done];
      }
    }
  }
}
