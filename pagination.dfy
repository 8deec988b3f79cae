/**
 * The paginated search of `query_jira` (exercise.py:59-73). The search
 * endpoint is an oracle from the `startAt` offset to the page it answers
 * with; the HTTP request, the URL and the credentials are not modelled.
 */
module Pagination {
  import opened Wrappers
  import opened Tickets

  /** `maxResults` of every request, and the step of the offset. */
  const PageSize: nat := 1000

  /** A decoded search response: its `issues` list and its `total`, either of which may be absent. */
  datatype Page = Page(issues: Option<seq<Issue>>, total: Option<int>)

  /** `response.json().get("issues", [])` */
  function PageIssues(p: Page): (r: seq<Issue>)
    ensures p.issues.Some? ==> r == p.issues.value
    ensures p.issues.None? ==> r == []
  {
    p.issues.GetOr([])
  }

  /** `response.json().get("total", 0)` */
  function PageTotal(p: Page): (r: int)
    ensures p.total.Some? ==> r == p.total.value
    ensures p.total.None? ==> r == 0
  {
    p.total.GetOr(0)
  }

  /** The search endpoint, as seen by the script: the page served at each offset. */
  type Server = nat -> Page

  /**
   * No page reports a total above `bound`. The loop stops once the offset
   * passes the reported total, so a bound on the totals bounds the number of
   * requests; a server whose total keeps reaching each next offset keeps
   * the script looping forever.
   */
  ghost predicate TotalsBounded(server: Server, bound: int)
  {
    forall o: nat :: PageTotal(server(o)) <= bound
  }

  /**
   * The offsets requested from `offset` on: one request per page, the next
   * offset `PageSize` further, and the last page the first whose total is
   * below the offset that follows it.
   */
  ghost function Requests(server: Server, bound: int, offset: nat): seq<nat>
    requires TotalsBounded(server, bound)
    decreases bound - offset
  {
    if PageTotal(server(offset)) < offset + PageSize then [offset]
    else [offset] + Requests(server, bound, offset + PageSize)
  }

  /**
   * At least one request is made; the offsets start at `offset` and step by
   * `PageSize`, so they strictly increase; every page but the last reports a
   * total at or above the offset that follows it, and the last one below.
   */
  lemma {:induction false} RequestsShape(server: Server, bound: int, offset: nat)
    requires TotalsBounded(server, bound)
    ensures var r := Requests(server, bound, offset);
      |r| >= 1 &&
      (forall k :: 0 <= k < |r| ==> r[k] == offset + PageSize * k) &&
      (forall k :: 0 <= k < |r| - 1 ==> PageTotal(server(r[k])) >= r[k] + PageSize) &&
      PageTotal(server(r[|r| - 1])) < r[|r| - 1] + PageSize
    decreases bound - offset
  {
    var r := Requests(server, bound, offset);
    if PageTotal(server(offset)) >= offset + PageSize {
      var rest := Requests(server, bound, offset + PageSize);
      RequestsShape(server, bound, offset + PageSize);
      assert r == [offset] + rest;
      assert r[|r| - 1] == rest[|rest| - 1];
      forall k | 0 <= k < |r|
        ensures r[k] == offset + PageSize * k
      {
        if k > 0 {
          assert r[k] == rest[k - 1];
        }
      }
      forall k | 0 <= k < |r| - 1
        ensures PageTotal(server(r[k])) >= r[k] + PageSize
      {
        if k > 0 {
          assert r[k] == rest[k - 1];
        }
      }
    } else {
      assert r == [offset];
    }
  }

  /** The issues of the pages at `offsets`, concatenated in request order. */
  ghost function Gathered(server: Server, offsets: seq<nat>): seq<Issue>
  {
    if offsets == [] then [] else PageIssues(server(offsets[0])) + Gathered(server, offsets[1..])
  }

  /** All issues a run of `query_jira` collects. */
  ghost function Fetched(server: Server, bound: int): seq<Issue>
    requires TotalsBounded(server, bound)
  {
    Gathered(server, Requests(server, bound, 0))
  }

  /**
   * `query_jira`: request pages at offsets 0, 1000, 2000, ... until the
   * reported total is below the next offset, and return the concatenation of
   * their issues. `requested` records the offsets of the requests sent.
   */
  method QueryJira(server: Server, ghost bound: int) returns (issues: seq<Issue>, ghost requested: seq<nat>)
    requires TotalsBounded(server, bound)
    ensures requested == Requests(server, bound, 0)
    ensures issues == Gathered(server, requested)
    ensures issues == Fetched(server, bound)
  {
    var offset: nat := 0;
    var morePages := true;
    issues := [];
    requested := [];
    while morePages
      invariant morePages ==> requested + Requests(server, bound, offset) == Requests(server, bound, 0)
      invariant !morePages ==> requested == Requests(server, bound, 0)
      invariant issues == Gathered(server, requested)
      decreases morePages, bound - offset
    {
      var page := server(offset);
      RequestStep(server, bound, requested, offset);
      GatheredStep(server, requested, offset);
      issues := issues + PageIssues(page);
      requested := requested + [offset];
      offset := offset + PageSize;
      if PageTotal(page) < offset {
        morePages := false;
      }
    }
  }

  /** One iteration of the loop moves one offset from the pending requests to the sent ones. */
  lemma RequestStep(server: Server, bound: int, sent: seq<nat>, offset: nat)
    requires TotalsBounded(server, bound)
    requires sent + Requests(server, bound, offset) == Requests(server, bound, 0)
    ensures PageTotal(server(offset)) < offset + PageSize ==> sent + [offset] == Requests(server, bound, 0)
    ensures PageTotal(server(offset)) >= offset + PageSize ==>
      (sent + [offset]) + Requests(server, bound, offset + PageSize) == Requests(server, bound, 0)
  {
    if PageTotal(server(offset)) >= offset + PageSize {
      var rest := Requests(server, bound, offset + PageSize);
      assert Requests(server, bound, offset) == [offset] + rest;
      assert sent + ([offset] + rest) == (sent + [offset]) + rest;
    }
  }

  /** Sending one more request appends its page's issues. */
  lemma GatheredStep(server: Server, sent: seq<nat>, offset: nat)
    ensures Gathered(server, sent + [offset]) == Gathered(server, sent) + PageIssues(server(offset))
  {
    GatheredSplit(server, sent, [offset]);
    assert Gathered(server, [offset]) == PageIssues(server(offset)) + Gathered(server, []);
  }

  /** Gathering distributes over concatenation of the offset lists. */
  lemma {:induction false} GatheredSplit(server: Server, a: seq<nat>, b: seq<nat>)
    ensures Gathered(server, a + b) == Gathered(server, a) + Gathered(server, b)
  {
    if a != [] {
      assert (a + b)[1..] == a[1..] + b;
      GatheredSplit(server, a[1..], b);
    } else {
      assert a + b == b;
    }
  }

  /** The bound on the totals only guarantees termination: the requests do not depend on it. */
  lemma {:induction false} RequestsIgnoreBound(server: Server, b1: int, b2: int, offset: nat)
    requires TotalsBounded(server, b1) && TotalsBounded(server, b2)
    ensures Requests(server, b1, offset) == Requests(server, b2, offset)
    decreases b1 - offset
  {
    if PageTotal(server(offset)) >= offset + PageSize {
      RequestsIgnoreBound(server, b1, b2, offset + PageSize);
    }
  }

  /** With every page reporting the same total `t`, exactly `t / 1000 + 1` pages are requested. */
  lemma {:induction false} RequestCountForConstantTotal(server: Server, t: int, offset: nat)
    requires forall o: nat :: PageTotal(server(o)) == t
    requires offset <= t
    ensures |Requests(server, t, offset)| == (t - offset) / PageSize + 1
    decreases t - offset
  {
    if PageTotal(server(offset)) >= offset + PageSize {
      RequestCountForConstantTotal(server, t, offset + PageSize);
      assert (t - offset) / PageSize == (t - offset - PageSize) / PageSize + 1;
    }
  }

  /** A first page without `total` ends the search after one request. */
  lemma MissingTotalStops(server: Server, bound: int)
    requires TotalsBounded(server, bound) && server(0).total.None?
    ensures Requests(server, bound, 0) == [0]
    ensures Fetched(server, bound) == PageIssues(server(0))
  {
    assert Gathered(server, [0]) == PageIssues(server(0)) + Gathered(server, []);
  }

  function Min(a: int, b: int): int
  {
    if a < b then a else b
  }

  /**
   * A well-behaved server: it holds the result list `all`, serves the slice
   * of up to `PageSize` issues at each offset, and reports `|all|` as the total.
   */
  function WellBehaved(all: seq<Issue>): Server
  {
    (o: nat) => Page(Some(all[Min(o, |all|)..Min(o + PageSize, |all|)]), Some(|all|))
  }

  /** Against a well-behaved server every issue is fetched exactly once, in order. */
  lemma WellBehavedFetchesAll(all: seq<Issue>)
    ensures TotalsBounded(WellBehaved(all), |all|)
    ensures Fetched(WellBehaved(all), |all|) == all
  {
    WellBehavedFrom(all, 0);
  }

  lemma {:induction false} WellBehavedFrom(all: seq<Issue>, offset: nat)
    requires offset <= |all|
    ensures TotalsBounded(WellBehaved(all), |all|)
    ensures Gathered(WellBehaved(all), Requests(WellBehaved(all), |all|, offset)) == all[offset..]
    decreases |all| - offset
  {
    var server := WellBehaved(all);
    assert TotalsBounded(server, |all|);
    var page := server(offset);
    if offset + PageSize > |all| {
      assert Requests(server, |all|, offset) == [offset];
      assert Gathered(server, [offset]) == PageIssues(page) + Gathered(server, []);
    } else {
      var rest := Requests(server, |all|, offset + PageSize);
      assert Requests(server, |all|, offset) == [offset] + rest;
      WellBehavedFrom(all, offset + PageSize);
      assert ([offset] + rest)[1..] == rest;
      assert all[offset..] == all[offset..offset + PageSize] + all[offset + PageSize..];
    }
  }
}
