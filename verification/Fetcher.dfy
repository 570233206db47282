/**
 * The search page loop (src/fetcher.rs): which of the matching issues reach the pipeline when
 * the loop advances by the page size it asked for and the server caps the page it returns.
 */
module Fetcher {
  import opened Sequences
  import opened Wrappers

  /** A server that returns at most `cap` issues a page, from a fixed result list. */
  function Page<T>(list: seq<T>, startAt: nat, pageSize: nat, cap: nat): (page: seq<T>)
    ensures |page| <= pageSize && |page| <= cap
  {
    var size := if pageSize <= cap then pageSize else cap;
    if startAt >= |list| then []
    else if startAt + size <= |list| then list[startAt..startAt + size]
    else list[startAt..]
  }

  /** All pages from `startAt`, one requested page size apart. */
  function Pages<T>(list: seq<T>, startAt: nat, pageSize: nat, cap: nat): seq<T>
    requires 0 < pageSize
    decreases |list| - startAt
  {
    if startAt >= |list| then []
    else Page(list, startAt, pageSize, cap) + Pages(list, startAt + pageSize, pageSize, cap)
  }

  /** How many issues get through: the limit (zero is none), the cancellation, the consumer's end. */
  function Budget(maxIssues: nat, cancelAt: nat, dropAt: nat): (n: nat)
    ensures n <= cancelAt && n <= dropAt && (maxIssues > 0 ==> n <= maxIssues)
    ensures n == cancelAt || n == dropAt || (0 < maxIssues == n)
  {
    var stop := if cancelAt <= dropAt then cancelAt else dropAt;
    if 0 < maxIssues < stop then maxIssues else stop
  }

  function ShownTotal(total: nat, maxIssues: nat): (n: nat)
    ensures n <= total && (maxIssues > 0 ==> n <= maxIssues)
    ensures n == total || (0 < maxIssues == n)
  {
    if 0 < maxIssues < total then maxIssues else total
  }

  /** Part of `all` is sent: either the rest is still to come, or the budget is used up. */
  predicate Underway<T(==)>(sent: seq<T>, rest: seq<T>, all: seq<T>, n: nat) {
    sent + rest == all || (|sent| == n && sent <= all)
  }

  lemma PageSent<T>(sent: seq<T>, page: seq<T>, rest: seq<T>, all: seq<T>, k: nat, n: nat)
    requires Underway(sent, page + rest, all, n)
    requires k <= |page| && |sent| + k <= n && (k == |page| || |sent| + k == n)
    ensures Underway(sent + page[..k], rest, all, n)
  {
    if sent + (page + rest) == all {
      assert all == (sent + page[..k]) + (page[k..] + rest);
    }
  }

  lemma Finished<T>(sent: seq<T>, rest: seq<T>, all: seq<T>, n: nat)
    requires Underway(sent, rest, all, n) && |sent| <= n
    requires rest == [] || |sent| == n
    ensures sent == Take(all, n)
  {
    assert rest == [] ==> sent + rest == sent;
  }

  /** The inner loop: issues of one page, until a reason to stop. */
  method SendPage<T>(sent: seq<T>, page: seq<T>, maxIssues: nat, cancelAt: nat, dropAt: nat)
    returns (after: seq<T>, ghost k: nat)
    requires |sent| <= Budget(maxIssues, cancelAt, dropAt)
    ensures k <= |page| && after == sent + page[..k]
    ensures |after| <= Budget(maxIssues, cancelAt, dropAt)
    ensures k == |page| || |after| == Budget(maxIssues, cancelAt, dropAt)
  {
    after := sent;
    var i := 0;
    while i < |page| && |after| < cancelAt && !(0 < maxIssues <= |after|) && |after| < dropAt
      invariant i <= |page| && |after| <= Budget(maxIssues, cancelAt, dropAt)
      invariant after == sent + page[..i]
    {
      after := after + [page[i]];
      i := i + 1;
    }
    k := i;
  }

  /** One turn of the outer loop: a page is read and sent. */
  method FetchPage<T>(list: seq<T>, startAt: nat, pageSize: nat, maxIssues: nat, cap: nat, cancelAt: nat, dropAt: nat,
                      sent: seq<T>, ghost all: seq<T>)
    returns (after: seq<T>)
    requires 0 < pageSize && |sent| <= Budget(maxIssues, cancelAt, dropAt)
    requires Underway(sent, Pages(list, startAt, pageSize, cap), all, Budget(maxIssues, cancelAt, dropAt))
    ensures |after| <= Budget(maxIssues, cancelAt, dropAt)
    ensures Underway(after, Pages(list, startAt + pageSize, pageSize, cap), all, Budget(maxIssues, cancelAt, dropAt))
  {
    var page := Page(list, startAt, pageSize, cap);
    ghost var k;
    after, k := SendPage(sent, page, maxIssues, cancelAt, dropAt);
    PagesStep(list, startAt, pageSize, cap);
    PageSent(sent, page, Pages(list, startAt + pageSize, pageSize, cap), all, k, Budget(maxIssues, cancelAt, dropAt));
  }

  /**
   * `cancelAt` and `dropAt` say after how many issues the cancellation is seen and the
   * consumer is gone; `shown` is the total given to the progress bar, if any page was read.
   */
  method FetchIssues<T>(list: seq<T>, pageSize: nat, maxIssues: nat, cap: nat, cancelAt: nat, dropAt: nat)
    returns (sent: seq<T>, fetched: nat, shown: Option<nat>)
    requires 0 < pageSize
    ensures sent == Take(Pages(list, 0, pageSize, cap), Budget(maxIssues, cancelAt, dropAt))
    ensures fetched == |sent|
    ensures shown == if cancelAt == 0 then None else Some(ShownTotal(|list|, maxIssues))
  {
    sent, fetched, shown := [], 0, None;
    var startAt := 0;
    ghost var n := Budget(maxIssues, cancelAt, dropAt);
    ghost var all := Pages(list, 0, pageSize, cap);
    assert [] + all == all;
    while fetched < cancelAt
      invariant fetched == |sent| <= n
      invariant Underway(sent, Pages(list, startAt, pageSize, cap), all, n)
      invariant if startAt > 0 then cancelAt > 0 && shown == Some(ShownTotal(|list|, maxIssues)) else shown == None && sent == []
      decreases |list| - startAt
    {
      shown := Some(ShownTotal(|list|, maxIssues));
      sent := FetchPage(list, startAt, pageSize, maxIssues, cap, cancelAt, dropAt, sent, all);
      fetched := |sent|;
      startAt := startAt + pageSize;
      if 0 < maxIssues <= fetched || startAt >= |list| {
        break;
      }
    }
    Finished(sent, Pages(list, startAt, pageSize, cap), all, n);
  }

  lemma PagesStep<T>(list: seq<T>, startAt: nat, pageSize: nat, cap: nat)
    requires 0 < pageSize
    ensures Pages(list, startAt, pageSize, cap)
            == Page(list, startAt, pageSize, cap) + Pages(list, startAt + pageSize, pageSize, cap)
  {
  }

  // ----- which issues are delivered -----

  /** Issue by issue: position `i` is kept when its place in its requested page is below the cap. */
  function Kept<T>(list: seq<T>, i: nat, pageSize: nat, cap: nat): seq<T>
    requires 0 < pageSize
    decreases |list| - i
  {
    if i >= |list| then []
    else (if i % pageSize < cap then [list[i]] else []) + Kept(list, i + 1, pageSize, cap)
  }

  lemma Ordered(m: nat, a: int, b: int)
    ensures a <= b ==> m * a <= m * b
  {
  }

  /** Quotient and remainder are unique. */
  lemma Remainder(x: nat, m: nat, q: nat, r: nat)
    requires x == m * q + r && r < m
    ensures x % m == r
  {
    var t := x / m;
    assert x == m * t + x % m;
    Ordered(m, q + 1, t);
    Ordered(m, t + 1, q);
    assert m * (q + 1) == m * q + m;
    assert m * (t + 1) == m * t + m;
  }

  lemma PlaceInPage(startAt: nat, r: nat, pageSize: nat)
    requires 0 < pageSize && startAt % pageSize == 0 && r < pageSize
    ensures (startAt + r) % pageSize == r
  {
    Remainder(startAt + r, pageSize, startAt / pageSize, r);
  }

  lemma NextPage(startAt: nat, pageSize: nat)
    requires 0 < pageSize && startAt % pageSize == 0
    ensures (startAt + pageSize) % pageSize == 0
  {
    assert pageSize * (startAt / pageSize + 1) == pageSize * (startAt / pageSize) + pageSize;
    Remainder(startAt + pageSize, pageSize, startAt / pageSize + 1, 0);
  }

  /** Inside one requested page, the positions below the cap are kept and the others skipped. */
  lemma {:induction false} KeptInPage<T>(list: seq<T>, startAt: nat, r: nat, pageSize: nat, cap: nat)
    requires 0 < pageSize && startAt % pageSize == 0 && r <= pageSize
    ensures Kept(list, startAt + r, pageSize, cap) ==
              (if r <= |Page(list, startAt, pageSize, cap)| then Page(list, startAt, pageSize, cap)[r..] else [])
              + Kept(list, startAt + pageSize, pageSize, cap)
    decreases pageSize - r
  {
    var page := Page(list, startAt, pageSize, cap);
    if r < pageSize && startAt + r < |list| {
      PlaceInPage(startAt, r, pageSize);
      KeptInPage(list, startAt, r + 1, pageSize, cap);
      if r < cap {
        assert page[r..] == [list[startAt + r]] + page[r + 1..];
      }
    }
  }

  lemma {:induction false} PagesAreKept<T>(list: seq<T>, startAt: nat, pageSize: nat, cap: nat)
    requires 0 < pageSize && startAt % pageSize == 0
    ensures Pages(list, startAt, pageSize, cap) == Kept(list, startAt, pageSize, cap)
    decreases |list| - startAt
  {
    if startAt < |list| {
      NextPage(startAt, pageSize);
      PagesAreKept(list, startAt + pageSize, pageSize, cap);
      KeptInPage(list, startAt, 0, pageSize, cap);
      var page := Page(list, startAt, pageSize, cap);
      assert page[0..] == page;
    }
  }

  lemma {:induction false} KeptLength<T>(list: seq<T>, i: nat, pageSize: nat, cap: nat)
    requires 0 < pageSize && i <= |list|
    ensures |Kept(list, i, pageSize, cap)| <= |list| - i
    ensures |Kept(list, i, pageSize, cap)| == |list| - i
            <==> forall j | i <= j < |list| :: j % pageSize < cap
    ensures |Kept(list, i, pageSize, cap)| == |list| - i ==> Kept(list, i, pageSize, cap) == list[i..]
    decreases |list| - i
  {
    if i < |list| {
      KeptLength(list, i + 1, pageSize, cap);
    }
  }

  /**
   * Without a limit or an interruption every matching issue is delivered, in order, if and
   * only if the server returns pages as long as those asked for, or one page holds them all.
   */
  lemma AllDeliveredIff<T>(list: seq<T>, pageSize: nat, cap: nat)
    requires 0 < pageSize
    ensures Pages(list, 0, pageSize, cap) == list <==> pageSize <= cap || |list| <= cap
  {
    PlaceInPage(0, 0, pageSize);
    PagesAreKept(list, 0, pageSize, cap);
    KeptLength(list, 0, pageSize, cap);
    if cap < pageSize && cap < |list| {
      PlaceInPage(0, cap, pageSize);
      assert cap % pageSize == cap;
    } else {
      forall j | 0 <= j < |list|
        ensures j % pageSize < cap
      {
        if j < pageSize {
          PlaceInPage(0, j, pageSize);
        }
      }
    }
    assert list[0..] == list;
  }

  lemma PagesLength<T>(list: seq<T>, pageSize: nat, cap: nat)
    requires 0 < pageSize
    ensures |Pages(list, 0, pageSize, cap)| <= |list|
    ensures |Pages(list, 0, pageSize, cap)| == |list| ==> Pages(list, 0, pageSize, cap) == list
  {
    PlaceInPage(0, 0, pageSize);
    PagesAreKept(list, 0, pageSize, cap);
    KeptLength(list, 0, pageSize, cap);
  }

  /** With full pages, a limit delivers the first `maxIssues` matches. */
  lemma LimitDeliversPrefix<T>(list: seq<T>, pageSize: nat, cap: nat, maxIssues: nat, never: nat)
    requires 0 < pageSize <= cap && 0 < maxIssues <= never
    ensures Take(Pages(list, 0, pageSize, cap), Budget(maxIssues, never, never)) == Take(list, maxIssues)
  {
    AllDeliveredIff(list, pageSize, cap);
  }
}
