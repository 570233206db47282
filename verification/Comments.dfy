/**
 * The comment pages after the first (src/jira/client.rs, src/pipeline.rs): what is read from an
 * arbitrary server, with how many requests, and under which positions it is reported.
 */
module Comments {
  import opened Wrappers

  const COMMENTS_PAGE_SIZE: nat := 50
  const MAX_COMMENT_PAGES: nat := 40

  /**
   * A server over a fixed thread: how many comments it returns from a position, whether the
   * page states the total (zero stands for no total), and which requests fail.
   */
  datatype Server<!T> = Server(
    thread: seq<T>,
    pageLength: nat -> nat,
    statesTotal: nat -> bool,
    fails: nat -> bool)
  {
    /** A page holds the thread's comments from its position, however many, and is empty only past the end. */
    ghost predicate Honest() {
      forall at: nat ::
        && (at < |thread| ==> 1 <= pageLength(at) && at + pageLength(at) <= |thread|)
        && (at >= |thread| ==> pageLength(at) == 0)
    }

    function Total(at: nat): nat {
      if statesTotal(at) then |thread| else 0
    }

    /** The loop leaves after a request at `at`: an empty page, or the total is reached. */
    predicate Last(at: nat) {
      pageLength(at) == 0 || (Total(at) > 0 && at + pageLength(at) >= Total(at))
    }

    /** Where reading stands after at most `n` requests. */
    function Reached(at: nat, n: nat): (end: nat)
      ensures at <= end
      decreases n, at
    {
      if n == 0 then at
      else if Last(at) then at + pageLength(at)
      else Reached(at + pageLength(at), n - 1)
    }

    /** Whether reading ended by itself within `n` requests. */
    predicate Completes(at: nat, n: nat)
      decreases n, at
    {
      n > 0 && (Last(at) || Completes(at + pageLength(at), n - 1))
    }

    /** Some request among the first `n` fails. */
    predicate FailsWithin(at: nat, n: nat)
      decreases n, at
    {
      n > 0 && (fails(at) || (!Last(at) && FailsWithin(at + pageLength(at), n - 1)))
    }
  }

  /** The position of the `n`-th request, as long as reading goes on. */
  function Position<T>(s: Server<T>, at: nat, n: nat): nat
    decreases n, at
  {
    if n == 0 then at else Position(s, at + s.pageLength(at), n - 1)
  }

  /** The `n`-th request is made: none before it fails or is the last. */
  ghost predicate Requests<T>(s: Server<T>, at: nat, n: nat) {
    forall j | 0 <= j < n :: !s.fails(Position(s, at, j)) && !s.Last(Position(s, at, j))
  }

  /** The `n`-th request is made and fails. */
  ghost predicate FailsAt<T>(s: Server<T>, at: nat, n: nat) {
    Requests(s, at, n) && s.fails(Position(s, at, n))
  }

  lemma PositionShift<T>(s: Server<T>, at: nat, n: nat)
    ensures Position(s, at, 0) == at
    ensures Position(s, at, n + 1) == Position(s, at + s.pageLength(at), n)
  {
  }

  lemma RequestsShift<T>(s: Server<T>, at: nat, n: nat)
    ensures Requests(s, at, n + 1) <==> !s.fails(at) && !s.Last(at) && Requests(s, at + s.pageLength(at), n)
  {
    var next := at + s.pageLength(at);
    PositionShift(s, at, 0);
    if Requests(s, at, n + 1) {
      assert !s.fails(Position(s, at, 0)) && !s.Last(Position(s, at, 0));
      forall j | 0 <= j < n
        ensures !s.fails(Position(s, next, j)) && !s.Last(Position(s, next, j))
      {
        assert Position(s, at, j + 1) == Position(s, next, j);
      }
    }
    if !s.fails(at) && !s.Last(at) && Requests(s, next, n) {
      forall j | 0 <= j < n + 1
        ensures !s.fails(Position(s, at, j)) && !s.Last(Position(s, at, j))
      {
        if j > 0 {
          PositionShift(s, at, j - 1);
        }
      }
    }
  }

  lemma FailsAtShift<T>(s: Server<T>, at: nat, n: nat)
    ensures FailsAt(s, at, 0) <==> s.fails(at)
    ensures FailsAt(s, at, n + 1) <==> !s.fails(at) && !s.Last(at) && FailsAt(s, at + s.pageLength(at), n)
  {
    PositionShift(s, at, n);
    RequestsShift(s, at, n);
  }

  /** Reading fails exactly when one of the requests it makes fails. */
  lemma {:induction false} FailsWithinIff<T>(s: Server<T>, at: nat, n: nat)
    ensures s.FailsWithin(at, n) <==> exists j | 0 <= j < n :: FailsAt(s, at, j)
    decreases n
  {
    if n > 0 {
      var next := at + s.pageLength(at);
      FailsWithinIff(s, next, n - 1);
      FailsAtShift(s, at, 0);
      if j :| 0 <= j < n && FailsAt(s, at, j) {
        if j > 0 {
          FailsAtShift(s, at, j - 1);
        }
      }
      if s.FailsWithin(at, n) && !s.fails(at) {
        var j :| 0 <= j < n - 1 && FailsAt(s, next, j);
        FailsAtShift(s, at, j);
        assert FailsAt(s, at, j + 1);
      }
    }
  }

  lemma {:induction false} ReachedBounds<T>(s: Server<T>, at: nat, n: nat)
    requires s.Honest()
    ensures at <= |s.thread| ==> s.Reached(at, n) <= |s.thread|
    ensures at >= |s.thread| ==> s.Reached(at, n) == at
    decreases n
  {
    if n > 0 && !s.Last(at) {
      ReachedBounds(s, at + s.pageLength(at), n - 1);
    }
  }

  /** The slice of the thread between two positions; empty when the first lies past the end. */
  function Slice<T>(thread: seq<T>, at: nat, end: nat): seq<T> {
    if at <= end <= |thread| then thread[at..end] else []
  }

  lemma SliceJoin<T>(thread: seq<T>, at: nat, mid: nat, end: nat)
    requires at <= mid <= end && (at <= |thread| ==> end <= |thread|)
    ensures Slice(thread, at, end) == Slice(thread, at, mid) + Slice(thread, mid, end)
  {
  }

  /**
   * `None` when a request failed; otherwise what was read, and whether reading ended by itself
   * (when it did not, a warning says that the thread is scanned in part).
   */
  method GetCommentsAfter<T>(s: Server<T>, offset: nat)
    returns (comments: Option<seq<T>>, complete: bool, requests: nat)
    requires s.Honest()
    ensures requests <= MAX_COMMENT_PAGES
    ensures comments.None? <==> s.FailsWithin(offset, MAX_COMMENT_PAGES)
    ensures comments.Some? ==>
              && comments.value == Slice(s.thread, offset, s.Reached(offset, MAX_COMMENT_PAGES))
              && complete == s.Completes(offset, MAX_COMMENT_PAGES)
  {
    var read: seq<T> := [];
    var next := offset;
    complete := false;
    requests := 0;
    while requests < MAX_COMMENT_PAGES && !complete
      invariant requests <= MAX_COMMENT_PAGES
      invariant offset <= next && (offset <= |s.thread| ==> next <= |s.thread|)
      invariant read == Slice(s.thread, offset, next)
      invariant s.Completes(offset, MAX_COMMENT_PAGES) == (complete || s.Completes(next, MAX_COMMENT_PAGES - requests))
      invariant s.Reached(offset, MAX_COMMENT_PAGES) == if complete then next else s.Reached(next, MAX_COMMENT_PAGES - requests)
      invariant s.FailsWithin(offset, MAX_COMMENT_PAGES) == (!complete && s.FailsWithin(next, MAX_COMMENT_PAGES - requests))
    {
      if s.fails(next) {
        return None, false, requests + 1;
      }
      var fetched := s.pageLength(next);
      SliceJoin(s.thread, offset, next, next + fetched);
      read := read + Slice(s.thread, next, next + fetched);
      complete := s.Last(next);
      next := next + fetched;
      requests := requests + 1;
    }
    comments := Some(read);
  }

  // ----- how much is read -----

  /** Reading that ended by itself has read the whole tail. */
  lemma {:induction false} CompleteIsWholeTail<T>(s: Server<T>, at: nat, n: nat)
    requires s.Honest() && at <= |s.thread| && s.Completes(at, n)
    ensures s.Reached(at, n) == |s.thread|
    decreases n
  {
    if !s.Last(at) {
      CompleteIsWholeTail(s, at + s.pageLength(at), n - 1);
    }
  }

  /**
   * The converse needs the total: when every page states it, the warning about a partial
   * thread is given exactly when comments are missing.
   */
  lemma {:induction false} WarnsIffPartial<T>(s: Server<T>, at: nat, n: nat)
    requires s.Honest() && at < |s.thread| && forall p: nat :: s.statesTotal(p)
    ensures s.Completes(at, n) <==> s.Reached(at, n) == |s.thread|
    decreases n
  {
    if n > 0 {
      var next := at + s.pageLength(at);
      if next < |s.thread| {
        WarnsIffPartial(s, next, n - 1);
      }
    }
  }

  lemma {:induction false} OneMoreRequest<T>(s: Server<T>, at: nat, n: nat)
    requires s.Honest() && n > 0
    ensures s.Completes(at, n) <==> s.Completes(at, n - 1) || s.Last(s.Reached(at, n - 1))
    ensures s.Reached(at, n) == if s.Completes(at, n - 1) then s.Reached(at, n - 1)
                                else s.Reached(at, n - 1) + s.pageLength(s.Reached(at, n - 1))
    decreases n
  {
    if n > 1 && !s.Last(at) {
      OneMoreRequest(s, at + s.pageLength(at), n - 1);
    }
  }

  /** The last page permitted is read, ends the thread, and states no total. */
  predicate EndsUntold<T>(s: Server<T>, at: nat, n: nat) {
    && n > 0 && !s.Completes(at, n - 1)
    && var p := s.Reached(at, n - 1);
       p < |s.thread| && p + s.pageLength(p) == |s.thread| && !s.statesTotal(p)
  }

  /**
   * Exactly when the warning is false, for every server: all of the tail was read and the
   * warning is given if and only if the last page permitted ends the thread without its total.
   */
  lemma FalseWarningIff<T>(s: Server<T>, at: nat, n: nat)
    requires s.Honest() && at < |s.thread|
    ensures s.Reached(at, n) == |s.thread| && !s.Completes(at, n) <==> EndsUntold(s, at, n)
  {
    if n > 0 {
      OneMoreRequest(s, at, n);
      ReachedBounds(s, at, n - 1);
      ReachedBounds(s, at, n);
    }
  }

  /** A server that fills its pages. */
  ghost predicate Full<T>(s: Server<T>) {
    forall at: nat | at < |s.thread| ::
      s.pageLength(at) == if at + COMMENTS_PAGE_SIZE <= |s.thread| then COMMENTS_PAGE_SIZE else |s.thread| - at
  }

  /** With full pages the whole tail is read exactly when it fits the pages allowed. */
  lemma {:induction false} WholeTailIff<T>(s: Server<T>, at: nat, n: nat)
    requires s.Honest() && Full(s) && at <= |s.thread|
    ensures s.Reached(at, n) == |s.thread| <==> |s.thread| - at <= n * COMMENTS_PAGE_SIZE
    decreases n
  {
    if n > 0 && at < |s.thread| {
      var next := at + s.pageLength(at);
      if next < |s.thread| {
        WholeTailIff(s, next, n - 1);
      } else {
        EndReached(s, next, n - 1);
      }
    }
  }

  /** With full pages, reading stands after each page at the next multiple of the page size. */
  lemma {:induction false} FullPages<T>(s: Server<T>, at: nat, n: nat)
    requires s.Honest() && Full(s) && at + n * COMMENTS_PAGE_SIZE < |s.thread|
    ensures s.Reached(at, n) == at + n * COMMENTS_PAGE_SIZE && !s.Completes(at, n)
    decreases n
  {
    if n > 0 {
      FullPages(s, at + COMMENTS_PAGE_SIZE, n - 1);
    }
  }

  /** With full pages: the tail ends on the last page permitted, and that page states no total. */
  lemma FalseWarningOfFullPagesIff<T>(s: Server<T>, at: nat, n: nat)
    requires s.Honest() && Full(s) && at < |s.thread|
    ensures s.Reached(at, n) == |s.thread| && !s.Completes(at, n) <==>
              && n > 0 && (n - 1) * COMMENTS_PAGE_SIZE < |s.thread| - at <= n * COMMENTS_PAGE_SIZE
              && !s.statesTotal(at + (n - 1) * COMMENTS_PAGE_SIZE)
  {
    WholeTailIff(s, at, n);
    FalseWarningIff(s, at, n);
    if n > 0 {
      WholeTailIff(s, at, n - 1);
      if (n - 1) * COMMENTS_PAGE_SIZE < |s.thread| - at {
        FullPages(s, at, n - 1);
      } else {
        ReadAndDone(s, at, n - 1);
      }
    }
  }

  /** A tail that ended before the last page permitted is not reported as a cut. */
  lemma ReadAndDone<T>(s: Server<T>, at: nat, n: nat)
    requires s.Honest() && at < |s.thread| && s.Reached(at, n) == |s.thread|
    ensures !EndsUntold(s, at, n + 1)
  {
  }

  lemma EndReached<T>(s: Server<T>, at: nat, n: nat)
    requires s.Honest() && at == |s.thread|
    ensures s.Reached(at, n) == at
  {
    ReachedBounds(s, at, n);
  }

  // ----- the positions comments are reported under -----

  /** The `comment` field of an issue payload; `None` when the payload has none. */
  datatype Payload<T> = Payload(total: nat, startAt: nat, comments: seq<T>)

  /** `comment_paging`: the total, and where the pages after the payload start. */
  function CommentPaging<T>(p: Option<Payload<T>>): (nat, nat) {
    match p
    case None => (0, 0)
    case Some(c) => (c.total, c.startAt + |c.comments|)
  }

  /** A comment and the index in its reported path, `comment.comments[<index>].body`. */
  datatype Labelled<T> = Labelled(index: nat, comment: T)

  function Numbered<T>(comments: seq<T>, first: nat): (r: seq<Labelled<T>>)
    ensures |r| == |comments|
  {
    seq(|comments|, i requires 0 <= i < |comments| => Labelled(first + i, comments[i]))
  }

  /** All comments of an issue: those of its payload, then the pages after them unless reading them failed. */
  method IssueComments<T>(s: Server<T>, payload: Option<Payload<T>>) returns (all: seq<Labelled<T>>)
    requires s.Honest()
    ensures all == Gathered(s, payload)
  {
    all := FirstPage(payload);
    var (total, offset) := CommentPaging(payload);
    if total > offset {
      var fetched, _, _ := GetCommentsAfter(s, offset);
      if fetched.Some? {
        all := AddNumbered(all, fetched.value, offset);
      }
    }
  }

  method AddNumbered<T>(before: seq<Labelled<T>>, comments: seq<T>, first: nat) returns (all: seq<Labelled<T>>)
    ensures all == before + Numbered(comments, first)
  {
    all := before;
    for i := 0 to |comments|
      invariant all == before + Numbered(comments, first)[..i]
    {
      all := all + [Labelled(first + i, comments[i])];
    }
  }

  function FirstPage<T>(payload: Option<Payload<T>>): seq<Labelled<T>> {
    if payload.Some? then Numbered(payload.value.comments, 0) else []
  }

  function Gathered<T>(s: Server<T>, payload: Option<Payload<T>>): seq<Labelled<T>> {
    var (total, offset) := CommentPaging(payload);
    if total <= offset || s.FailsWithin(offset, MAX_COMMENT_PAGES) then FirstPage(payload)
    else FirstPage(payload) + Numbered(Slice(s.thread, offset, s.Reached(offset, MAX_COMMENT_PAGES)), offset)
  }

  /** The payload carries the thread from its `startAt`, and the thread's total. */
  predicate TrueTo<T(==)>(c: Payload<T>, thread: seq<T>) {
    && c.total == |thread|
    && c.startAt + |c.comments| <= |thread|
    && c.comments == thread[c.startAt..c.startAt + |c.comments|]
  }

  /** Comment `k` of all: how it is labelled, and which comment of the thread it is. */
  lemma GatheredAt<T>(s: Server<T>, c: Payload<T>, k: nat)
    requires s.Honest() && TrueTo(c, s.thread) && k < |Gathered(s, Some(c))|
    ensures var offset := c.startAt + |c.comments|;
            var place := c.startAt + k;
            && place < |s.thread|
            && Gathered(s, Some(c))[k]
               == Labelled(if k < |c.comments| then k else place, s.thread[place])
  {
    var offset := c.startAt + |c.comments|;
    ReachedBounds(s, offset, MAX_COMMENT_PAGES);
  }

  /** No two comments share a path, whatever the payload starts at. */
  lemma LabelsDistinct<T>(s: Server<T>, c: Payload<T>, i: nat, j: nat)
    requires s.Honest() && TrueTo(c, s.thread) && i < j < |Gathered(s, Some(c))|
    ensures Gathered(s, Some(c))[i].index < Gathered(s, Some(c))[j].index
  {
    GatheredAt(s, c, i);
    GatheredAt(s, c, j);
  }

  /** Every path is its comment's place in the thread, exactly when the payload starts at 0 or is empty. */
  lemma LabelsArePositionsIff<T>(s: Server<T>, c: Payload<T>)
    requires s.Honest() && TrueTo(c, s.thread)
    requires forall i, j | 0 <= i < j < |s.thread| :: s.thread[i] != s.thread[j]
    ensures (forall k | 0 <= k < |Gathered(s, Some(c))| :: InPlace(Gathered(s, Some(c))[k], s.thread))
            <==> c.startAt == 0 || c.comments == []
  {
    var n := |Gathered(s, Some(c))|;
    if c.startAt == 0 || c.comments == [] {
      forall k | 0 <= k < n
        ensures InPlace(Gathered(s, Some(c))[k], s.thread)
      {
        GatheredAt(s, c, k);
      }
    } else {
      GatheredAt(s, c, 0);
      assert !InPlace(Gathered(s, Some(c))[0], s.thread);
    }
  }

  predicate InPlace<T(==)>(l: Labelled<T>, thread: seq<T>) {
    l.index < |thread| && thread[l.index] == l.comment
  }

  /**
   * A payload that starts its thread, and a server without failures that fills its pages: every
   * comment of a thread of at most 2000 comments beyond the payload is scanned once, in place.
   */
  lemma EveryCommentScanned<T>(s: Server<T>, payload: Payload<T>)
    requires s.Honest() && Full(s) && TrueTo(payload, s.thread) && payload.startAt == 0
    requires forall at: nat :: !s.fails(at)
    requires |s.thread| - |payload.comments| <= MAX_COMMENT_PAGES * COMMENTS_PAGE_SIZE
    ensures Gathered(s, Some(payload)) == Numbered(s.thread, 0)
  {
    NeverFails(s, |payload.comments|, MAX_COMMENT_PAGES);
    WholeTailIff(s, |payload.comments|, MAX_COMMENT_PAGES);
    ReachedBounds(s, |payload.comments|, MAX_COMMENT_PAGES);
  }

  lemma {:induction false} NeverFails<T>(s: Server<T>, at: nat, n: nat)
    requires forall at: nat :: !s.fails(at)
    ensures !s.FailsWithin(at, n)
    decreases n
  {
    if n > 0 {
      NeverFails(s, at + s.pageLength(at), n - 1);
    }
  }
}
