/**
 * Attachment scanning (src/attachments.rs, src/jira/client.rs): the streamed download with its
 * byte limit, and the per-issue loop with its count limit and byte budget.
 */
module Attachments {
  import opened Sequences
  import opened Wrappers

  /** A response body: the declared length, the chunks that arrive, and whether reading then fails. */
  datatype Response<T> = Response(declared: Option<nat>, chunks: seq<seq<T>>, broken: bool)

  datatype Body<T> = Body(bytes: seq<T>, truncated: bool)

  datatype DownloadError = TooLarge | ReadFailed

  function Flatten<T>(chunks: seq<seq<T>>): seq<T> {
    if chunks == [] then [] else Flatten(chunks[..|chunks| - 1]) + chunks[|chunks| - 1]
  }

  /** What a download is, whatever the chunks: the first `maxBytes` bytes, marked when there were more. */
  function Downloaded<T>(resp: Response<T>, maxBytes: nat): Result<Body<T>, DownloadError> {
    var data := Flatten(resp.chunks);
    if resp.declared.Some? && resp.declared.value > maxBytes then Failure(TooLarge)
    else if |data| > maxBytes then Success(Body(data[..maxBytes], true))
    else if resp.broken then Failure(ReadFailed)
    else Success(Body(data, false))
  }

  method DownloadAttachment<T>(resp: Response<T>, maxBytes: nat) returns (r: Result<Body<T>, DownloadError>)
    ensures r == Downloaded(resp, maxBytes)
    ensures r == Failure(TooLarge) <==> resp.declared.Some? && resp.declared.value > maxBytes
    ensures r == Failure(ReadFailed) <==> r != Failure(TooLarge) && resp.broken && |Flatten(resp.chunks)| <= maxBytes
    ensures r.Success? ==>
              && r.value.bytes == Take(Flatten(resp.chunks), maxBytes)
              && (r.value.truncated <==> |Flatten(resp.chunks)| > maxBytes)
  {
    if resp.declared.Some? && resp.declared.value > maxBytes {
      return Failure(TooLarge);
    }
    var bytes: seq<T> := [];
    var next := 0;
    while next < |resp.chunks|
      invariant next <= |resp.chunks|
      invariant bytes == Flatten(resp.chunks[..next]) && |bytes| <= maxBytes
    {
      var chunk := resp.chunks[next];
      assert resp.chunks[..next + 1][..next] == resp.chunks[..next];
      var room := maxBytes - |bytes|;
      if |chunk| > room {
        FlattenPrefix(resp.chunks, next + 1);
        CutInChunk(bytes, chunk, Flatten(resp.chunks), room);
        return Success(Body(bytes + chunk[..room], true));
      }
      bytes := bytes + chunk;
      next := next + 1;
    }
    assert resp.chunks[..next] == resp.chunks;
    if resp.broken {
      return Failure(ReadFailed);
    }
    r := Success(Body(bytes, false));
  }

  lemma {:induction false} FlattenPrefix<T>(chunks: seq<seq<T>>, n: nat)
    requires n <= |chunks|
    ensures Flatten(chunks[..n]) <= Flatten(chunks)
    decreases |chunks| - n
  {
    if n < |chunks| {
      FlattenPrefix(chunks, n + 1);
      assert chunks[..n + 1][..n] == chunks[..n];
    } else {
      assert chunks[..n] == chunks;
    }
  }

  lemma CutInChunk<T>(bytes: seq<T>, chunk: seq<T>, data: seq<T>, room: nat)
    requires room < |chunk| && bytes + chunk <= data
    ensures |data| > |bytes| + room && data[..|bytes| + room] == bytes + chunk[..room]
  {
  }

  /** Two ways of chunking the same data download the same. */
  lemma ChunkingIrrelevant<T>(a: Response<T>, b: Response<T>, maxBytes: nat)
    requires a.declared == b.declared && a.broken == b.broken && Flatten(a.chunks) == Flatten(b.chunks)
    ensures Downloaded(a, maxBytes) == Downloaded(b, maxBytes)
  {
  }

  // ----- the attachments of one issue -----

  /**
   * One entry of the attachment array: what parsing it, the file-type rules, the origin check
   * and its request come to. `response` is `None` when the request itself fails.
   */
  datatype Entry<T> =
    | Malformed
    | Meta(name: string, textCandidate: bool, sameOrigin: bool, size: nat, response: Option<Response<T>>)

  datatype Policy = Policy(enabled: bool, maxBytesPerAttachment: nat, maxAttachments: nat, maxBytesPerIssue: nat)

  datatype Outcome = Outcome(scanned: nat, skipped: nat, failed: nat, bytesDownloaded: nat)

  datatype Segment<T> = Segment(name: string, bytes: seq<T>)

  /** The loop's variables, with the entries examined and the requests made counted. */
  datatype State<T> = State(outcome: Outcome, budget: nat, segments: seq<Segment<T>>, examined: nat, requests: nat)

  function Start<T>(p: Policy): State<T> {
    State(Outcome(0, 0, 0, 0), p.maxBytesPerIssue, [], 0, 0)
  }

  /** Worth a request whatever the counters: a text candidate of this origin within the size limit. */
  predicate Requestable<T>(p: Policy, e: Entry<T>) {
    e.Meta? && e.textCandidate && e.sameOrigin && e.size <= p.maxBytesPerAttachment
  }

  /** An entry that is requested in this state. */
  predicate Requested<T>(p: Policy, s: State<T>, e: Entry<T>) {
    s.outcome.scanned < p.maxAttachments && Requestable(p, e) && s.budget > 0
  }

  /** What the request brings, with the smaller of the two byte limits. */
  function Fetched<T>(p: Policy, s: State<T>, e: Entry<T>): Option<Body<T>>
    requires e.Meta?
  {
    if e.response.None? then None
    else
      match Downloaded(e.response.value, if p.maxBytesPerAttachment <= s.budget then p.maxBytesPerAttachment else s.budget)
      case Success(body) => Some(body)
      case Failure(_) => None
  }

  function Step<T>(p: Policy, s: State<T>, e: Entry<T>): State<T> {
    if s.outcome.scanned >= p.maxAttachments then s
    else if e.Malformed? then
      s.(outcome := s.outcome.(failed := s.outcome.failed + 1), examined := s.examined + 1)
    else if !Requested(p, s, e) then
      s.(outcome := s.outcome.(skipped := s.outcome.skipped + 1), examined := s.examined + 1)
    else
      match Fetched(p, s, e)
      case None =>
        s.(outcome := s.outcome.(failed := s.outcome.failed + 1), examined := s.examined + 1, requests := s.requests + 1)
      case Some(body) =>
        var n := |body.bytes|;
        State(
          s.outcome.(scanned := s.outcome.scanned + 1, bytesDownloaded := s.outcome.bytesDownloaded + n),
          if n <= s.budget then s.budget - n else 0,
          s.segments + [Segment(e.name, body.bytes)],
          s.examined + 1,
          s.requests + 1)
  }

  function Collected<T>(p: Policy, entries: seq<Entry<T>>): State<T> {
    if !p.enabled || entries == [] then Start(p)
    else Step(p, Collected(p, entries[..|entries| - 1]), entries[|entries| - 1])
  }

  /** `attachments` is `None` when the issue has no attachment array; `requests` counts the requests sent. */
  method CollectSegments<T>(p: Policy, attachments: Option<seq<Entry<T>>>)
    returns (segments: seq<Segment<T>>, outcome: Outcome, budget: nat, requests: nat)
    ensures var s := Collected(p, if attachments.Some? then attachments.value else []);
            segments == s.segments && outcome == s.outcome && budget == s.budget && requests == s.requests
  {
    segments, outcome, budget, requests := [], Outcome(0, 0, 0, 0), p.maxBytesPerIssue, 0;
    if !p.enabled || attachments.None? {
      return;
    }
    var entries := attachments.value;
    ghost var s: State<T> := Start(p);
    var i := 0;
    while i < |entries|
      invariant i <= |entries|
      invariant s == Collected(p, entries[..i])
      invariant segments == s.segments && outcome == s.outcome && budget == s.budget && requests == s.requests
    {
      var e := entries[i];
      if outcome.scanned >= p.maxAttachments {
        StoppedForGood(p, entries, i);
        return;
      }
      assert entries[..i + 1][..i] == entries[..i];
      i := i + 1;
      ghost var before := s;
      s := Step(p, s, e);
      if e.Malformed? {
        outcome := outcome.(failed := outcome.failed + 1);
        continue;
      }
      if !e.textCandidate || !e.sameOrigin || e.size > p.maxBytesPerAttachment || budget == 0 {
        outcome := outcome.(skipped := outcome.skipped + 1);
        continue;
      }
      var limit := if p.maxBytesPerAttachment <= budget then p.maxBytesPerAttachment else budget;
      var body: Option<Body<T>> := None;
      requests := requests + 1;
      if e.response.Some? {
        var r := DownloadAttachment(e.response.value, limit);
        body := if r.Success? then Some(r.value) else None;
      }
      assert body == Fetched(p, before, e);
      if body.Some? {
        budget := if |body.value.bytes| <= budget then budget - |body.value.bytes| else 0;
        segments := segments + [Segment(e.name, body.value.bytes)];
        outcome := outcome.(scanned := outcome.scanned + 1, bytesDownloaded := outcome.bytesDownloaded + |body.value.bytes|);
      } else {
        outcome := outcome.(failed := outcome.failed + 1);
      }
    }
    assert entries[..i] == entries;
  }

  lemma {:induction false} StoppedForGood<T>(p: Policy, entries: seq<Entry<T>>, i: nat)
    requires i <= |entries| && Collected(p, entries[..i]).outcome.scanned >= p.maxAttachments
    ensures Collected(p, entries) == Collected(p, entries[..i])
    decreases |entries|
  {
    if i == |entries| {
      assert entries[..i] == entries;
    } else {
      var init := entries[..|entries| - 1];
      assert init[..i] == entries[..i];
      StoppedForGood(p, init, i);
    }
  }

  // ----- what the loop keeps -----

  function TotalBytes<T>(segments: seq<Segment<T>>): nat {
    if segments == [] then 0 else TotalBytes(segments[..|segments| - 1]) + |segments[|segments| - 1].bytes|
  }

  /** The books balance. */
  ghost predicate Balanced<T>(p: Policy, s: State<T>) {
    && |s.segments| == s.outcome.scanned <= p.maxAttachments
    && s.outcome.scanned + s.outcome.skipped + s.outcome.failed == s.examined
    && s.budget + s.outcome.bytesDownloaded == p.maxBytesPerIssue
    && s.outcome.bytesDownloaded == TotalBytes(s.segments)
    && s.outcome.scanned <= s.requests <= s.outcome.scanned + s.outcome.failed
  }

  lemma StepBalanced<T>(p: Policy, s: State<T>, e: Entry<T>)
    requires Balanced(p, s)
    ensures Balanced(p, Step(p, s, e))
  {
    var t := Step(p, s, e);
    if t.segments != s.segments {
      assert t.segments[..|t.segments| - 1] == s.segments;
    }
  }

  /**
   * For every attachment list and every server: one segment per scanned attachment and no more
   * than the limit, every entry examined in exactly one column, every byte in the budget.
   */
  lemma {:induction false} BooksBalance<T>(p: Policy, entries: seq<Entry<T>>)
    ensures Balanced(p, Collected(p, entries))
    ensures Collected(p, entries).examined <= |entries|
    ensures p.enabled && Collected(p, entries).examined < |entries| ==>
              Collected(p, entries).outcome.scanned == p.maxAttachments
  {
    if p.enabled && entries != [] {
      var init := entries[..|entries| - 1];
      BooksBalance(p, init);
      StepBalanced(p, Collected(p, init), entries[|entries| - 1]);
    }
  }

  /** A segment is the start of an attachment's data: all of it, or cut at a byte limit. */
  ghost predicate IsStartOf<T>(p: Policy, seg: Segment<T>, e: Entry<T>) {
    && e.Meta? && e.textCandidate && e.sameOrigin && e.response.Some?
    && seg.name == e.name
    && seg.bytes <= Flatten(e.response.value.chunks)
    && |seg.bytes| <= p.maxBytesPerAttachment
  }

  /** Segments come from entries in order, one entry each. */
  ghost predicate DrawnFrom<T>(p: Policy, segments: seq<Segment<T>>, entries: seq<Entry<T>>)
    decreases |entries|
  {
    if entries == [] then segments == []
    else
      var n := |entries| - 1;
      || DrawnFrom(p, segments, entries[..n])
      || (segments != [] && IsStartOf(p, segments[|segments| - 1], entries[n])
          && DrawnFrom(p, segments[..|segments| - 1], entries[..n]))
  }

  lemma {:induction false} SegmentsDrawnFromEntries<T>(p: Policy, entries: seq<Entry<T>>)
    ensures DrawnFrom(p, Collected(p, entries).segments, entries)
  {
    if entries != [] {
      var n := |entries| - 1;
      SegmentsDrawnFromEntries(p, entries[..n]);
      var s, t := Collected(p, entries[..n]), Collected(p, entries);
      if p.enabled && t.segments != s.segments {
        assert t.segments[..|t.segments| - 1] == s.segments;
        assert IsStartOf(p, t.segments[|t.segments| - 1], entries[n]);
      }
    }
  }

  /** A segment is shorter than its attachment only when a limit cut it, and a cut by the issue's budget uses it up. */
  lemma CutOnlyAtALimit<T>(p: Policy, s: State<T>, e: Entry<T>)
    requires Requested(p, s, e) && Fetched(p, s, e).Some?
    ensures var data, bytes := Flatten(e.response.value.chunks), Fetched(p, s, e).value.bytes;
            && (Fetched(p, s, e).value.truncated <==> |bytes| < |data|)
            && (|data| <= p.maxBytesPerAttachment && |data| <= s.budget ==> bytes == data)
            && (|bytes| < |data| ==> |bytes| == p.maxBytesPerAttachment || Step(p, s, e).budget == 0)
  {
  }

  /** A used-up budget stays used up: no later entry is requested. */
  lemma {:induction false} NoRequestWithoutBudget<T>(p: Policy, entries: seq<Entry<T>>, i: nat)
    requires i <= |entries| && Collected(p, entries[..i]).budget == 0
    ensures Collected(p, entries).budget == 0
    ensures Collected(p, entries).requests == Collected(p, entries[..i]).requests
    ensures Collected(p, entries).segments == Collected(p, entries[..i]).segments
    decreases |entries|
  {
    if i == |entries| {
      assert entries[..i] == entries;
    } else {
      var init := entries[..|entries| - 1];
      assert init[..i] == entries[..i];
      NoRequestWithoutBudget(p, init, i);
    }
  }

  // ----- the count limit bounds scanned attachments, not requests -----

  function RequestableCount<T>(p: Policy, entries: seq<Entry<T>>): nat {
    if entries == [] then 0
    else RequestableCount(p, entries[..|entries| - 1]) + if Requestable(p, entries[|entries| - 1]) then 1 else 0
  }

  /** The same entries, as an issue lists them, before another server. */
  ghost predicate SameListing<T>(a: Entry<T>, b: Entry<T>) {
    if a.Malformed? then b.Malformed? else b.Meta? && b == a.(response := b.response)
  }

  ghost predicate SameListings<T>(a: seq<Entry<T>>, b: seq<Entry<T>>) {
    |a| == |b| && forall i | 0 <= i < |a| :: SameListing(a[i], b[i])
  }

  lemma {:induction false} SameCount<T>(p: Policy, a: seq<Entry<T>>, b: seq<Entry<T>>)
    requires SameListings(a, b)
    ensures RequestableCount(p, a) == RequestableCount(p, b)
  {
    if a != [] {
      SameCount(p, a[..|a| - 1], b[..|b| - 1]);
    }
  }

  lemma {:induction false} RequestsWithinCount<T>(p: Policy, entries: seq<Entry<T>>)
    ensures Collected(p, entries).requests <= RequestableCount(p, entries)
  {
    if entries != [] {
      RequestsWithinCount(p, entries[..|entries| - 1]);
    }
  }

  /** The server that fails every request. */
  function Failing<T>(entries: seq<Entry<T>>): (r: seq<Entry<T>>)
    ensures |r| == |entries|
  {
    seq(|entries|, i requires 0 <= i < |entries| =>
      if entries[i].Malformed? then entries[i] else entries[i].(response := None))
  }

  /** When every request fails, each attachment worth one costs one, however many there are. */
  lemma {:induction false} FailuresAreNotCapped<T>(p: Policy, entries: seq<Entry<T>>)
    requires p.enabled && p.maxAttachments > 0 && p.maxBytesPerIssue > 0
    ensures var s := Collected(p, Failing(entries));
            && s.requests == RequestableCount(p, entries)
            && s.budget == p.maxBytesPerIssue && s.outcome.scanned == 0
  {
    if entries != [] {
      var n := |entries| - 1;
      FailuresAreNotCapped(p, entries[..n]);
      assert Failing(entries)[..n] == Failing(entries[..n]);
    }
  }

  /**
   * Exactly when the count limit is a cap on requests: against every server the requests for
   * one issue stay within it if and only if no more attachments are worth a request in the
   * first place, or the policy permits no request at all.
   */
  lemma RequestsCappedIff<T>(p: Policy, entries: seq<Entry<T>>)
    ensures (forall es: seq<Entry<T>> | SameListings(entries, es) :: Collected(p, es).requests <= p.maxAttachments)
            <==> (RequestableCount(p, entries) <= p.maxAttachments
                  || !p.enabled || p.maxAttachments == 0 || p.maxBytesPerIssue == 0)
  {
    if p.enabled && p.maxAttachments > 0 && p.maxBytesPerIssue > 0 {
      assert SameListings(entries, Failing(entries));
      FailuresAreNotCapped(p, entries);
      forall es: seq<Entry<T>> | SameListings(entries, es)
        ensures Collected(p, es).requests <= RequestableCount(p, entries)
      {
        SameCount(p, entries, es);
        RequestsWithinCount(p, es);
      }
    } else {
      forall es: seq<Entry<T>> | SameListings(entries, es)
        ensures Collected(p, es).requests == 0
      {
        NothingRequested(p, es);
      }
    }
  }

  lemma {:induction false} NothingRequested<T>(p: Policy, entries: seq<Entry<T>>)
    requires !p.enabled || p.maxAttachments == 0 || p.maxBytesPerIssue == 0
    ensures Collected(p, entries).requests == 0
    ensures p.maxBytesPerIssue == 0 ==> Collected(p, entries).budget == 0
    ensures p.maxAttachments == 0 ==> Collected(p, entries).outcome.scanned == 0
  {
    if entries != [] {
      NothingRequested(p, entries[..|entries| - 1]);
    }
  }

  /** The requests stay within the count limit plus the failures. */
  lemma RequestBound<T>(p: Policy, entries: seq<Entry<T>>)
    ensures var s := Collected(p, entries);
            s.requests <= p.maxAttachments + s.outcome.failed
  {
    BooksBalance(p, entries);
  }
}
