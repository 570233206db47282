/** Which bytes of which attachments are scanned (src/attachments.rs), entry by entry. */
module AttachmentText {
  import opened Attachments
  import opened Sequences
  import opened Wrappers

  function Least(a: int, b: int): int {
    if a <= b then a else b
  }

  /** The data the server has for an attachment. */
  function Data<T>(e: Entry<T>): seq<T>
    requires e.Meta? && e.response.Some?
  {
    Flatten(e.response.value.chunks)
  }

  /**
   * The `j`-th segment is this entry's: a text attachment of the instance within the size limit,
   * and the start of its data, as long as the smaller of the limit for one attachment and what
   * the segments before it have left of the issue's. The server declares no more than that, and does
   * not break off before it.
   */
  ghost predicate Holds<T>(p: Policy, segments: seq<Segment<T>>, j: nat, e: Entry<T>)
    requires j < |segments|
  {
    && e.Meta? && e.textCandidate && e.sameOrigin && e.size <= p.maxBytesPerAttachment && e.response.Some?
    && segments[j].name == e.name
    && TotalBytes(segments[..j]) < p.maxBytesPerIssue
    && var limit := Least(p.maxBytesPerAttachment, p.maxBytesPerIssue - TotalBytes(segments[..j]));
       && segments[j].bytes == Take(Data(e), limit)
       && (e.response.value.declared.Some? ==> e.response.value.declared.value <= limit)
       && (e.response.value.broken ==> |Data(e)| > limit)
  }

  ghost predicate HeldBy<T>(p: Policy, segments: seq<Segment<T>>, entries: seq<Entry<T>>, from: seq<nat>) {
    && |from| == |segments|
    && (forall i, j | 0 <= i < j < |from| :: from[i] < from[j])
    && (forall j | 0 <= j < |from| :: from[j] < |entries| && Holds(p, segments, j, entries[from[j]]))
  }

  lemma StepHolds<T>(p: Policy, s: State<T>, e: Entry<T>)
    requires Balanced(p, s) && Step(p, s, e).segments != s.segments
    ensures var t := Step(p, s, e);
            && |t.segments| == |s.segments| + 1 && t.segments[..|s.segments|] == s.segments
            && Holds(p, t.segments, |s.segments|, e)
  {
    var t := Step(p, s, e);
    assert t.segments[..|s.segments|] == s.segments;
  }

  lemma HoldsLonger<T>(p: Policy, segments: seq<Segment<T>>, more: seq<Segment<T>>, j: nat, e: Entry<T>)
    requires j < |segments| && segments <= more && Holds(p, segments, j, e)
    ensures Holds(p, more, j, e)
  {
    assert more[..j] == segments[..j];
  }

  /** Every segment is exactly the part of its entry's data that the limits leave, and the entries come in order. */
  lemma {:induction false} SegmentsAreCuts<T>(p: Policy, entries: seq<Entry<T>>) returns (from: seq<nat>)
    ensures HeldBy(p, Collected(p, entries).segments, entries, from)
  {
    from := [];
    if p.enabled && entries != [] {
      var n := |entries| - 1;
      var s, t := Collected(p, entries[..n]), Collected(p, entries);
      var earlier := SegmentsAreCuts(p, entries[..n]);
      from := earlier;
      BooksBalance(p, entries[..n]);
      if t.segments != s.segments {
        StepHolds(p, s, entries[n]);
        from := earlier + [n];
        forall j | 0 <= j < |earlier|
          ensures Holds(p, t.segments, j, entries[from[j]])
        {
          HoldsLonger(p, s.segments, t.segments, j, entries[from[j]]);
        }
      }
    }
  }

  // ----- the columns of the outcome -----

  function MalformedCount<T>(entries: seq<Entry<T>>): nat {
    if entries == [] then 0
    else MalformedCount(entries[..|entries| - 1]) + if entries[|entries| - 1].Malformed? then 1 else 0
  }

  /** One entry is not examined at all, or goes to exactly one column. */
  lemma StepColumns<T>(p: Policy, s: State<T>, e: Entry<T>)
    requires s.outcome.scanned <= s.requests
    ensures var t := Step(p, s, e);
            && t.outcome.scanned <= t.requests
            && (s.outcome.scanned >= p.maxAttachments ==> t == s)
            && (s.outcome.scanned < p.maxAttachments ==>
                  && t.examined == s.examined + 1
                  && t.outcome.failed - s.outcome.failed
                     == (t.requests - s.requests) - (t.outcome.scanned - s.outcome.scanned) + if e.Malformed? then 1 else 0)
  {
  }

  lemma OneMoreEntry<T>(entries: seq<Entry<T>>, n: nat)
    requires n + 1 == |entries|
    ensures MalformedCount(entries[..n + 1]) == MalformedCount(entries[..n]) + if entries[n].Malformed? then 1 else 0
    ensures forall k | 0 <= k <= n :: entries[..n][..k] == entries[..k]
  {
    assert entries[..n + 1] == entries;
  }

  /** The entries examined are the first ones; those that failed are the malformed ones and the requests that brought nothing. */
  lemma {:induction false} FailedAre<T>(p: Policy, entries: seq<Entry<T>>)
    ensures var s := Collected(p, entries);
            && s.examined <= |entries|
            && s.outcome.scanned <= s.requests
            && s.outcome.failed == s.requests - s.outcome.scanned + MalformedCount(entries[..s.examined])
  {
    if p.enabled && entries != [] {
      var n := |entries| - 1;
      FailedAre(p, entries[..n]);
      BooksBalance(p, entries[..n]);
      OneMoreEntry(entries, n);
      StepColumns(p, Collected(p, entries[..n]), entries[n]);
    }
  }

  // ----- nothing is left out without a reason -----

  /** A text attachment of the instance within the size limit. */
  predicate IsWanted<T>(p: Policy, e: Entry<T>) {
    e.Meta? && e.textCandidate && e.sameOrigin && e.size <= p.maxBytesPerAttachment
  }

  /** A well-behaved server: it declares the length it sends, or none, and does not break off. */
  predicate Served<T>(p: Policy, e: Entry<T>) {
    IsWanted(p, e) ==>
      && e.response.Some? && !e.response.value.broken
      && |Data(e)| <= p.maxBytesPerAttachment
      && (e.response.value.declared.Some? ==> e.response.value.declared.value == |Data(e)|)
  }

  /** The wanted attachments, whole and in order. */
  function Wanted<T>(p: Policy, entries: seq<Entry<T>>): seq<Segment<T>>
    requires forall e <- entries :: Served(p, e)
  {
    if entries == [] then []
    else
      var n := |entries| - 1;
      assert Served(p, entries[n]) by {
        assert entries[n] in entries;
      }
      Wanted(p, entries[..n])
      + if IsWanted(p, entries[n]) then [Segment(entries[n].name, Data(entries[n]))] else []
  }

  lemma TotalAppend<T>(segments: seq<Segment<T>>, x: Segment<T>)
    ensures TotalBytes(segments + [x]) == TotalBytes(segments) + |x.bytes|
  {
    assert (segments + [x])[..|segments|] == segments;
  }

  lemma StepReads<T>(p: Policy, s: State<T>, e: Entry<T>)
    requires Balanced(p, s) && Served(p, e) && IsWanted(p, e)
    requires s.outcome.scanned < p.maxAttachments && TotalBytes(s.segments) + |Data(e)| < p.maxBytesPerIssue
    ensures Step(p, s, e).segments == s.segments + [Segment(e.name, Data(e))]
  {
  }

  /** When every download succeeds and no limit is reached, every text attachment of the instance is scanned whole. */
  lemma {:induction false} EveryAttachmentRead<T>(p: Policy, entries: seq<Entry<T>>)
    requires p.enabled && forall e <- entries :: Served(p, e)
    requires |Wanted(p, entries)| <= p.maxAttachments && TotalBytes(Wanted(p, entries)) < p.maxBytesPerIssue
    ensures var s := Collected(p, entries);
            && s.segments == Wanted(p, entries)
            && s.outcome.scanned == |Wanted(p, entries)|
            && s.outcome.bytesDownloaded == TotalBytes(Wanted(p, entries))
            && s.outcome.failed <= MalformedCount(entries)
  {
    BooksBalance(p, entries);
    if entries != [] {
      var n := |entries| - 1;
      var e := entries[n];
      assert e in entries;
      var before := Wanted(p, entries[..n]);
      if IsWanted(p, e) {
        TotalAppend(before, Segment(e.name, Data(e)));
      } else {
        assert before + [] == before;
      }
      EveryAttachmentRead(p, entries[..n]);
      StepColumns(p, Collected(p, entries[..n]), e);
      BooksBalance(p, entries[..n]);
      if IsWanted(p, e) {
        StepReads(p, Collected(p, entries[..n]), e);
      }
    }
  }
}
