/**
 * What the findings table means after any sequence of reconciliations: each row is a
 * function of the sightings of its key and of the scans that missed it.
 */
module StoreHistory {
  import opened Wrappers
  import opened Findings
  import opened Store

  /** One reconciliation of a history; an uncommitted one failed and wrote nothing. */
  datatype Attempt = Attempt(call: Call, committed: bool)

  /** One sighting of a key: one reported location in one committed call. */
  datatype Sighting = Sighting(content: RowContent, at: Time, scanId: string)

  function RunTable(h: seq<Attempt>): Table {
    if h == [] then map[]
    else
      var last := h[|h| - 1];
      var before := RunTable(h[..|h| - 1]);
      if last.committed then Reconciled(before, last.call) else before
  }

  function SightingsIn(exps: seq<Exp>, k: FindingKey, at: Time, scanId: string): seq<Sighting> {
    if exps == [] then []
    else
      var e := exps[|exps| - 1];
      SightingsIn(exps[..|exps| - 1], k, at, scanId)
      + if e.key == k then [Sighting(e.content, at, scanId)] else []
  }

  /** The sightings of `k` in one attempt, in report order. */
  function SightingsOf(a: Attempt, k: FindingKey): seq<Sighting> {
    if a.committed then SightingsIn(ExpandAll(a.call.current), k, a.call.now, a.call.scanId) else []
  }

  /** Every sighting of `k` in a history, oldest first. */
  function Sightings(h: seq<Attempt>, k: FindingKey): seq<Sighting> {
    if h == [] then [] else Sightings(h[..|h| - 1], k) + SightingsOf(h[|h| - 1], k)
  }

  /** The attempt scanned the issue of `k` and did not find it there. */
  predicate Misses(a: Attempt, k: FindingKey) {
    a.committed && k.issueKey in a.call.scanned && SightingsOf(a, k) == []
  }

  predicate Touches(a: Attempt, k: FindingKey) {
    a.committed && (k.issueKey in a.call.scanned || SightingsOf(a, k) != [])
  }

  /** An earlier miss of a key already seen, after which the key is not seen again before `i`. */
  ghost predicate Unanswered(h: seq<Attempt>, k: FindingKey, j: nat, i: nat)
    requires j < i <= |h|
  {
    && Misses(h[j], k)
    && Sightings(h[..j], k) != []
    && forall m | j < m < i :: SightingsOf(h[m], k) == []
  }

  /**
   * Attempt `i` is the first miss of `k` after its last sighting: `k` had been seen before,
   * is not seen from `i` on, and every earlier miss was followed by a sighting.
   */
  ghost predicate ClosesAt(h: seq<Attempt>, k: FindingKey, i: nat) {
    && i < |h|
    && Unanswered(h, k, i, |h|)
    && forall j | 0 <= j < i :: !Unanswered(h, k, j, i)
  }

  /** The row that a history promises for `k`, given the attempt that closed it, if any. */
  function ExpectedRow(h: seq<Attempt>, k: FindingKey, closing: Option<Call>): Option<Row> {
    var seen := Sightings(h, k);
    if seen == [] then None
    else
      var last := seen[|seen| - 1];
      match closing
      case Some(c) =>
        Some(Row(last.content, Closed, seen[0].at, c.now, Some(c.now), |seen|, c.scanId))
      case None =>
        Some(Row(last.content, if |seen| == 1 then New else Recurring, seen[0].at, last.at, None, |seen|, last.scanId))
  }

  /** The closing attempt by recursion on the history. */
  function Closing(h: seq<Attempt>, k: FindingKey): (r: Option<nat>)
    ensures r.Some? ==> r.value < |h|
  {
    if h == [] then None
    else
      var a := h[|h| - 1];
      var before := h[..|h| - 1];
      if SightingsOf(a, k) != [] then None
      else if Closing(before, k).Some? then Closing(before, k)
      else if Misses(a, k) && Sightings(before, k) != [] then Some(|h| - 1)
      else None
  }

  // ----- one call, one key -----

  lemma {:induction false} SightingsMeanKeys(exps: seq<Exp>, k: FindingKey, at: Time, scanId: string)
    ensures SightingsIn(exps, k, at, scanId) != [] <==> k in KeysOf(exps)
  {
    if exps != [] {
      var n := |exps| - 1;
      SightingsMeanKeys(exps[..n], k, at, scanId);
      assert exps == exps[..n] + [exps[n]];
    }
  }

  /** An upsert pass changes one row by the sightings of its key only. */
  lemma {:induction false} UpsertAllAt(table: Table, exps: seq<Exp>, now: Time, scanId: string, k: FindingKey)
    ensures var seen := SightingsIn(exps, k, now, scanId);
            Lookup(UpsertAll(table, exps, now, scanId), k) ==
            if seen == [] then Lookup(table, k)
            else if k in table then
              Some(Row(seen[|seen| - 1].content, Recurring, table[k].firstSeen, now, None, table[k].timesSeen + |seen|, scanId))
            else
              Some(Row(seen[|seen| - 1].content, if |seen| == 1 then New else Recurring, now, now, None, |seen|, scanId))
  {
    if exps != [] {
      UpsertAllAt(table, exps[..|exps| - 1], now, scanId, k);
    }
  }

  lemma {:induction false} SightingsStamped(exps: seq<Exp>, k: FindingKey, at: Time, scanId: string)
    ensures forall s <- SightingsIn(exps, k, at, scanId) :: s.at == at && s.scanId == scanId
  {
    if exps != [] {
      SightingsStamped(exps[..|exps| - 1], k, at, scanId);
    }
  }

  /** The whole effect of one committed call on the row of one key. */
  lemma ReconciledAt(table: Table, call: Call, k: FindingKey)
    ensures var seen := SightingsOf(Attempt(call, true), k);
            var row := Lookup(Reconciled(table, call), k);
            && (seen == [] && k !in table ==> row == None)
            && (seen == [] && k in table ==>
                  row == Some(if k.issueKey in call.scanned && table[k].status != Closed
                              then CloseRow(table[k], call.now, call.scanId) else table[k]))
            && (seen != [] && k in table ==>
                  row == Some(Row(seen[|seen| - 1].content, Recurring, table[k].firstSeen, call.now, None,
                                  table[k].timesSeen + |seen|, call.scanId)))
            && (seen != [] && k !in table ==>
                  row == Some(Row(seen[|seen| - 1].content, if |seen| == 1 then New else Recurring, call.now, call.now,
                                  None, |seen|, call.scanId)))
  {
    var exps := ExpandAll(call.current);
    SightingsMeanKeys(exps, k, call.now, call.scanId);
    UpsertAllAt(CloseKeys(table, FlippedKeys(table, call), call.now, call.scanId), exps, call.now, call.scanId, k);
  }

  // ----- the whole history -----

  /** The row a history promises, with the closing call found by `Closing`. */
  function HistoryRow(h: seq<Attempt>, k: FindingKey): Option<Row> {
    ExpectedRow(h, k, match Closing(h, k) case Some(i) => Some(h[i].call) case None => None)
  }

  /** One more attempt, in the recursive functions of the history. */
  lemma HistoryStep(h: seq<Attempt>, a: Attempt, k: FindingKey)
    ensures Sightings(h + [a], k) == Sightings(h, k) + SightingsOf(a, k)
    ensures Closing(h + [a], k) ==
              if SightingsOf(a, k) != [] then None
              else if Closing(h, k).Some? then Closing(h, k)
              else if Misses(a, k) && Sightings(h, k) != [] then Some(|h|)
              else None
  {
    assert (h + [a])[..|h|] == h;
  }

  /** One more attempt extends the promised row exactly as the program extends the table. */
  lemma PromiseStep(h: seq<Attempt>, a: Attempt, k: FindingKey)
    ensures var was := HistoryRow(h, k);
            var row := HistoryRow(h + [a], k);
            var seen := SightingsOf(a, k);
            && (seen == [] && !Misses(a, k) ==> row == was)
            && (seen == [] && Misses(a, k) ==>
                  row == match was
                         case None => None
                         case Some(r) => Some(if r.status != Closed then CloseRow(r, a.call.now, a.call.scanId) else r))
            && (seen != [] && was.None? ==>
                  row == Some(Row(seen[|seen| - 1].content, if |seen| == 1 then New else Recurring, a.call.now, a.call.now,
                                  None, |seen|, a.call.scanId)))
            && (seen != [] && was.Some? ==>
                  row == Some(Row(seen[|seen| - 1].content, Recurring, was.value.firstSeen, a.call.now, None,
                                  was.value.timesSeen + |seen|, a.call.scanId)))
  {
    HistoryStep(h, a, k);
    SightingsStamped(ExpandAll(a.call.current), k, a.call.now, a.call.scanId);
  }

  /** After any history, every row is the one its sightings and misses promise. */
  lemma {:induction false} TableIsHistory(h: seq<Attempt>, k: FindingKey)
    ensures Lookup(RunTable(h), k) == HistoryRow(h, k)
  {
    if h != [] {
      var n := |h| - 1;
      var before, a := h[..n], h[n];
      assert h == before + [a];
      TableIsHistory(before, k);
      PromiseStep(before, a, k);
      if a.committed {
        ReconciledAt(RunTable(before), a.call, k);
        SightingsStamped(ExpandAll(a.call.current), k, a.call.now, a.call.scanId);
        assert a == Attempt(a.call, true);
      }
    }
  }

  lemma {:induction false} SightingsNonempty(h: seq<Attempt>, k: FindingKey)
    ensures Sightings(h, k) != [] <==> exists i | 0 <= i < |h| :: SightingsOf(h[i], k) != []
  {
    if h != [] {
      var n := |h| - 1;
      SightingsNonempty(h[..n], k);
      if exists i | 0 <= i < |h| :: SightingsOf(h[i], k) != [] {
        var i :| 0 <= i < |h| && SightingsOf(h[i], k) != [];
        assert i < n ==> h[..n][i] == h[i];
      }
      if i :| 0 <= i < n && SightingsOf(h[..n][i], k) != [] {
        assert h[i] == h[..n][i];
      }
    }
  }

  /** If some miss is followed by no sighting, then some miss closes the row. */
  lemma {:induction false} FirstMissExists(h: seq<Attempt>, k: FindingKey, j: nat)
    requires j < |h| && Unanswered(h, k, j, |h|)
    ensures Closing(h, k).Some?
  {
    var n := |h| - 1;
    if j < n {
      UnansweredShorter(h, k, j);
      FirstMissExists(h[..n], k, j);
    }
  }

  lemma UnansweredShorter(h: seq<Attempt>, k: FindingKey, j: nat)
    requires j + 1 < |h| && Unanswered(h, k, j, |h|)
    ensures Unanswered(h[..|h| - 1], k, j, |h| - 1) && SightingsOf(h[|h| - 1], k) == []
  {
    UnansweredPrefix(h, k, j, |h| - 1, |h| - 1);
  }

  /** What happened up to `i` is the same in every longer history. */
  lemma UnansweredPrefix(h: seq<Attempt>, k: FindingKey, j: nat, i: nat, n: nat)
    requires j < i <= n <= |h|
    ensures Unanswered(h, k, j, i) <==> Unanswered(h[..n], k, j, i)
  {
    assert h[..n][..j] == h[..j];
    assert forall m | 0 <= m < i :: h[..n][m] == h[m];
  }

  lemma {:induction false} ClosingCloses(h: seq<Attempt>, k: FindingKey)
    requires Closing(h, k).Some?
    ensures ClosesAt(h, k, Closing(h, k).value)
  {
    var n, i := |h| - 1, Closing(h, k).value;
    if i < n {
      ClosingCloses(h[..n], k);
      StillClosed(h, k, i);
    } else {
      ClosesNow(h, k);
    }
  }

  lemma UnansweredLonger(h: seq<Attempt>, k: FindingKey, i: nat)
    requires i + 1 < |h| && Unanswered(h[..|h| - 1], k, i, |h| - 1) && SightingsOf(h[|h| - 1], k) == []
    ensures Unanswered(h, k, i, |h|)
  {
    var n := |h| - 1;
    assert h[..n][..i] == h[..i] && h[..n][i] == h[i];
    forall m | i < m < |h|
      ensures SightingsOf(h[m], k) == []
    {
      assert m < n ==> h[..n][m] == h[m];
    }
  }

  lemma NoneUnanswered(h: seq<Attempt>, k: FindingKey, i: nat, n: nat)
    requires i < n <= |h| && forall j | 0 <= j < i :: !Unanswered(h[..n], k, j, i)
    ensures forall j | 0 <= j < i :: !Unanswered(h, k, j, i)
  {
    forall j | 0 <= j < i
      ensures !Unanswered(h, k, j, i)
    {
      UnansweredPrefix(h, k, j, i, n);
    }
  }

  /** An attempt without a sighting leaves the closing miss what it was. */
  lemma StillClosed(h: seq<Attempt>, k: FindingKey, i: nat)
    requires i + 1 < |h| && ClosesAt(h[..|h| - 1], k, i) && SightingsOf(h[|h| - 1], k) == []
    ensures ClosesAt(h, k, i)
  {
    UnansweredLonger(h, k, i);
    NoneUnanswered(h, k, i, |h| - 1);
  }

  /** A miss of a key seen before, with no earlier miss unanswered, closes the row. */
  lemma ClosesNow(h: seq<Attempt>, k: FindingKey)
    requires h != [] && Misses(h[|h| - 1], k) && Sightings(h[..|h| - 1], k) != [] && Closing(h[..|h| - 1], k).None?
    ensures ClosesAt(h, k, |h| - 1)
  {
    var n := |h| - 1;
    forall j | 0 <= j < n
      ensures !Unanswered(h, k, j, n)
    {
      UnansweredPrefix(h, k, j, n, n);
      if Unanswered(h[..n], k, j, n) {
        FirstMissExists(h[..n], k, j);
        assert false;
      }
    }
  }

  lemma UnansweredEarlier(h: seq<Attempt>, k: FindingKey, i: nat, j: nat)
    requires i < |h| && j < |h|
    ensures i < j && Unanswered(h, k, i, |h|) ==> Unanswered(h, k, i, j)
  {
  }

  lemma ClosesAtUnique(h: seq<Attempt>, k: FindingKey, i: nat, j: nat)
    requires ClosesAt(h, k, i) && ClosesAt(h, k, j)
    ensures i == j
  {
    UnansweredEarlier(h, k, i, j);
    UnansweredEarlier(h, k, j, i);
  }

  /** The recursive search finds exactly the first miss after the last sighting. */
  lemma ClosingIsFirstMiss(h: seq<Attempt>, k: FindingKey, i: nat)
    ensures Closing(h, k) == Some(i) <==> ClosesAt(h, k, i)
  {
    if ClosesAt(h, k, i) {
      FirstMissExists(h, k, i);
    }
    if Closing(h, k).Some? {
      ClosingCloses(h, k);
      if ClosesAt(h, k, i) {
        ClosesAtUnique(h, k, i, Closing(h, k).value);
      }
    }
  }

  // ----- what the table says -----

  /** Attempt `i` is the first that saw `k`. */
  ghost predicate FirstSightingAt(h: seq<Attempt>, k: FindingKey, i: nat) {
    && i < |h|
    && SightingsOf(h[i], k) != []
    && forall j | 0 <= j < i :: SightingsOf(h[j], k) == []
  }

  /** Attempt `i` is the last that scanned the issue of `k` or saw `k`. */
  ghost predicate LastTouchAt(h: seq<Attempt>, k: FindingKey, i: nat) {
    && i < |h|
    && Touches(h[i], k)
    && forall j | i < j < |h| :: !Touches(h[j], k)
  }

  /** A key has a row exactly when some committed call reported it; later calls never delete it. */
  lemma RowForEverySighting(h: seq<Attempt>, k: FindingKey)
    ensures k in RunTable(h) <==> exists i | 0 <= i < |h| :: SightingsOf(h[i], k) != []
  {
    TableIsHistory(h, k);
    SightingsNonempty(h, k);
  }

  lemma StampedWithCall(a: Attempt, k: FindingKey)
    requires SightingsOf(a, k) != []
    ensures SightingsOf(a, k)[0].at == a.call.now
  {
    SightingsStamped(ExpandAll(a.call.current), k, a.call.now, a.call.scanId);
    assert SightingsOf(a, k)[0] in SightingsOf(a, k);
  }

  lemma HeadOfConcat<T>(a: seq<T>, b: seq<T>)
    ensures a != [] ==> (a + b)[0] == a[0]
    ensures a == [] && b != [] ==> (a + b)[0] == b[0]
  {
  }

  lemma {:induction false} FirstSightingTime(h: seq<Attempt>, k: FindingKey, i: nat)
    requires FirstSightingAt(h, k, i)
    ensures Sightings(h, k) != [] && Sightings(h, k)[0].at == h[i].call.now
  {
    var n := |h| - 1;
    HeadOfConcat(Sightings(h[..n], k), SightingsOf(h[n], k));
    assert forall j | 0 <= j < n :: h[..n][j] == h[j];
    if i < n {
      FirstSightingTime(h[..n], k, i);
    } else {
      SightingsNonempty(h[..n], k);
      StampedWithCall(h[n], k);
    }
  }

  /**
   * The counters of a row: first_seen is the time of the first call that reported the key,
   * times_seen the number of locations reported with it over all calls.
   */
  lemma RowCounts(h: seq<Attempt>, k: FindingKey, i: nat)
    requires FirstSightingAt(h, k, i)
    ensures k in RunTable(h)
    ensures RunTable(h)[k].firstSeen == h[i].call.now
    ensures RunTable(h)[k].timesSeen == |Sightings(h, k)|
    ensures Sightings(h, k) != [] && RunTable(h)[k].content == Sightings(h, k)[|Sightings(h, k)| - 1].content
  {
    TableIsHistory(h, k);
    FirstSightingTime(h, k, i);
  }

  /**
   * The status of a row: closed, with closed_at and last_seen kept from the closing attempt,
   * exactly when some attempt closes it; otherwise open, and new exactly when seen once.
   */
  lemma RowStatus(h: seq<Attempt>, k: FindingKey)
    requires k in RunTable(h)
    ensures var row := RunTable(h)[k];
            && (row.status == Closed <==> exists i: nat :: ClosesAt(h, k, i))
            && (row.status == Closed <==> row.closedAt.Some?)
            && (row.status == New ==> row.timesSeen == 1)
            && (row.status == Recurring ==> row.timesSeen >= 2)
            && forall i: nat | ClosesAt(h, k, i) ::
                 row.closedAt == Some(h[i].call.now) && row.lastSeen == h[i].call.now && row.scanIdLast == h[i].call.scanId
  {
    TableIsHistory(h, k);
    forall i: nat {
      ClosingIsFirstMiss(h, k, i);
    }
  }

  /** A row is closed exactly when the last call that scanned its issue or reported it missed it. */
  lemma {:induction false} ClosedIffLastTouchMissed(h: seq<Attempt>, k: FindingKey, i: nat)
    requires k in RunTable(h) && LastTouchAt(h, k, i)
    ensures RunTable(h)[k].status == Closed <==> SightingsOf(h[i], k) == []
  {
    var n := |h| - 1;
    var before, a := h[..n], h[n];
    TableIsHistory(h, k);
    assert h == before + [a];
    if i < n {
      assert !Touches(h[n], k);
      TableIsHistory(before, k);
      PromiseStep(before, a, k);
      ClosedIffLastTouchMissed(before, k, i);
    } else {
      PromiseStep(before, a, k);
    }
  }

  /** A call leaves the row of a key alone when it neither scans its issue nor reports it. */
  lemma UntouchedUnchanged(table: Table, call: Call, k: FindingKey)
    requires k.issueKey !in call.scanned && k !in KeysOf(ExpandAll(call.current))
    ensures Lookup(Reconciled(table, call), k) == Lookup(table, k)
  {
    SightingsMeanKeys(ExpandAll(call.current), k, call.now, call.scanId);
    ReconciledAt(table, call, k);
  }
}
