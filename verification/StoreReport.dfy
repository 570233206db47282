/** How the findings returned by `reconcile` relate to the table it leaves behind. */
module StoreReport {
  import Dedup
  import opened Wrappers
  import opened Findings
  import opened Store
  import opened StoreHistory

  predicate DistinctMergeKeys(fs: seq<Finding>) {
    forall i, j | 0 <= i < j < |fs| :: fs[i].MergeIdentity() != fs[j].MergeIdentity()
  }

  /** Every place the finding was seen in belongs to an issue this call scanned. */
  predicate LocatedInScanned(f: Finding, scanned: set<string>) {
    forall l <- f.EffectiveLocations() :: l.issueKey in scanned
  }

  /** Total weight of a list of keys, each distinct key counted once. */
  function SumDistinct(keys: seq<FindingKey>, weight: FindingKey -> nat): nat {
    if keys == [] then 0
    else
      var rest, k := keys[..|keys| - 1], keys[|keys| - 1];
      SumDistinct(rest, weight) + if k in rest then 0 else weight(k)
  }

  function Occurrences(keys: seq<FindingKey>, k: FindingKey): nat {
    if keys == [] then 0
    else Occurrences(keys[..|keys| - 1], k) + if keys[|keys| - 1] == k then 1 else 0
  }

  function Past(table: Table, k: FindingKey): nat {
    if k in table then table[k].timesSeen else 0
  }

  /** Sum of times_seen over the rows a finding owns in `table`, each row counted once. */
  function StoredTotal(table: Table, keys: seq<FindingKey>): nat {
    SumDistinct(keys, k => Past(table, k))
  }

  /** The finding has two locations in one issue that already had a row for it. */
  predicate RepeatsStoredRow(table: Table, keys: seq<FindingKey>) {
    exists i, j | 0 <= i < j < |keys| :: keys[i] == keys[j] && Past(table, keys[i]) > 0
  }

  // ----- sums over distinct keys -----

  lemma {:induction false} SumDistinctAdds(keys: seq<FindingKey>, a: FindingKey -> nat, b: FindingKey -> nat, c: FindingKey -> nat)
    requires forall k <- keys :: c(k) == a(k) + b(k)
    ensures SumDistinct(keys, c) == SumDistinct(keys, a) + SumDistinct(keys, b)
  {
    if keys != [] {
      SumDistinctAdds(keys[..|keys| - 1], a, b, c);
    }
  }

  lemma {:induction false} SumDistinctBumped(keys: seq<FindingKey>, x: FindingKey, a: FindingKey -> nat, b: FindingKey -> nat)
    requires forall k <- keys :: b(k) == a(k) + if k == x then 1 else 0
    ensures SumDistinct(keys, b) == SumDistinct(keys, a) + if x in keys then 1 else 0
  {
    if keys != [] {
      var n := |keys| - 1;
      assert keys == keys[..n] + [keys[n]];
      SumDistinctBumped(keys[..n], x, a, b);
    }
  }

  /** Counting each distinct key as often as it occurs gives the length of the list. */
  lemma {:induction false} OccurrencesSum(keys: seq<FindingKey>)
    ensures SumDistinct(keys, k => Occurrences(keys, k)) == |keys|
  {
    if keys != [] {
      var n := |keys| - 1;
      var rest, x := keys[..n], keys[n];
      OccurrencesSum(rest);
      SumDistinctBumped(rest, x, k => Occurrences(rest, k), k => Occurrences(keys, k));
      NoOccurrence(rest, x);
    }
  }

  lemma {:induction false} NoOccurrence(keys: seq<FindingKey>, k: FindingKey)
    ensures Occurrences(keys, k) == 0 <==> k !in keys
  {
    if keys != [] {
      assert keys == keys[..|keys| - 1] + [keys[|keys| - 1]];
      NoOccurrence(keys[..|keys| - 1], k);
    }
  }

  // ----- sightings of one finding's keys -----

  lemma {:induction false} ExpandSightings(f: Finding, locs: seq<Location>, k: FindingKey, at: Time, scanId: string)
    requires k.secretHash == f.secretHash && k.ruleId == f.ruleId
    ensures |SightingsIn(Expand(f, locs), k, at, scanId)|
            == Occurrences(seq(|locs|, i requires 0 <= i < |locs| => FindingKey(f.secretHash, f.ruleId, locs[i].issueKey)), k)
  {
    if locs != [] {
      var n := |locs| - 1;
      var keys := seq(|locs|, i requires 0 <= i < |locs| => FindingKey(f.secretHash, f.ruleId, locs[i].issueKey));
      ExpandSightings(f, locs[..n], k, at, scanId);
      assert keys[..n] == seq(n, i requires 0 <= i < n => FindingKey(f.secretHash, f.ruleId, locs[..n][i].issueKey));
      assert Expand(f, locs)[..|Expand(f, locs)| - 1] == Expand(f, locs[..n]);
    }
  }

  lemma {:induction false} ExpandOther(f: Finding, locs: seq<Location>, k: FindingKey, at: Time, scanId: string)
    requires MergeKey(k.secretHash, k.ruleId) != f.MergeIdentity()
    ensures SightingsIn(Expand(f, locs), k, at, scanId) == []
  {
    if locs != [] {
      ExpandOther(f, locs[..|locs| - 1], k, at, scanId);
      assert Expand(f, locs)[..|Expand(f, locs)| - 1] == Expand(f, locs[..|locs| - 1]);
    }
  }

  lemma {:induction false} SightingsConcat(a: seq<Exp>, b: seq<Exp>, k: FindingKey, at: Time, scanId: string)
    ensures SightingsIn(a + b, k, at, scanId) == SightingsIn(a, k, at, scanId) + SightingsIn(b, k, at, scanId)
  {
    if b == [] {
      assert a + b == a;
    } else {
      SightingsConcat(a, b[..|b| - 1], k, at, scanId);
      assert (a + b)[..|a + b| - 1] == a + b[..|b| - 1];
    }
  }

  lemma {:induction false} ExpandAllOthers(fs: seq<Finding>, k: FindingKey, at: Time, scanId: string)
    requires forall f <- fs :: f.MergeIdentity() != MergeKey(k.secretHash, k.ruleId)
    ensures SightingsIn(ExpandAll(fs), k, at, scanId) == []
  {
    if fs != [] {
      var n := |fs| - 1;
      ExpandAllOthers(fs[..n], k, at, scanId);
      ExpandOther(fs[n], fs[n].EffectiveLocations(), k, at, scanId);
      SightingsConcat(ExpandAll(fs[..n]), Expand(fs[n], fs[n].EffectiveLocations()), k, at, scanId);
    }
  }

  /** With distinct merge keys, a key is sighted once per location of the one finding that owns it. */
  lemma {:induction false} SightingsAreOccurrences(fs: seq<Finding>, i: nat, k: FindingKey, at: Time, scanId: string)
    requires DistinctMergeKeys(fs) && i < |fs|
    requires MergeKey(k.secretHash, k.ruleId) == fs[i].MergeIdentity()
    ensures |SightingsIn(ExpandAll(fs), k, at, scanId)| == Occurrences(fs[i].LocationKeys(), k)
  {
    var n := |fs| - 1;
    var locs := fs[n].EffectiveLocations();
    var before := SightingsIn(ExpandAll(fs[..n]), k, at, scanId);
    var last := SightingsIn(Expand(fs[n], locs), k, at, scanId);
    assert SightingsIn(ExpandAll(fs), k, at, scanId) == before + last by {
      SightingsConcat(ExpandAll(fs[..n]), Expand(fs[n], locs), k, at, scanId);
    }
    if i < n {
      assert last == [] by {
        ExpandOther(fs[n], locs, k, at, scanId);
      }
      SightingsAreOccurrences(fs[..n], i, k, at, scanId);
    } else {
      assert before == [] by {
        ExpandAllOthers(fs[..n], k, at, scanId);
      }
      ExpandSightings(fs[n], locs, k, at, scanId);
      assert fs[n].LocationKeys()
             == seq(|locs|, j requires 0 <= j < |locs| => FindingKey(fs[n].secretHash, fs[n].ruleId, locs[j].issueKey));
    }
  }

  /** The row of a reported key after the call. */
  lemma RowAfter(table: Table, call: Call, i: nat, k: FindingKey)
    requires DistinctMergeKeys(call.current) && i < |call.current|
    requires k in call.current[i].LocationKeys()
    ensures var after := Reconciled(table, call);
            && k in after
            && after[k].timesSeen == Past(table, k) + Occurrences(call.current[i].LocationKeys(), k)
            && after[k].firstSeen == FirstSeenOf(table, call.now, k)
            && after[k].status != Closed
  {
    SightingsAreOccurrences(call.current, i, k, call.now, call.scanId);
    NoOccurrence(call.current[i].LocationKeys(), k);
    ReconciledAt(table, call, k);
  }

  // ----- agreement -----

  lemma RepeatsStep(table: Table, keys: seq<FindingKey>)
    requires keys != []
    ensures var rest, k := keys[..|keys| - 1], keys[|keys| - 1];
            RepeatsStoredRow(table, keys) <==> RepeatsStoredRow(table, rest) || (k in rest && Past(table, k) > 0)
  {
    var n := |keys| - 1;
    var rest, k := keys[..n], keys[n];
    assert forall i | 0 <= i < n :: rest[i] == keys[i];
    if k in rest && Past(table, k) > 0 {
      var i :| 0 <= i < n && rest[i] == k;
      assert keys[i] == keys[n];
    }
    if i, j :| 0 <= i < j < n && rest[i] == rest[j] && Past(table, rest[i]) > 0 {
      assert keys[i] == keys[j];
    }
  }

  lemma {:induction false} TotalIsPastAndLength(table: Table, keys: seq<FindingKey>)
    ensures TimesTotal(table, keys) >= StoredTotal(table, keys) + |keys|
    ensures TimesTotal(table, keys) == StoredTotal(table, keys) + |keys| <==> !RepeatsStoredRow(table, keys)
  {
    if keys != [] {
      TotalIsPastAndLength(table, keys[..|keys| - 1]);
      RepeatsStep(table, keys);
    }
  }

  lemma {:induction false} ReadAgrees(table: Table, scanned: set<string>, now: Time, keys: seq<FindingKey>)
    requires forall k <- keys :: k.issueKey in scanned
    ensures var read := ReadRows(table, scanned);
            && TimesTotal(read, keys) == TimesTotal(table, keys)
            && EarliestSeen(read, now, keys) == EarliestSeen(table, now, keys)
  {
    if keys != [] {
      ReadAgrees(table, scanned, now, keys[..|keys| - 1]);
    }
  }

  lemma {:induction false} SameEarliest(a: Table, b: Table, now: Time, keys: seq<FindingKey>)
    requires forall k <- keys :: FirstSeenOf(a, now, k) == FirstSeenOf(b, now, k)
    ensures EarliestSeen(a, now, keys) == EarliestSeen(b, now, keys)
  {
    if keys != [] {
      SameEarliest(a, b, now, keys[..|keys| - 1]);
    }
  }

  lemma LocatedKeys(f: Finding, scanned: set<string>)
    requires LocatedInScanned(f, scanned)
    ensures forall k <- f.LocationKeys() :: k.issueKey in scanned
  {
    forall k <- f.LocationKeys()
      ensures k.issueKey in scanned
    {
      var i :| 0 <= i < |f.LocationKeys()| && f.LocationKeys()[i] == k;
      assert f.EffectiveLocations()[i] in f.EffectiveLocations();
    }
  }

  /**
   * The sightings a report claims for a finding are never fewer than its rows hold after the
   * commit, and they are equal exactly when no issue holding the finding twice already had a
   * row for it.
   */
  lemma ReportedTimesAgree(table: Table, call: Call, i: nat)
    requires DistinctMergeKeys(call.current) && i < |call.current|
    requires LocatedInScanned(call.current[i], call.scanned)
    ensures var keys := call.current[i].LocationKeys();
            var reported := TimesTotal(ReadRows(table, call.scanned), keys);
            var stored := StoredTotal(Reconciled(table, call), keys);
            && reported >= stored
            && (reported == stored <==> !RepeatsStoredRow(table, keys))
  {
    var f := call.current[i];
    var keys := f.LocationKeys();
    var after := Reconciled(table, call);
    LocatedKeys(f, call.scanned);
    ReadAgrees(table, call.scanned, call.now, keys);
    TotalIsPastAndLength(table, keys);
    forall k <- keys
      ensures Past(after, k) == Past(table, k) + Occurrences(keys, k)
    {
      RowAfter(table, call, i, k);
    }
    SumDistinctAdds(keys, k => Past(table, k), k => Occurrences(keys, k), k => Past(after, k));
    OccurrencesSum(keys);
  }

  /** The published counter is that sum in 32 bits. */
  lemma ReportedCounter(table: Table, call: Call, i: nat, live: map<string, ExternalValidation>)
    requires DistinctMergeKeys(call.current) && i < |call.current|
    requires LocatedInScanned(call.current[i], call.scanned)
    requires !RepeatsStoredRow(table, call.current[i].LocationKeys())
    ensures var f := call.current[i];
            Enrich(f, ReadRows(table, call.scanned), call, live).timesSeen
            == Some(AsU32(StoredTotal(Reconciled(table, call), f.LocationKeys())))
  {
    ReportedTimesAgree(table, call, i);
    CounterIsWrappedTotal(ReadRows(table, call.scanned), call.current[i].LocationKeys());
  }

  function Place(f: Finding): Location {
    Location(f.issueKey, f.fieldPath, f.sourceType)
  }

  /** A finding as a scan detects it: its only location is its own place. */
  predicate Detected(f: Finding) {
    f.locations == [Place(f)]
  }

  lemma MergedPlaces(f: Finding, g: Finding, a: Location, b: Location)
    requires f.MergeIdentity() == g.MergeIdentity() && f.locations == [a] && g.locations == [b] && a != b
    ensures Dedup.InsertAll([f, g]) == [f.(locations := [a, b])]
  {
    assert Dedup.InsertAll([f]) == [f] by {
      assert [f][..0] == [];
      assert Dedup.IndexOf([], Dedup.TextOf(f)).None?;
    }
    assert Dedup.IndexOf([f], Dedup.TextOf(g)) == Some(0) by {
      assert [f][..0] == [];
    }
    assert Dedup.AddLocations([a], [b]) == [a, b] by {
      assert [b][..0] == [] && [a] + [b] == [a, b];
    }
    assert [f, g][..1] == [f];
  }

  lemma PlacesKeys(f: Finding, a: Location, b: Location)
    requires f.locations == [a, b] && a.issueKey == b.issueKey
    ensures var k := FindingKey(f.secretHash, f.ruleId, a.issueKey);
            f.LocationKeys() == [k, k] && LocatedInScanned(f, {a.issueKey})
  {
    assert f.EffectiveLocations() == [a, b];
  }

  lemma TwoRows(table: Table, k: FindingKey)
    requires k in table
    ensures TimesTotal(table, [k, k]) == 2 * table[k].timesSeen + 2
    ensures Occurrences([k, k], k) == 2
  {
    assert [k, k][..1] == [k] && [k][..0] == [];
    assert TimesTotal(table, [k]) == table[k].timesSeen + 1;
    assert Occurrences([k], k) == 1;
  }

  /** One finding, alone in its call, that owns one stored row twice. */
  lemma TwiceInOneRow(table: Table, call: Call, k: FindingKey)
    requires |call.current| == 1 && call.current[0].LocationKeys() == [k, k]
    requires LocatedInScanned(call.current[0], call.scanned) && k in table
    ensures TimesTotal(ReadRows(table, call.scanned), [k, k]) == 2 * table[k].timesSeen + 2
    ensures Lookup(Reconciled(table, call), k).Some?
    ensures Reconciled(table, call)[k].timesSeen == table[k].timesSeen + 2
  {
    LocatedKeys(call.current[0], call.scanned);
    ReadAgrees(table, call.scanned, call.now, [k, k]);
    TwoRows(table, k);
    RowAfter(table, call, 0, k);
  }

  /**
   * One secret in two fields of an issue that already has a row for it, seen n times: the
   * merged finding reports 2n + 2 sightings, the row holds n + 2.
   */
  lemma RepeatedLocationOvercounts(f: Finding, g: Finding, table: Table, scanId: string, startedAt: Time, now: Time)
    requires Detected(f) && Detected(g)
    requires f.MergeIdentity() == g.MergeIdentity() && f.issueKey == g.issueKey && f.fieldPath != g.fieldPath
    requires FindingKey(f.secretHash, f.ruleId, f.issueKey) in table
    ensures var call := Call(Dedup.InsertAll([f, g]), {f.issueKey}, scanId, startedAt, now);
            var k := FindingKey(f.secretHash, f.ruleId, f.issueKey);
            && |call.current| == 1
            && TimesTotal(ReadRows(table, call.scanned), call.current[0].LocationKeys()) == 2 * table[k].timesSeen + 2
            && Lookup(Reconciled(table, call), k).Some?
            && Reconciled(table, call)[k].timesSeen == table[k].timesSeen + 2
  {
    var a, b := Place(f), Place(g);
    var m := f.(locations := [a, b]);
    MergedPlaces(f, g, a, b);
    PlacesKeys(m, a, b);
    TwiceInOneRow(table, Call([m], {f.issueKey}, scanId, startedAt, now), FindingKey(f.secretHash, f.ruleId, f.issueKey));
  }

  /** first_seen of a reported finding is the earliest first_seen of its rows after the commit. */
  lemma ReportedFirstSeenAgrees(table: Table, call: Call, i: nat, live: map<string, ExternalValidation>)
    requires DistinctMergeKeys(call.current) && i < |call.current|
    requires LocatedInScanned(call.current[i], call.scanned)
    ensures var f := call.current[i];
            Enrich(f, ReadRows(table, call.scanned), call, live).firstSeen
            == EarliestSeen(Reconciled(table, call), call.now, f.LocationKeys())
  {
    var f := call.current[i];
    var keys := f.LocationKeys();
    LocatedKeys(f, call.scanned);
    ReadAgrees(table, call.scanned, call.now, keys);
    forall k <- keys
      ensures FirstSeenOf(Reconciled(table, call), call.now, k) == FirstSeenOf(table, call.now, k)
    {
      RowAfter(table, call, i, k);
    }
    SameEarliest(table, Reconciled(table, call), call.now, keys);
  }

  /** `EarliestSeen` is a lower bound that some key attains. */
  lemma {:induction false} EarliestIsMinimum(table: Table, now: Time, keys: seq<FindingKey>)
    ensures EarliestSeen(table, now, keys).None? <==> keys == []
    ensures keys != [] ==>
              var m := EarliestSeen(table, now, keys).value;
              && (forall k <- keys :: m <= FirstSeenOf(table, now, k))
              && (exists k <- keys :: m == FirstSeenOf(table, now, k))
  {
    if keys != [] {
      var n := |keys| - 1;
      assert keys == keys[..n] + [keys[n]];
      EarliestIsMinimum(table, now, keys[..n]);
      if n > 0 {
        var k :| k in keys[..n] && EarliestSeen(table, now, keys[..n]).value == FirstSeenOf(table, now, k);
        assert k in keys && keys[n] in keys;
      } else {
        assert keys[n] in keys;
      }
    }
  }

  /** Scans that take place one after the other: each reconciles after it started and before the next starts. */
  predicate WellTimed(h: seq<Attempt>) {
    && (forall i | 0 <= i < |h| :: h[i].call.startedAt <= h[i].call.now)
    && (forall i, j | 0 <= i < j < |h| :: h[i].call.now < h[j].call.startedAt)
  }

  /** Every row was first seen before any later scan started. */
  lemma RowsPredateNextScan(h: seq<Attempt>, next: Attempt, k: FindingKey)
    requires WellTimed(h + [next]) && k in RunTable(h)
    ensures RunTable(h)[k].firstSeen < next.call.startedAt
  {
    RowForEverySighting(h, k);
    var i :| 0 <= i < |h| && SightingsOf(h[i], k) != [];
    var j := FirstSighting(h, k, i);
    RowCounts(h, k, j);
    assert (h + [next])[j] == h[j] && (h + [next])[|h|] == next;
  }

  lemma {:induction false} FirstSighting(h: seq<Attempt>, k: FindingKey, i: nat) returns (j: nat)
    requires i < |h| && SightingsOf(h[i], k) != []
    ensures FirstSightingAt(h, k, j)
  {
    j := 0;
    while SightingsOf(h[j], k) == []
      invariant j <= i
      invariant forall m | 0 <= m < j :: SightingsOf(h[m], k) == []
      decreases i - j
    {
      j := j + 1;
    }
  }

  /**
   * On well-timed scans a finding is reported as recurring exactly when one of its rows
   * existed before the call, and as new otherwise.
   */
  lemma RecurringIffKnown(h: seq<Attempt>, next: Attempt, i: nat, live: map<string, ExternalValidation>)
    requires WellTimed(h + [next]) && i < |next.call.current|
    requires LocatedInScanned(next.call.current[i], next.call.scanned)
    ensures var f := next.call.current[i];
            var status := Enrich(f, ReadRows(RunTable(h), next.call.scanned), next.call, live).status;
            && (status == Recurring <==> exists k <- f.LocationKeys() :: k in RunTable(h))
            && (status == New <==> forall k <- f.LocationKeys() :: k !in RunTable(h))
  {
    var call, table := next.call, RunTable(h);
    var keys := call.current[i].LocationKeys();
    LocatedKeys(call.current[i], call.scanned);
    ReadAgrees(table, call.scanned, call.now, keys);
    EarliestIsMinimum(table, call.now, keys);
    assert (h + [next])[|h|] == next;
    forall k <- keys | k in table
      ensures FirstSeenOf(table, call.now, k) < call.startedAt
    {
      RowsPredateNextScan(h, next, k);
    }
  }

  /**
   * The Closed findings stand for exactly the rows this call turned from open to closed, and
   * no finding still reported carries that status.
   */
  lemma ClosedFindingsAreFlips(table: Table, call: Call, k: FindingKey, f: Finding, live: map<string, ExternalValidation>)
    ensures k in FlippedKeys(table, call) <==>
              && k in table && table[k].status != Closed
              && k in Reconciled(table, call) && Reconciled(table, call)[k].status == Closed
    ensures Enrich(f, ReadRows(table, call.scanned), call, live).status != Closed
    ensures k in table && table[k].status == Closed && k !in KeysOf(ExpandAll(call.current)) ==>
              Lookup(Reconciled(table, call), k) == Some(table[k])
  {
    SightingsMeanKeys(ExpandAll(call.current), k, call.now, call.scanId);
    ReconciledAt(table, call, k);
  }

  // ----- what a closed finding says -----

  /** A row's location lies in the issue of its key. */
  predicate InOwnIssue(exps: seq<Exp>) {
    forall e <- exps :: e.content.location.issueKey == e.key.issueKey
  }

  lemma {:induction false} ExpandInOwnIssue(f: Finding, locs: seq<Location>)
    ensures InOwnIssue(Expand(f, locs))
  {
    if locs != [] {
      ExpandInOwnIssue(f, locs[..|locs| - 1]);
    }
  }

  lemma {:induction false} ExpandAllInOwnIssue(fs: seq<Finding>)
    ensures InOwnIssue(ExpandAll(fs))
  {
    if fs != [] {
      ExpandAllInOwnIssue(fs[..|fs| - 1]);
      ExpandInOwnIssue(fs[|fs| - 1], fs[|fs| - 1].EffectiveLocations());
    }
  }

  lemma {:induction false} SightingsInOwnIssue(exps: seq<Exp>, k: FindingKey, at: Time, scanId: string)
    requires InOwnIssue(exps)
    ensures forall s <- SightingsIn(exps, k, at, scanId) :: s.content.location.issueKey == k.issueKey
  {
    if exps != [] {
      assert exps[|exps| - 1] in exps;
      SightingsInOwnIssue(exps[..|exps| - 1], k, at, scanId);
    }
  }

  lemma {:induction false} HistoryInOwnIssue(h: seq<Attempt>, k: FindingKey)
    ensures forall s <- Sightings(h, k) :: s.content.location.issueKey == k.issueKey
  {
    if h != [] {
      var n := |h| - 1;
      HistoryInOwnIssue(h[..n], k);
      ExpandAllInOwnIssue(h[n].call.current);
      SightingsInOwnIssue(ExpandAll(h[n].call.current), k, h[n].call.now, h[n].call.scanId);
    }
  }

  /**
   * A closed finding is the row it stands for: it owns that one row, carries its last known
   * content, and its counters are those the row still has after the commit.
   */
  lemma ClosedFindingIsItsRow(h: seq<Attempt>, call: Call, k: FindingKey, live: map<string, ExternalValidation>)
    requires k in FlippedKeys(RunTable(h), call)
    ensures var f := ClosedFinding(k, RunTable(h)[k], live);
            var after := Reconciled(RunTable(h), call);
            && f.LocationKeys() == [k] && k in after
            && f.firstSeen == Some(after[k].firstSeen)
            && f.timesSeen == Some(AsU32(after[k].timesSeen)) && after[k].timesSeen == |Sightings(h, k)|
            && Sightings(h, k) != [] && f.detectedAt == Sightings(h, k)[|Sightings(h, k)| - 1].at
            && ExpOf(f, f.locations[0]).content == after[k].content
  {
    TableIsHistory(h, k);
    HistoryInOwnIssue(h, k);
    var seen := Sightings(h, k);
    assert seen[|seen| - 1] in seen;
    SightingsMeanKeys(ExpandAll(call.current), k, call.now, call.scanId);
    ReconciledAt(RunTable(h), call, k);
  }

  // ----- the returned list, read on its own -----

  /** The row a finding of one location stands for. */
  function KeyOf(f: Finding): FindingKey {
    FindingKey(f.secretHash, f.ruleId, f.issueKey)
  }

  /** The row was open before and is closed after. */
  predicate TurnedClosed(before: Table, after: Table, k: FindingKey) {
    && k in before && before[k].status != Closed
    && k in after && after[k].status == Closed
  }

  /** The finding as it came in, but for what the history and the validation may add. */
  predicate SameButHistory(f: Finding, g: Finding, validations: map<string, ExternalValidation>) {
    && g.secretHash == f.secretHash && g.ruleId == f.ruleId && g.issueKey == f.issueKey && g.issueUrl == f.issueUrl
    && g.fieldPath == f.fieldPath && g.sourceType == f.sourceType && g.evidence == f.evidence
    && g.detectedAt == f.detectedAt && g.locations == f.locations
    && g.status != Closed
    && if f.secretHash !in validations then
         g.validation == f.validation && g.severity == f.severity && g.confidence == f.confidence
       else
         && g.validation == Some(validations[f.secretHash])
         && g.severity == (if validations[f.secretHash].valid then Critical else f.severity)
         && g.confidence == (if validations[f.secretHash].valid then HighConfidence else f.confidence)
  }

  /** A finding that stands for a row: its key's and its row's fields, as the row is left. */
  predicate StandsFor(f: Finding, row: Row, lastSeenBefore: Time, validation: Option<ExternalValidation>) {
    && f.status == Closed
    && f.issueUrl == row.content.issueUrl
    && f.fieldPath == row.content.location.fieldPath && f.sourceType == row.content.location.sourceType
    && f.severity == row.content.severity && f.confidence == row.content.confidence && f.evidence == row.content.evidence
    && f.locations == [row.content.location]
    && f.firstSeen == Some(row.firstSeen) && f.timesSeen == Some(row.timesSeen % 0x1_0000_0000)
    && f.detectedAt == lastSeenBefore && f.validation == validation
  }

  /** The validation a closed finding carries: only hashes of current findings are looked up. */
  function JoinedValidation(validations: map<string, ExternalValidation>, current: seq<Finding>, hash: string)
    : Option<ExternalValidation>
  {
    if hash in validations && exists c <- current :: c.secretHash == hash then Some(validations[hash]) else None
  }

  /**
   * The list a committed call returns: first every current finding, in order and none of them
   * closed; then one closed finding for each row that was open before and is closed after, and
   * for no other.
   */
  ghost predicate ReportsCommit(out: seq<Finding>, before: Table, after: Table, call: Call,
                                validations: map<string, ExternalValidation>) {
    var n := |call.current|;
    && n <= |out|
    && (forall i | 0 <= i < n :: SameButHistory(call.current[i], out[i], validations))
    && (forall i | n <= i < |out| ::
          && TurnedClosed(before, after, KeyOf(out[i]))
          && StandsFor(out[i], after[KeyOf(out[i])], before[KeyOf(out[i])].lastSeen,
                       JoinedValidation(validations, call.current, out[i].secretHash)))
    && (forall i, j | n <= i < j < |out| :: KeyOf(out[i]) != KeyOf(out[j]))
    && (forall k | TurnedClosed(before, after, k) :: exists i | n <= i < |out| :: KeyOf(out[i]) == k)
  }

  lemma FlipsTurnClosed(table: Table, call: Call, k: FindingKey)
    ensures k in FlippedKeys(table, call) <==> TurnedClosed(table, Reconciled(table, call), k)
    ensures k in FlippedKeys(table, call) ==>
              var after := Reconciled(table, call)[k];
              && after.content == table[k].content && after.firstSeen == table[k].firstSeen
              && after.timesSeen == table[k].timesSeen
  {
    SightingsMeanKeys(ExpandAll(call.current), k, call.now, call.scanId);
    ReconciledAt(table, call, k);
  }

  lemma CurrentIsKept(f: Finding, read: Table, call: Call, validations: map<string, ExternalValidation>)
    requires f in call.current
    ensures SameButHistory(f, Enrich(f, read, call, LiveMap(validations, call.current)), validations)
  {
  }

  lemma ClosedStands(table: Table, call: Call, validations: map<string, ExternalValidation>, k: FindingKey)
    requires k in FlippedKeys(table, call)
    ensures var f := ClosedFinding(k, table[k], LiveMap(validations, call.current));
            && KeyOf(f) == k
            && k in Reconciled(table, call)
            && StandsFor(f, Reconciled(table, call)[k], table[k].lastSeen,
                         JoinedValidation(validations, call.current, k.secretHash))
  {
    FlipsTurnClosed(table, call, k);
  }

  /** Every committed call returns such a list. */
  lemma CommitIsReported(table: Table, call: Call, validations: map<string, ExternalValidation>, order: seq<FindingKey>)
    requires Enumerates(order, FlippedKeys(table, call))
    requires forall k <- order :: k in ReadRows(table, call.scanned)
    ensures ReportsCommit(Report(table, validations, call, order), table, Reconciled(table, call), call, validations)
  {
    var out, after, n := Report(table, validations, call, order), Reconciled(table, call), |call.current|;
    var read, live := ReadRows(table, call.scanned), LiveMap(validations, call.current);
    forall i | 0 <= i < n
      ensures SameButHistory(call.current[i], out[i], validations)
    {
      assert call.current[i] in call.current;
      CurrentIsKept(call.current[i], read, call, validations);
    }
    forall i | n <= i < |out|
      ensures KeyOf(out[i]) == order[i - n]
      ensures TurnedClosed(table, after, KeyOf(out[i]))
      ensures StandsFor(out[i], after[KeyOf(out[i])], table[KeyOf(out[i])].lastSeen,
                        JoinedValidation(validations, call.current, out[i].secretHash))
    {
      var k := order[i - n];
      assert k in order && out[i] == ClosedFinding(k, read[k], live);
      FlipsTurnClosed(table, call, k);
      ClosedStands(table, call, validations, k);
    }
    forall k | TurnedClosed(table, after, k)
      ensures exists i | n <= i < |out| :: KeyOf(out[i]) == k
    {
      FlipsTurnClosed(table, call, k);
      var j :| 0 <= j < |order| && order[j] == k;
      assert KeyOf(out[n + j]) == k;
    }
  }
}
