/** From the tasks of a scan to the rows its reconciliation closes (src/pipeline.rs, src/store.rs). */
module ScanToStore {
  import Dedup
  import opened Findings
  import opened Pipeline
  import opened Store
  import opened StoreHistory
  import opened Wrappers

  /** Secret hashes are digests. */
  predicate Digests(fs: seq<Finding>) {
    forall f <- fs :: |f.secretHash| == SECRET_HASH_LENGTH
  }

  /** The task of the issue found the secret by the rule. */
  predicate FoundBy(issue: Issue, k: FindingKey) {
    issue.key == k.issueKey && exists f <- FindingsOf(issue) :: f.MergeIdentity() == MergeKey(k.secretHash, k.ruleId)
  }

  predicate Found(issues: seq<Issue>, k: FindingKey) {
    exists i <- issues :: FoundBy(i, k)
  }

  predicate TasksAreHonest(issues: seq<Issue>) {
    forall i <- issues :: OwnLocations(i) && Digests(FindingsOf(i))
  }

  // ----- what is handed to the store -----

  lemma {:induction false} FromSomeIssue(issues: seq<Issue>, f: Finding)
    ensures f in AllFindings(issues) <==> exists i <- issues :: f in FindingsOf(i)
  {
    if issues != [] {
      var n := |issues| - 1;
      FromSomeIssue(issues[..n], f);
      assert issues == issues[..n] + [issues[n]];
    }
  }

  lemma {:induction false} MergedDigests(fs: seq<Finding>)
    requires Digests(fs)
    ensures Digests(Dedup.InsertAll(fs))
  {
    if fs != [] {
      var n := |fs| - 1;
      var before := Dedup.InsertAll(fs[..n]);
      MergedDigests(fs[..n]);
      assert fs[n] in fs;
      var at := Dedup.IndexOf(before, Dedup.TextOf(fs[n]));
      assert at.Some? ==> before[at.value] in before;
    }
  }

  lemma {:induction false} ExpandKeys(f: Finding, locs: seq<Location>, k: FindingKey)
    ensures k in KeysOf(Expand(f, locs)) <==> exists l <- locs :: k == FindingKey(f.secretHash, f.ruleId, l.issueKey)
  {
    if locs != [] {
      var n := |locs| - 1;
      ExpandKeys(f, locs[..n], k);
      assert locs == locs[..n] + [locs[n]];
      KeysOfConcat(Expand(f, locs[..n]), [ExpOf(f, locs[n])]);
    }
  }

  lemma KeysOfConcat(a: seq<Exp>, b: seq<Exp>)
    ensures KeysOf(a + b) == KeysOf(a) + KeysOf(b)
  {
  }

  /** The finding has a location in the issue of `k`, and its hash and rule. */
  predicate Owns(f: Finding, k: FindingKey) {
    exists l <- f.EffectiveLocations() :: k == FindingKey(f.secretHash, f.ruleId, l.issueKey)
  }

  predicate AnyOwns(fs: seq<Finding>, k: FindingKey) {
    exists f <- fs :: Owns(f, k)
  }

  lemma AnyOwnsAppend(fs: seq<Finding>, f: Finding, k: FindingKey)
    ensures AnyOwns(fs + [f], k) <==> AnyOwns(fs, k) || Owns(f, k)
  {
    assert forall g :: g in fs + [f] <==> g in fs || g == f;
  }

  lemma ExpandOneMore(fs: seq<Finding>, f: Finding, k: FindingKey)
    ensures k in KeysOf(ExpandAll(fs + [f])) <==> k in KeysOf(ExpandAll(fs)) || Owns(f, k)
  {
    assert (fs + [f])[..|fs|] == fs;
    KeysOfConcat(ExpandAll(fs), Expand(f, f.EffectiveLocations()));
    ExpandKeys(f, f.EffectiveLocations(), k);
  }

  lemma {:induction false} ExpandAllKeys(fs: seq<Finding>, k: FindingKey)
    ensures k in KeysOf(ExpandAll(fs)) <==> AnyOwns(fs, k)
  {
    if fs != [] {
      var init, f := fs[..|fs| - 1], fs[|fs| - 1];
      assert fs == init + [f];
      ExpandAllKeys(init, k);
      ExpandOneMore(init, f, k);
      AnyOwnsAppend(init, f, k);
    }
  }

  lemma SameIdentity(f: Finding, g: Finding)
    requires |f.secretHash| == |g.secretHash| && Dedup.TextOf(f) == Dedup.TextOf(g)
    ensures f.MergeIdentity() == g.MergeIdentity()
  {
    MergeTextInjective(f.MergeIdentity(), g.MergeIdentity());
  }

  lemma TaskFindings(issues: seq<Issue>, f: Finding) returns (i: Issue)
    requires TasksAreHonest(issues) && f in AllFindings(issues)
    ensures i in issues && f in FindingsOf(i) && |f.secretHash| == SECRET_HASH_LENGTH
    ensures f.locations != [] && forall l <- f.locations :: l.issueKey == i.key
  {
    FromSomeIssue(issues, f);
    i :| i in issues && f in FindingsOf(i);
    assert OwnLocations(i) && Digests(FindingsOf(i));
  }

  /** The merged findings keep digests and places. */
  lemma MergedIsSound(issues: seq<Issue>)
    requires TasksAreHonest(issues)
    ensures forall m <- Dedup.InsertAll(AllFindings(issues)) :: |m.secretHash| == SECRET_HASH_LENGTH && m.locations != []
  {
    var all := AllFindings(issues);
    forall f <- all
      ensures |f.secretHash| == SECRET_HASH_LENGTH
    {
      var _ := TaskFindings(issues, f);
    }
    MergedDigests(all);
    AllFindingsLocated(issues, Keys(issues));
    MergedLocated(all, Keys(issues));
    assert forall m <- Dedup.InsertAll(all) :: LocatedIn(m, Keys(issues));
  }

  /** Merging moves no location between merge texts, from the merged findings back ... */
  lemma CameFrom(all: seq<Finding>, m: Finding, l: Location) returns (f: Finding)
    requires m in Dedup.InsertAll(all) && l in m.locations
    ensures f in all && l in f.locations && Dedup.TextOf(f) == Dedup.TextOf(m)
  {
    var merged := Dedup.InsertAll(all);
    var a :| 0 <= a < |merged| && merged[a] == m;
    assert Dedup.Located(merged, Dedup.TextOf(m), l);
    Dedup.InsertAllLocated(all, Dedup.TextOf(m), l);
    var b :| 0 <= b < |all| && Dedup.TextOf(all[b]) == Dedup.TextOf(m) && l in all[b].locations;
    f := all[b];
  }

  /** ... and from the findings on. */
  lemma GoesTo(all: seq<Finding>, f: Finding, l: Location) returns (m: Finding)
    requires f in all && l in f.locations
    ensures m in Dedup.InsertAll(all) && l in m.locations && Dedup.TextOf(f) == Dedup.TextOf(m)
  {
    var merged := Dedup.InsertAll(all);
    var b :| 0 <= b < |all| && all[b] == f;
    assert Dedup.Located(all, Dedup.TextOf(f), l);
    Dedup.InsertAllLocated(all, Dedup.TextOf(f), l);
    var a :| 0 <= a < |merged| && Dedup.TextOf(merged[a]) == Dedup.TextOf(f) && l in merged[a].locations;
    m := merged[a];
  }

  /** A row the merged findings own was found by the task of its issue. */
  lemma OwnedWasFound(issues: seq<Issue>, m: Finding, k: FindingKey)
    requires TasksAreHonest(issues) && m in Dedup.InsertAll(AllFindings(issues)) && Owns(m, k)
    ensures Found(issues, k)
  {
    MergedIsSound(issues);
    var l :| l in m.locations && k == FindingKey(m.secretHash, m.ruleId, l.issueKey);
    var f := CameFrom(AllFindings(issues), m, l);
    var i := TaskFindings(issues, f);
    SameIdentity(f, m);
    assert FoundBy(i, k);
  }

  /** A secret found by the task of an issue gives the merged findings that issue's row. */
  lemma FoundIsOwned(issues: seq<Issue>, k: FindingKey) returns (m: Finding)
    requires TasksAreHonest(issues) && Found(issues, k)
    ensures m in Dedup.InsertAll(AllFindings(issues)) && Owns(m, k)
  {
    MergedIsSound(issues);
    var i :| i in issues && FoundBy(i, k);
    var f :| f in FindingsOf(i) && f.MergeIdentity() == MergeKey(k.secretHash, k.ruleId);
    FromSomeIssue(issues, f);
    assert OwnLocations(i);
    var l := f.locations[0];
    assert l in f.locations;
    m := GoesTo(AllFindings(issues), f, l);
    SameIdentity(m, f);
    assert l in m.EffectiveLocations() && k == FindingKey(m.secretHash, m.ruleId, l.issueKey);
  }

  lemma ReportedIffFound(issues: seq<Issue>, k: FindingKey)
    requires TasksAreHonest(issues)
    ensures k in KeysOf(ExpandAll(Dedup.InsertAll(AllFindings(issues)))) <==> Found(issues, k)
  {
    var merged := Dedup.InsertAll(AllFindings(issues));
    ExpandAllKeys(merged, k);
    if m :| m in merged && Owns(m, k) {
      OwnedWasFound(issues, m, k);
    }
    if Found(issues, k) {
      var m := FoundIsOwned(issues, k);
    }
  }

  lemma SameFound(a: seq<Issue>, b: seq<Issue>, k: FindingKey)
    requires multiset(a) == multiset(b)
    ensures Found(a, k) <==> Found(b, k)
    ensures TasksAreHonest(a) <==> TasksAreHonest(b)
  {
    assert forall i :: i in a <==> i in multiset(a);
    assert forall i :: i in b <==> i in multiset(b);
  }

  // ----- which rows a scan closes -----

  /** The reconciliation of a scan: its tasks finished in `order`, for the issues `taken`. */
  function ScanCall(order: seq<Issue>, taken: seq<Issue>, scanId: string, startedAt: Time, now: Time): Call {
    Call(Dedup.InsertAll(AllFindings(order)), Keys(taken), scanId, startedAt, now)
  }

  /**
   * Which rows a scan closes, whatever order its tasks finished in: exactly the open rows of the
   * issues it took whose tasks did not find that secret by that rule, be it because it is gone,
   * because the task failed, or because the text that holds it was not read.
   */
  lemma ClosesIff(order: seq<Issue>, taken: seq<Issue>, table: Table, k: FindingKey, scanId: string, startedAt: Time, now: Time)
    requires multiset(order) == multiset(taken) && TasksAreHonest(taken)
    ensures Flips(table, ScanCall(order, taken, scanId, startedAt, now), k)
            <==> k in table && table[k].status != Closed && k.issueKey in Keys(taken) && !Found(taken, k)
  {
    SameFound(order, taken, k);
    ReportedIffFound(order, k);
  }

  /** An issue whose task failed was taken all the same: every open row of it is closed. */
  lemma FailedTaskClosesRows(order: seq<Issue>, taken: seq<Issue>, table: Table, k: FindingKey,
                             scanId: string, startedAt: Time, now: Time)
    requires multiset(order) == multiset(taken) && TasksAreHonest(taken)
    requires k in table && table[k].status != Closed && k.issueKey in Keys(taken)
    requires forall i <- taken | i.key == k.issueKey :: i.outcome.Failed?
    ensures Lookup(Reconciled(table, ScanCall(order, taken, scanId, startedAt, now)), k)
            == Some(CloseRow(table[k], now, scanId))
  {
    var call := ScanCall(order, taken, scanId, startedAt, now);
    ClosesIff(order, taken, table, k, scanId, startedAt, now);
    SightingsMeanKeys(ExpandAll(call.current), k, now, scanId);
    ReconciledAt(table, call, k);
  }

  // ----- what a stored row says -----

  /** The row as a finding's location is stored: the finding's fields, that location, this call's stamps. */
  predicate StoredAs(row: Row, f: Finding, l: Location, call: Call) {
    && row.content.issueUrl == f.issueUrl && row.content.severity == f.severity
    && row.content.confidence == f.confidence && row.content.evidence == f.evidence
    && row.content.location == l
    && row.status != Closed && row.closedAt == None
    && row.lastSeen == call.now && row.scanIdLast == call.scanId
  }

  /** Where a finding was seen: its explicit locations, or its own place when it has none. */
  predicate SeenAt(f: Finding, l: Location) {
    l in f.locations || (f.locations == [] && l == Location(f.issueKey, f.fieldPath, f.sourceType))
  }

  /** A place of a current finding that stores this row. */
  predicate Stores(f: Finding, l: Location, k: FindingKey, row: Row, call: Call) {
    SeenAt(f, l) && k == FindingKey(f.secretHash, f.ruleId, l.issueKey) && StoredAs(row, f, l, call)
  }

  ghost predicate StoredBySome(fs: seq<Finding>, k: FindingKey, row: Row, call: Call) {
    exists f, l :: f in fs && Stores(f, l, k, row, call)
  }

  /** The content of the exp was taken from the finding at the location. */
  predicate TakenFrom(content: RowContent, f: Finding, l: Location, k: FindingKey) {
    && SeenAt(f, l) && k == FindingKey(f.secretHash, f.ruleId, l.issueKey)
    && content == RowContent(f.issueUrl, f.severity, f.confidence, l, f.evidence)
  }

  ghost predicate TakenFromSome(content: RowContent, fs: seq<Finding>, k: FindingKey) {
    exists f, l :: f in fs && TakenFrom(content, f, l, k)
  }

  lemma {:induction false} ExpandedFrom(f: Finding, locs: seq<Location>, e: Exp)
    requires e in Expand(f, locs) && forall l <- locs :: SeenAt(f, l)
    ensures exists l :: TakenFrom(e.content, f, l, e.key)
  {
    var n := |locs| - 1;
    if e in Expand(f, locs[..n]) {
      ExpandedFrom(f, locs[..n], e);
    } else {
      assert locs[n] in locs && TakenFrom(e.content, f, locs[n], e.key);
    }
  }

  lemma {:induction false} AllExpandedFrom(fs: seq<Finding>, e: Exp)
    requires e in ExpandAll(fs)
    ensures TakenFromSome(e.content, fs, e.key)
  {
    var n := |fs| - 1;
    if e in ExpandAll(fs[..n]) {
      AllExpandedFrom(fs[..n], e);
      var f, l :| f in fs[..n] && TakenFrom(e.content, f, l, e.key);
      assert f in fs;
    } else {
      ExpandedFrom(fs[n], fs[n].EffectiveLocations(), e);
      assert fs[n] in fs;
    }
  }

  lemma {:induction false} SightingFrom(exps: seq<Exp>, k: FindingKey, at: Time, scanId: string, s: Sighting)
    requires s in SightingsIn(exps, k, at, scanId)
    ensures exists e <- exps :: e.key == k && e.content == s.content
  {
    var n := |exps| - 1;
    if s in SightingsIn(exps[..n], k, at, scanId) {
      SightingFrom(exps[..n], k, at, scanId, s);
    } else {
      assert exps[n] in exps;
    }
  }

  /**
   * After a committed call every row it reported holds the fields of a current finding and one
   * of that finding's places, in the issue of the row's key, with this call's stamps.
   */
  lemma ReportedRowIsStored(table: Table, call: Call, k: FindingKey)
    requires k in KeysOf(ExpandAll(call.current))
    ensures k in Reconciled(table, call)
    ensures StoredBySome(call.current, k, Reconciled(table, call)[k], call)
  {
    var exps := ExpandAll(call.current);
    SightingsMeanKeys(exps, k, call.now, call.scanId);
    ReconciledAt(table, call, k);
    var seen := SightingsOf(Attempt(call, true), k);
    SightingFrom(exps, k, call.now, call.scanId, seen[|seen| - 1]);
    var e :| e in exps && e.key == k && e.content == seen[|seen| - 1].content;
    AllExpandedFrom(call.current, e);
    var f, l :| f in call.current && TakenFrom(e.content, f, l, k);
    assert Stores(f, l, k, Reconciled(table, call)[k], call);
  }
}
