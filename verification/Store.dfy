/**
 * The persistent findings store (src/store.rs): the table as a map from key to row, and
 * `reconcile` as one atomic step on it.
 */
module Store {
  import opened Wrappers
  import opened Findings

  /** The columns an upsert overwrites without looking at them. */
  datatype RowContent = RowContent(
    issueUrl: string,
    severity: Severity,
    confidence: Confidence,
    location: Location,
    evidence: Evidence)

  datatype Row = Row(
    content: RowContent,
    status: FindingStatus,
    firstSeen: Time,
    lastSeen: Time,
    closedAt: Option<Time>,
    timesSeen: nat,
    scanIdLast: string)

  type Table = map<FindingKey, Row>

  /** One row to upsert: a current finding expanded to one of its locations. */
  datatype Exp = Exp(key: FindingKey, content: RowContent)

  /** The arguments of one reconciliation, and the instant it reads from the clock. */
  datatype Call = Call(
    current: seq<Finding>,
    scanned: set<string>,
    scanId: string,
    startedAt: Time,
    now: Time)

  /** `as u32` on a non-negative count. */
  function AsU32(n: int): nat {
    n % 0x1_0000_0000
  }

  // ----- expansion -----

  function ExpOf(f: Finding, loc: Location): Exp {
    Exp(FindingKey(f.secretHash, f.ruleId, loc.issueKey),
        RowContent(f.issueUrl, f.severity, f.confidence, loc, f.evidence))
  }

  function Expand(f: Finding, locs: seq<Location>): seq<Exp> {
    if locs == [] then [] else Expand(f, locs[..|locs| - 1]) + [ExpOf(f, locs[|locs| - 1])]
  }

  function ExpandAll(fs: seq<Finding>): seq<Exp> {
    if fs == [] then []
    else ExpandAll(fs[..|fs| - 1]) + Expand(fs[|fs| - 1], fs[|fs| - 1].EffectiveLocations())
  }

  function KeysOf(exps: seq<Exp>): set<FindingKey> {
    set e <- exps :: e.key
  }

  // ----- the step on the table -----

  /** A stored row that this call turns to closed: in a scanned issue, not reported, not closed yet. */
  predicate Flips(table: Table, call: Call, k: FindingKey) {
    && k in table
    && k.issueKey in call.scanned
    && k !in KeysOf(ExpandAll(call.current))
    && table[k].status != Closed
  }

  function FlippedKeys(table: Table, call: Call): set<FindingKey> {
    set k <- table | Flips(table, call, k)
  }

  function CloseRow(row: Row, now: Time, scanId: string): Row {
    row.(status := Closed, closedAt := Some(now), lastSeen := now, scanIdLast := scanId)
  }

  function CloseKeys(table: Table, ks: set<FindingKey>, now: Time, scanId: string): Table {
    map k <- table :: if k in ks then CloseRow(table[k], now, scanId) else table[k]
  }

  function UpsertRow(before: Option<Row>, content: RowContent, now: Time, scanId: string): Row {
    match before
    case None => Row(content, New, now, now, None, 1, scanId)
    case Some(row) => Row(content, Recurring, row.firstSeen, now, None, row.timesSeen + 1, scanId)
  }

  function Lookup(table: Table, k: FindingKey): Option<Row> {
    if k in table then Some(table[k]) else None
  }

  function Upsert(table: Table, e: Exp, now: Time, scanId: string): Table {
    table[e.key := UpsertRow(Lookup(table, e.key), e.content, now, scanId)]
  }

  function UpsertAll(table: Table, exps: seq<Exp>, now: Time, scanId: string): Table {
    if exps == [] then table
    else Upsert(UpsertAll(table, exps[..|exps| - 1], now, scanId), exps[|exps| - 1], now, scanId)
  }

  /** The table after one committed reconciliation. */
  function Reconciled(table: Table, call: Call): Table {
    UpsertAll(CloseKeys(table, FlippedKeys(table, call), call.now, call.scanId),
              ExpandAll(call.current), call.now, call.scanId)
  }

  // ----- the report -----

  /** The rows the call reads before it writes: those of the scanned issues. */
  function ReadRows(table: Table, scanned: set<string>): Table {
    map k <- table | k.issueKey in scanned :: table[k]
  }

  /** Live validations are joined only for the hashes of current findings. */
  function LiveMap(validations: map<string, ExternalValidation>, current: seq<Finding>): map<string, ExternalValidation> {
    map h <- validations | exists f <- current :: f.secretHash == h :: validations[h]
  }

  function FirstSeenOf(read: Table, now: Time, k: FindingKey): Time {
    if k in read then read[k].firstSeen else now
  }

  function TimesAfterOne(read: Table, k: FindingKey): nat {
    if k in read then read[k].timesSeen + 1 else 1
  }

  /** Sum of the sightings the report attributes to a list of rows. */
  function TimesTotal(read: Table, keys: seq<FindingKey>): nat {
    if keys == [] then 0
    else TimesTotal(read, keys[..|keys| - 1]) + TimesAfterOne(read, keys[|keys| - 1])
  }

  /** The same sum as the program accumulates it, in a 32-bit counter. */
  function TimesCounter(read: Table, keys: seq<FindingKey>): nat {
    if keys == [] then 0
    else AsU32(TimesCounter(read, keys[..|keys| - 1]) + AsU32(TimesAfterOne(read, keys[|keys| - 1])))
  }

  lemma WrapSum(a: nat, b: nat)
    ensures AsU32(AsU32(a) + AsU32(b)) == AsU32(a + b)
  {
    var m := 0x1_0000_0000;
    var s := a % m + b % m;
    assert a + b == (a / m + b / m + s / m) * m + s % m;
  }

  /** The counter is the sum modulo 2^32: wrapping at each step loses nothing more. */
  lemma {:induction false} CounterIsWrappedTotal(read: Table, keys: seq<FindingKey>)
    ensures TimesCounter(read, keys) == AsU32(TimesTotal(read, keys))
  {
    if keys != [] {
      CounterIsWrappedTotal(read, keys[..|keys| - 1]);
      WrapSum(TimesTotal(read, keys[..|keys| - 1]), TimesAfterOne(read, keys[|keys| - 1]));
    }
  }

  function Min(a: Time, b: Time): Time {
    if b < a then b else a
  }

  function EarliestSeen(read: Table, now: Time, keys: seq<FindingKey>): Option<Time> {
    if keys == [] then None
    else
      var t := FirstSeenOf(read, now, keys[|keys| - 1]);
      match EarliestSeen(read, now, keys[..|keys| - 1])
      case None => Some(t)
      case Some(m) => Some(Min(m, t))
  }

  /** A finding proved live is critical and certain; any validation result is attached. */
  function JoinValidation(f: Finding, live: map<string, ExternalValidation>): Finding {
    if f.secretHash !in live then f
    else
      var ev := live[f.secretHash];
      var g := f.(validation := Some(ev));
      if ev.valid then g.(severity := Critical, confidence := HighConfidence) else g
  }

  function Enrich(f: Finding, read: Table, call: Call, live: map<string, ExternalValidation>): Finding {
    var keys := f.LocationKeys();
    var first := match EarliestSeen(read, call.now, keys) case Some(t) => t case None => call.now;
    JoinValidation(
      f.(status := if first < call.startedAt then Recurring else New,
         firstSeen := Some(first),
         timesSeen := Some(TimesCounter(read, keys))),
      live)
  }

  function EnrichAll(fs: seq<Finding>, read: Table, call: Call, live: map<string, ExternalValidation>): (out: seq<Finding>)
    ensures |out| == |fs|
    ensures forall i | 0 <= i < |fs| :: out[i] == Enrich(fs[i], read, call, live)
  {
    seq(|fs|, i requires 0 <= i < |fs| => Enrich(fs[i], read, call, live))
  }

  /** The finding reported for a row this call closes, rebuilt from the row as it was read. */
  function ClosedFinding(k: FindingKey, row: Row, live: map<string, ExternalValidation>): Finding {
    Finding(k.secretHash, k.ruleId, k.issueKey, row.content.issueUrl,
            row.content.location.fieldPath, row.content.location.sourceType,
            row.content.severity, row.content.confidence, row.content.evidence,
            row.lastSeen, [row.content.location], Closed, Some(row.firstSeen), Some(AsU32(row.timesSeen)),
            if k.secretHash in live then Some(live[k.secretHash]) else None)
  }

  function ClosedFindings(order: seq<FindingKey>, read: Table, live: map<string, ExternalValidation>): (out: seq<Finding>)
    requires forall k <- order :: k in read
    ensures |out| == |order|
    ensures forall i | 0 <= i < |order| :: out[i] == ClosedFinding(order[i], read[order[i]], live)
  {
    seq(|order|, i requires 0 <= i < |order| => ClosedFinding(order[i], read[order[i]], live))
  }

  /** What a committed call returns, the closed findings in this order. */
  function Report(table: Table, validations: map<string, ExternalValidation>, call: Call, order: seq<FindingKey>)
    : (out: seq<Finding>)
    requires forall k <- order :: k in ReadRows(table, call.scanned)
  {
    var read, live := ReadRows(table, call.scanned), LiveMap(validations, call.current);
    EnrichAll(call.current, read, call, live) + ClosedFindings(order, read, live)
  }

  /** `order` lists every element of `ks` exactly once. */
  ghost predicate Enumerates(order: seq<FindingKey>, ks: set<FindingKey>) {
    && (forall k :: k in order <==> k in ks)
    && (forall i, j | 0 <= i < j < |order| :: order[i] != order[j])
  }

  // ----- the store -----

  class FindingsStore {
    var table: Table
    var validations: map<string, ExternalValidation>

    constructor ()
      ensures table == map[] && validations == map[]
    {
      table, validations := map[], map[];
    }

    /**
     * Reconcile one scan. `commits` says whether the transaction reaches its commit: when it
     * does not, the call fails and nothing is written. `order` is the order in which the read
     * rows happen to be visited.
     */
    method Reconcile(call: Call, commits: bool) returns (r: Result<seq<Finding>, string>, ghost order: seq<FindingKey>)
      modifies this`table
      ensures !commits ==> r.Failure? && table == old(table)
      ensures commits ==> table == Reconciled(old(table), call)
      ensures commits ==>
                && Enumerates(order, FlippedKeys(old(table), call))
                && (forall k <- order :: k in ReadRows(old(table), call.scanned))
                && r == Success(Report(old(table), validations, call, order))
    {
      order := [];
      var exps := ExpandCurrent(call.current);
      var read := ReadRows(table, call.scanned);
      var currentKeys := KeysOf(exps);
      if !commits {
        return Failure("commit"), order;
      }
      var toClose := set k <- read | k.issueKey in call.scanned && k !in currentKeys && read[k].status != Closed;
      assert toClose == FlippedKeys(table, call);
      CloseRows(toClose, call);
      UpsertRows(exps, call);
      var live := LiveMap(validations, call.current);
      var enriched := EnrichCurrent(call, read, live);
      var closed;
      closed, order := ReportClosed(toClose, read, live);
      r := Success(enriched + closed);
    }

    method CloseRows(toClose: set<FindingKey>, call: Call)
      requires toClose <= table.Keys
      modifies this`table
      ensures table == CloseKeys(old(table), toClose, call.now, call.scanId)
    {
      var rest := toClose;
      assert table == CloseKeys(old(table), {}, call.now, call.scanId);
      while rest != {}
        invariant rest <= toClose
        invariant table == CloseKeys(old(table), toClose - rest, call.now, call.scanId)
      {
        var k :| k in rest;
        table := table[k := CloseRow(table[k], call.now, call.scanId)];
        rest := rest - {k};
      }
      assert toClose - {} == toClose;
    }

    method UpsertRows(exps: seq<Exp>, call: Call)
      modifies this`table
      ensures table == UpsertAll(old(table), exps, call.now, call.scanId)
    {
      for i := 0 to |exps|
        invariant table == UpsertAll(old(table), exps[..i], call.now, call.scanId)
      {
        assert exps[..i + 1][..i] == exps[..i];
        table := table[exps[i].key := UpsertRow(Lookup(table, exps[i].key), exps[i].content, call.now, call.scanId)];
      }
      assert exps[..|exps|] == exps;
    }
  }

  method ExpandCurrent(current: seq<Finding>) returns (exps: seq<Exp>)
    ensures exps == ExpandAll(current)
  {
    exps := [];
    for i := 0 to |current|
      invariant exps == ExpandAll(current[..i])
    {
      var locs := current[i].EffectiveLocations();
      for j := 0 to |locs|
        invariant exps == ExpandAll(current[..i]) + Expand(current[i], locs[..j])
      {
        assert locs[..j + 1][..j] == locs[..j];
        exps := exps + [ExpOf(current[i], locs[j])];
      }
      assert locs[..|locs|] == locs;
      assert current[..i + 1][..i] == current[..i];
    }
    assert current[..|current|] == current;
  }

  /** Sum and minimum over the rows of one finding. */
  method SumHistory(keys: seq<FindingKey>, read: Table, now: Time) returns (earliest: Option<Time>, times: nat)
    ensures earliest == EarliestSeen(read, now, keys)
    ensures times == TimesCounter(read, keys)
  {
    earliest, times := None, 0;
    for j := 0 to |keys|
      invariant earliest == EarliestSeen(read, now, keys[..j])
      invariant times == TimesCounter(read, keys[..j])
    {
      assert keys[..j + 1][..j] == keys[..j];
      var first;
      if keys[j] in read {
        times := AsU32(times + AsU32(read[keys[j]].timesSeen + 1));
        first := read[keys[j]].firstSeen;
      } else {
        times := AsU32(times + AsU32(1));
        first := now;
      }
      if earliest.None? || first < earliest.value {
        earliest := Some(first);
      }
    }
    assert keys[..|keys|] == keys;
  }

  method EnrichCurrent(call: Call, read: Table, live: map<string, ExternalValidation>) returns (out: seq<Finding>)
    ensures out == EnrichAll(call.current, read, call, live)
  {
    out := [];
    for i := 0 to |call.current|
      invariant |out| == i
      invariant forall j | 0 <= j < i :: out[j] == Enrich(call.current[j], read, call, live)
    {
      var g := EnrichOne(call.current[i], call, read, live);
      out := out + [g];
    }
  }

  /** The body of the enrichment loop. */
  method EnrichOne(f: Finding, call: Call, read: Table, live: map<string, ExternalValidation>) returns (g: Finding)
    ensures g == Enrich(f, read, call, live)
  {
    var earliest, times := SumHistory(f.LocationKeys(), read, call.now);
    var first := if earliest.Some? then earliest.value else call.now;
    g := f.(status := if first < call.startedAt then Recurring else New,
            firstSeen := Some(first), timesSeen := Some(times));
    if f.secretHash in live {
      if live[f.secretHash].valid {
        g := g.(severity := Critical, confidence := HighConfidence);
      }
      g := g.(validation := Some(live[f.secretHash]));
    }
  }

  method ReportClosed(toClose: set<FindingKey>, read: Table, live: map<string, ExternalValidation>)
      returns (closed: seq<Finding>, ghost order: seq<FindingKey>)
    requires toClose <= read.Keys
    ensures |closed| == |toClose|
    ensures forall k <- toClose :: ClosedFinding(k, read[k], live) in closed
    ensures Enumerates(order, toClose)
    ensures forall k <- order :: k in read
    ensures closed == ClosedFindings(order, read, live)
  {
    closed, order := [], [];
    var rest := toClose;
    while rest != {}
      invariant rest <= toClose
      invariant Enumerates(order, toClose - rest)
      invariant forall k <- order :: k in read
      invariant closed == ClosedFindings(order, read, live)
    {
      var k :| k in rest;
      closed := closed + [ClosedFinding(k, read[k], live)];
      order := order + [k];
      rest := rest - {k};
    }
    assert toClose - rest == toClose;
    EnumeratedOnce(order, toClose);
    forall k <- toClose
      ensures ClosedFinding(k, read[k], live) in closed
    {
      var i :| 0 <= i < |order| && order[i] == k;
      assert closed[i] == ClosedFinding(k, read[k], live);
    }
  }

  lemma {:induction false} EnumeratedOnce(order: seq<FindingKey>, ks: set<FindingKey>)
    requires Enumerates(order, ks)
    ensures |order| == |ks|
  {
    if order == [] {
      assert forall k <- ks :: k in order;
      assert ks == {};
    } else {
      var n := |order| - 1;
      assert order == order[..n] + [order[n]];
      assert order[n] in order;
      EnumeratedOnce(order[..n], ks - {order[n]});
    }
  }
}
