/**
 * The receive, spawn and drain loop of a scan (src/pipeline.rs) and its counters
 * (src/progress.rs). Tasks finish in any order: every choice among the running tasks is
 * left open, so what is proved holds for every interleaving.
 */
module Pipeline {
  import opened Wrappers
  import opened Findings
  import Dedup

  /** What one issue's task returns. */
  datatype Outcome = Scanned(findings: seq<Finding>, comments: nat, attachments: nat) | Failed

  /** An issue as it is received, with the outcome its task will have. */
  datatype Issue = Issue(key: string, outcome: Outcome)

  /** A task reports only locations inside its own issue, and at least one per finding. */
  predicate OwnLocations(issue: Issue) {
    issue.outcome.Scanned? ==>
      forall f <- issue.outcome.findings ::
        f.locations != [] && forall l <- f.locations :: l.issueKey == issue.key
  }

  // ----- totals over a list of issues -----

  function FindingsOf(issue: Issue): seq<Finding> {
    if issue.outcome.Scanned? then issue.outcome.findings else []
  }

  function AllFindings(issues: seq<Issue>): seq<Finding> {
    if issues == [] then [] else AllFindings(issues[..|issues| - 1]) + FindingsOf(issues[|issues| - 1])
  }

  /** Failed issues, comment bodies and attachments, added up over issues. */
  datatype Tally = Tally(failed: nat, comments: nat, attachments: nat) {
    function Add(o: Outcome): Tally {
      match o
      case Scanned(_, c, a) => Tally(failed, comments + c, attachments + a)
      case Failed => Tally(failed + 1, comments, attachments)
    }
  }

  function TallyOf(issues: seq<Issue>): Tally {
    if issues == [] then Tally(0, 0, 0)
    else TallyOf(issues[..|issues| - 1]).Add(issues[|issues| - 1].outcome)
  }

  function Keys(issues: seq<Issue>): set<string> {
    set i <- issues :: i.key
  }

  lemma CollectedStep(issues: seq<Issue>, issue: Issue)
    ensures AllFindings(issues + [issue]) == AllFindings(issues) + FindingsOf(issue)
    ensures TallyOf(issues + [issue]) == TallyOf(issues).Add(issue.outcome)
  {
    assert (issues + [issue])[..|issues|] == issues;
  }

  /** A task that is collected leaves the running ones and is lost to nobody. */
  lemma TaskMoves(running: multiset<Issue>, collected: seq<Issue>, spawned: seq<Issue>, issue: Issue)
    requires issue in running && multiset(collected) + running == multiset(spawned)
    ensures multiset(collected + [issue]) + (running - multiset{issue}) == multiset(spawned)
    ensures |running - multiset{issue}| == |running| - 1
  {
  }

  function Sum(issues: seq<Issue>, amount: Issue -> nat): nat {
    if issues == [] then 0 else Sum(issues[..|issues| - 1], amount) + amount(issues[|issues| - 1])
  }

  function CommentsOf(issue: Issue): nat {
    if issue.outcome.Scanned? then issue.outcome.comments else 0
  }

  function AttachmentsOf(issue: Issue): nat {
    if issue.outcome.Scanned? then issue.outcome.attachments else 0
  }

  function FailuresOf(issue: Issue): nat {
    if issue.outcome.Failed? then 1 else 0
  }

  /** Each column of a tally is the sum of what the issues' outcomes carry in it. */
  lemma {:induction false} TallyIsSums(issues: seq<Issue>)
    ensures TallyOf(issues).failed == Sum(issues, FailuresOf)
    ensures TallyOf(issues).comments == Sum(issues, CommentsOf)
    ensures TallyOf(issues).attachments == Sum(issues, AttachmentsOf)
  {
    if issues != [] {
      TallyIsSums(issues[..|issues| - 1]);
    }
  }

  /** The counters of src/progress.rs. */
  class ScanProgress {
    var issuesDone: nat
    var findingsFound: nat
    var commentsScanned: nat
    var attachmentsScanned: nat
    var errorsCount: nat

    function Totals(): Tally
      reads this
    {
      Tally(errorsCount, commentsScanned, attachmentsScanned)
    }

    constructor ()
      ensures issuesDone == findingsFound == commentsScanned == attachmentsScanned == errorsCount == 0
    {
      issuesDone, findingsFound, commentsScanned, attachmentsScanned, errorsCount := 0, 0, 0, 0, 0;
    }

    method FinishIssue(found: nat)
      modifies `issuesDone, `findingsFound
      ensures issuesDone == old(issuesDone) + 1 && findingsFound == old(findingsFound) + found
    {
      issuesDone := issuesDone + 1;
      findingsFound := findingsFound + found;
    }

    method FinishIssueError()
      modifies `issuesDone, `errorsCount
      ensures issuesDone == old(issuesDone) + 1 && errorsCount == old(errorsCount) + 1
    {
      issuesDone := issuesDone + 1;
      errorsCount := errorsCount + 1;
    }

    method RecordComments(n: nat)
      modifies `commentsScanned
      ensures commentsScanned == old(commentsScanned) + n
    {
      commentsScanned := commentsScanned + n;
    }

    method RecordAttachments(n: nat)
      modifies `attachmentsScanned
      ensures attachmentsScanned == old(attachmentsScanned) + n
    {
      attachmentsScanned := attachmentsScanned + n;
    }
  }

  class ScanLoop {
    const concurrency: nat
    const progress: ScanProgress
    var joinSet: multiset<Issue>
    var allFindings: seq<Finding>
    var errorsTotal: nat
    var scannedIssueKeys: set<string>
    /** Issues given a task, in spawn order, and issues collected, in completion order. */
    ghost var spawned: seq<Issue>
    ghost var collected: seq<Issue>

    /**
     * What every step keeps: at most twice the concurrency in flight, no task lost or
     * collected twice, and every counter equal to its total over the collected issues.
     */
    ghost predicate Valid()
      reads this, progress
    {
      && |joinSet| <= 2 * concurrency
      && multiset(collected) + joinSet == multiset(spawned)
      && allFindings == AllFindings(collected)
      && errorsTotal == TallyOf(collected).failed
      && scannedIssueKeys == Keys(spawned)
      && progress.issuesDone == |collected|
      && progress.findingsFound == |allFindings|
      && progress.Totals() == TallyOf(collected)
    }

    constructor (concurrency: nat)
      requires concurrency > 0
      ensures Valid() && fresh(progress)
      ensures this.concurrency == concurrency && spawned == [] && collected == []
    {
      this.concurrency := concurrency;
      progress := new ScanProgress();
      joinSet, allFindings, errorsTotal, scannedIssueKeys := multiset{}, [], 0, {};
      spawned, collected := [], [];
    }

    /** Collect any one finished task; false when none is left. */
    method CollectOne() returns (more: bool)
      requires Valid()
      modifies this`joinSet, this`allFindings, this`errorsTotal, this`collected, progress
      ensures Valid()
      ensures more <==> old(joinSet) != multiset{}
      ensures !more ==> joinSet == old(joinSet) && collected == old(collected)
      ensures more ==> |joinSet| == |old(joinSet)| - 1
      ensures more ==> exists i <- old(joinSet) ::
                         joinSet == old(joinSet) - multiset{i} && collected == old(collected) + [i]
    {
      if joinSet == multiset{} {
        return false;
      }
      var issue :| issue in joinSet;
      joinSet := joinSet - multiset{issue};
      collected := collected + [issue];
      TaskMoves(old(joinSet), old(collected), spawned, issue);
      CollectedStep(old(collected), issue);
      Record(issue.outcome);
      return true;
    }

    /** Book the outcome of one finished task. */
    method Record(outcome: Outcome)
      modifies `allFindings, `errorsTotal, progress
      ensures allFindings == old(allFindings) + (if outcome.Scanned? then outcome.findings else [])
      ensures errorsTotal == old(errorsTotal) + if outcome.Failed? then 1 else 0
      ensures progress.issuesDone == old(progress.issuesDone) + 1
      ensures progress.findingsFound == old(progress.findingsFound) + |allFindings| - |old(allFindings)|
      ensures progress.Totals() == old(progress.Totals()).Add(outcome)
    {
      match outcome {
        case Scanned(findings, comments, attachments) =>
          progress.RecordComments(comments);
          progress.RecordAttachments(attachments);
          allFindings := allFindings + findings;
          progress.FinishIssue(|findings|);
        case Failed =>
          errorsTotal := errorsTotal + 1;
          progress.FinishIssueError();
      }
    }

    /** Take one issue from the channel: wait until a slot is free, then give it a task. */
    method Receive(issue: Issue)
      requires Valid() && concurrency > 0
      modifies this, progress
      ensures Valid()
      ensures spawned == old(spawned) + [issue]
    {
      while |joinSet| >= 2 * concurrency
        invariant Valid() && spawned == old(spawned)
        decreases |joinSet|
      {
        var _ := CollectOne();
      }
      scannedIssueKeys := scannedIssueKeys + {issue.key};
      spawned := spawned + [issue];
      joinSet := joinSet + multiset{issue};
    }

    /** Collect every task that is still running. */
    method Drain()
      requires Valid()
      modifies this, progress
      ensures Valid()
      ensures joinSet == multiset{} && spawned == old(spawned)
    {
      var more := true;
      while more
        invariant Valid() && spawned == old(spawned)
        invariant !more ==> joinSet == multiset{}
        decreases |joinSet|, more
      {
        more := CollectOne();
      }
    }
  }

  // ----- completion order does not matter -----

  lemma {:induction false} AllFindingsConcat(a: seq<Issue>, b: seq<Issue>)
    ensures AllFindings(a + b) == AllFindings(a) + AllFindings(b)
  {
    if b == [] {
      assert a + b == a;
    } else {
      AllFindingsConcat(a, b[..|b| - 1]);
      assert (a + b)[..|a + b| - 1] == a + b[..|b| - 1];
    }
  }

  lemma FindingsOfOne(x: Issue)
    ensures AllFindings([x]) == FindingsOf(x)
  {
    assert [x][..0] == [] && [] + FindingsOf(x) == FindingsOf(x);
  }

  lemma FindingsAround(a: seq<Issue>, x: Issue, b: seq<Issue>)
    ensures multiset(AllFindings(a + ([x] + b))) == multiset(AllFindings(a + b)) + multiset(FindingsOf(x))
  {
    AllFindingsConcat(a, [x] + b);
    AllFindingsConcat([x], b);
    FindingsOfOne(x);
    AllFindingsConcat(a, b);
    MiddleOut(AllFindings(a), FindingsOf(x), AllFindings(b));
  }

  lemma FindingsWithout(issues: seq<Issue>, i: nat)
    requires i < |issues|
    ensures multiset(AllFindings(issues))
            == multiset(AllFindings(issues[..i] + issues[i + 1..])) + multiset(FindingsOf(issues[i]))
  {
    SplitAt(issues, i);
    FindingsAround(issues[..i], issues[i], issues[i + 1..]);
  }

  lemma SplitAt<T>(s: seq<T>, i: nat)
    requires i < |s|
    ensures s == s[..i] + ([s[i]] + s[i + 1..])
  {
  }

  lemma MiddleOut<T>(a: seq<T>, x: seq<T>, b: seq<T>)
    ensures multiset(a + (x + b)) == multiset(a + b) + multiset(x)
  {
  }

  lemma LastInPlace<T>(a: seq<T>, x: T, b: seq<T>)
    requires b != []
    ensures var n := |b| - 1;
            && a + ([x] + b) == (a + ([x] + b[..n])) + [b[n]]
            && a + b == (a + b[..n]) + [b[n]]
  {
  }

  lemma AddCommutes(t: Tally, o: Outcome, p: Outcome)
    ensures t.Add(o).Add(p) == t.Add(p).Add(o)
  {
  }

  lemma {:induction false} TallyAround(a: seq<Issue>, x: Issue, b: seq<Issue>)
    ensures TallyOf(a + ([x] + b)) == TallyOf(a + b).Add(x.outcome)
    decreases |b|
  {
    if b == [] {
      CollectedStep(a, x);
      assert a + ([x] + b) == a + [x] && a + b == a;
    } else {
      var init, last := b[..|b| - 1], b[|b| - 1];
      LastInPlace(a, x, b);
      CollectedStep(a + ([x] + init), last);
      CollectedStep(a + init, last);
      TallyAround(a, x, init);
      AddCommutes(TallyOf(a + init), x.outcome, last.outcome);
    }
  }

  lemma TallyWithout(issues: seq<Issue>, i: nat)
    requires i < |issues|
    ensures TallyOf(issues) == TallyOf(issues[..i] + issues[i + 1..]).Add(issues[i].outcome)
  {
    SplitAt(issues, i);
    TallyAround(issues[..i], issues[i], issues[i + 1..]);
  }

  lemma MatchLast(a: seq<Issue>, b: seq<Issue>) returns (j: nat)
    requires a != [] && multiset(a) == multiset(b)
    ensures j < |b| && b[j] == a[|a| - 1]
    ensures multiset(b[..j] + b[j + 1..]) == multiset(a[..|a| - 1])
  {
    var n := |a| - 1;
    assert a == a[..n] + [a[n]];
    assert a[n] in multiset(b);
    j :| 0 <= j < |b| && b[j] == a[n];
    assert b == b[..j] + [b[j]] + b[j + 1..];
    assert multiset(b[..j] + b[j + 1..]) == multiset(b) - multiset{a[n]};
    assert multiset(a[..n]) == multiset(a) - multiset{a[n]};
  }

  /** Totals and the multiset of findings are the same for every order of the same issues. */
  lemma {:induction false} TotalsIgnoreOrder(a: seq<Issue>, b: seq<Issue>)
    requires multiset(a) == multiset(b)
    ensures multiset(AllFindings(a)) == multiset(AllFindings(b))
    ensures TallyOf(a) == TallyOf(b)
    decreases |a|
  {
    if a == [] {
      assert |multiset(b)| == 0;
    } else {
      var n := |a| - 1;
      var j := MatchLast(a, b);
      TotalsIgnoreOrder(a[..n], b[..j] + b[j + 1..]);
      FindingsWithout(b, j);
      TallyWithout(b, j);
    }
  }

  /**
   * Two complete scans of the same issues report the same merged findings: as many of them,
   * the same merge texts, and the same locations under each, however their tasks were
   * interleaved; and they agree on every counter.
   */
  lemma ReportIgnoresCompletionOrder(a: seq<Issue>, b: seq<Issue>, t: string, l: Location)
    requires multiset(a) == multiset(b)
    ensures var x, y := Dedup.InsertAll(AllFindings(a)), Dedup.InsertAll(AllFindings(b));
            && |x| == |y|
            && Dedup.Texts(x) == Dedup.Texts(y)
            && (Dedup.Located(x, t, l) <==> Dedup.Located(y, t, l))
    ensures |AllFindings(a)| == |AllFindings(b)| && TallyOf(a) == TallyOf(b)
  {
    TotalsIgnoreOrder(a, b);
    SameTotals(a, b);
    Dedup.OrderIndependent(AllFindings(a), AllFindings(b), t, l);
  }

  // ----- the whole scan -----

  /** The issues that get a task: all that arrive, or those before the cancellation is seen. */
  function Taken(issues: seq<Issue>, cancelAfter: Option<nat>): (taken: seq<Issue>)
    ensures taken <= issues
    ensures |taken| == if cancelAfter.Some? && cancelAfter.value <= |issues| then cancelAfter.value else |issues|
  {
    if cancelAfter.Some? && cancelAfter.value < |issues| then issues[..cancelAfter.value] else issues
  }

  /**
   * One scan over the issues that arrive. The totals do not depend on how the tasks
   * interleave; `order` is the order in which they happened to finish. An error of the fetch
   * task, looked at only after the drain, ends the scan without a report.
   */
  method Scan(issues: seq<Issue>, concurrency: nat, cancelAfter: Option<nat>, fetchError: Option<string>)
      returns (findings: Result<seq<Finding>, string>, scanned: set<string>, progress: ScanProgress,
               errorsTotal: nat, ghost order: seq<Issue>)
    requires concurrency > 0
    ensures scanned == Keys(Taken(issues, cancelAfter))
    ensures progress.issuesDone == |Taken(issues, cancelAfter)|
    ensures progress.findingsFound == |AllFindings(Taken(issues, cancelAfter))|
    ensures progress.Totals() == TallyOf(Taken(issues, cancelAfter))
    ensures progress.commentsScanned == Sum(Taken(issues, cancelAfter), CommentsOf)
    ensures progress.attachmentsScanned == Sum(Taken(issues, cancelAfter), AttachmentsOf)
    ensures errorsTotal == progress.errorsCount == Sum(Taken(issues, cancelAfter), FailuresOf)
    ensures multiset(order) == multiset(Taken(issues, cancelAfter))
    ensures fetchError.None? ==> findings == Success(Dedup.InsertAll(AllFindings(order)))
    ensures fetchError.Some? ==> findings == Failure(fetchError.value)
  {
    var loop := RunTasks(issues, concurrency, cancelAfter);
    order := loop.collected;
    assert multiset(order) == multiset(loop.spawned);
    SameTotals(order, loop.spawned);
    TallyIsSums(loop.spawned);
    scanned, progress, errorsTotal := loop.scannedIssueKeys, loop.progress, loop.errorsTotal;
    if fetchError.Some? {
      return Failure(fetchError.value), scanned, progress, errorsTotal, order;
    }
    var dedup := new Dedup.Deduplicator();
    dedup.InsertFindings(loop.allFindings);
    findings := Success(dedup.findings);
  }

  /** Receive, spawn and drain. */
  method RunTasks(issues: seq<Issue>, concurrency: nat, cancelAfter: Option<nat>) returns (loop: ScanLoop)
    requires concurrency > 0
    ensures loop.Valid() && fresh(loop) && fresh(loop.progress)
    ensures loop.joinSet == multiset{} && loop.spawned == Taken(issues, cancelAfter)
  {
    loop := new ScanLoop(concurrency);
    var next := 0;
    while next < |issues|
      invariant 0 <= next <= |issues|
      invariant cancelAfter.Some? && cancelAfter.value <= |issues| ==> next <= cancelAfter.value
      invariant loop.Valid() && loop.concurrency == concurrency && loop.spawned == issues[..next]
      invariant fresh(loop) && fresh(loop.progress)
    {
      if cancelAfter == Some(next) {
        break;
      }
      loop.Receive(issues[next]);
      next := next + 1;
    }
    loop.Drain();
    assert issues[..|issues|] == issues;
  }

  lemma SameTotals(a: seq<Issue>, b: seq<Issue>)
    requires multiset(a) == multiset(b)
    ensures |a| == |b| && |AllFindings(a)| == |AllFindings(b)| && TallyOf(a) == TallyOf(b)
  {
    TotalsIgnoreOrder(a, b);
    assert |multiset(a)| == |a| && |multiset(b)| == |b|;
    assert |multiset(AllFindings(a))| == |AllFindings(a)| && |multiset(AllFindings(b))| == |AllFindings(b)|;
  }

  // ----- what the store may rely on -----

  predicate LocatedIn(f: Finding, keys: set<string>) {
    f.locations != [] && forall l <- f.locations :: l.issueKey in keys
  }

  lemma {:induction false} AllFindingsLocated(issues: seq<Issue>, keys: set<string>)
    requires forall i <- issues :: OwnLocations(i) && i.key in keys
    ensures forall f <- AllFindings(issues) :: LocatedIn(f, keys)
  {
    if issues != [] {
      var n := |issues| - 1;
      AllFindingsLocated(issues[..n], keys);
      assert issues[n] in issues && OwnLocations(issues[n]);
      forall f <- AllFindings(issues)
        ensures LocatedIn(f, keys)
      {
        if f !in AllFindings(issues[..n]) {
          assert f in FindingsOf(issues[n]);
        }
      }
    }
  }

  lemma {:induction false} MergedLocated(fs: seq<Finding>, keys: set<string>)
    requires forall f <- fs :: LocatedIn(f, keys)
    ensures forall f <- Dedup.InsertAll(fs) :: LocatedIn(f, keys)
  {
    if fs != [] {
      var n := |fs| - 1;
      var before, f := Dedup.InsertAll(fs[..n]), fs[n];
      MergedLocated(fs[..n], keys);
      assert f in fs;
      var at := Dedup.IndexOf(before, Dedup.TextOf(f));
      if at.Some? {
        Dedup.AddLocationsMeaning(before[at.value].locations, f.locations);
        assert LocatedIn(before[at.value], keys);
      }
    }
  }

  /**
   * What a scan hands to the store: every location lies in a scanned issue, and no two
   * findings share a merge key, whatever order the tasks finished in.
   */
  lemma ScanFeedsStore(order: seq<Issue>, taken: seq<Issue>)
    requires multiset(order) == multiset(taken)
    requires forall i <- taken :: OwnLocations(i)
    ensures var fs := Dedup.InsertAll(AllFindings(order));
            && (forall f <- fs :: forall l <- f.EffectiveLocations() :: l.issueKey in Keys(taken))
            && (forall i, j | 0 <= i < j < |fs| :: fs[i].MergeIdentity() != fs[j].MergeIdentity())
  {
    forall i <- order
      ensures OwnLocations(i) && i.key in Keys(taken)
    {
      assert i in multiset(taken);
    }
    AllFindingsLocated(order, Keys(taken));
    MergedLocated(AllFindings(order), Keys(taken));
    Dedup.InsertAllTexts(AllFindings(order));
  }
}
