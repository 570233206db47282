/**
 * What sequences of incremental runs keep (src/checkpoint.rs, src/pipeline.rs): which updates
 * the windows of successful runs have contained, and exactly when one is lost.
 */
module CheckpointHistory {
  import opened Sequences
  import opened Wrappers
  import opened Findings
  import opened Jql
  import opened Checkpoint
  import Fetcher
  import IssueTask
  import Pipeline

  // ----- histories of runs -----

  /** Whether the text of a query selects an issue. */
  type Selects = (string, string) -> bool

  /**
   * One run: it decides at `start`, its query sees the updates up to `queriedAt`, it finishes
   * at `finishedAt`. `listed` is the server's answer to the query it sent, `serverCap` the
   * longest page the server returns. `errorsTotal` counts the failed tasks, and `unread` are the
   * issues of which some text was not read because a request for it failed (`Performed`).
   */
  datatype Run = Run(
    config: Config,
    start: Time,
    queriedAt: Time,
    finishedAt: Time,
    cancelled: bool,
    errorsTotal: nat,
    listed: seq<string>,
    serverCap: nat,
    unread: set<string>,
    disk: Disk)
  {
    predicate Succeeds() {
      FinalStatus(cancelled, errorsTotal).Success?
    }

    /** The issues the page loop of an uninterrupted run hands on. */
    function Delivered(): seq<string> {
      Take(Fetcher.Pages(listed, 0, config.pageSize, serverCap), Fetcher.Budget(config.maxIssues, |listed|, |listed|))
    }

    /** The configured query selects the issue, and if it was listed it was delivered and read. */
    predicate Reads(selects: Selects, issue: string) {
      selects(config.jql, issue) && (issue in listed ==> issue in Delivered() && issue !in unread)
    }

    /** No page was cut by the server, no limit was hit, every text was read. */
    predicate Complete() {
      && (config.pageSize <= serverCap || |listed| <= serverCap)
      && (config.maxIssues == 0 || |listed| <= config.maxIssues)
      && (forall i <- listed :: i !in unread)
    }

    /** Complete, and no more than the overlap passed between the query and the finish. */
    predicate Prompt() {
      Complete() && finishedAt - queriedAt <= WINDOW_OVERLAP
    }
  }

  /** A run delivers everything listed exactly when neither the server's page cap nor the limit cuts it. */
  lemma DeliversAllIff(run: Run)
    ensures run.Delivered() == run.listed <==>
              && (run.config.pageSize <= run.serverCap || |run.listed| <= run.serverCap)
              && (run.config.maxIssues == 0 || |run.listed| <= run.config.maxIssues)
  {
    var size, cap := run.config.pageSize, run.serverCap;
    Fetcher.AllDeliveredIff(run.listed, size, cap);
    Fetcher.PagesLength(run.listed, size, cap);
  }

  /** A run, or the checkpoint file lost or damaged between runs. */
  datatype Event = Ran(run: Run) | FileLost

  function FileAfter(h: seq<Event>): Option<Checkpoint> {
    if h == [] then None
    else
      match h[|h| - 1]
      case FileLost => None
      case Ran(run) =>
        FileAfterRun(FileAfter(h[..|h| - 1]), run.config, FinalStatus(run.cancelled, run.errorsTotal), run.finishedAt, run.disk)
  }

  /** The `i`-th event is a successful run. */
  predicate SucceedsAt(h: seq<Event>, i: nat)
    requires i < |h|
  {
    h[i].Ran? && h[i].run.Succeeds()
  }

  /** The lower bound of the `i`-th event's query. */
  function LowerBoundAt(h: seq<Event>, i: nat): Option<Time>
    requires i < |h| && h[i].Ran?
  {
    LowerBound(FileAfter(h[..i]), h[i].run.config, h[i].run.start)
  }

  predicate SameQuery(config: Config, jql: string, jiraUrl: string) {
    Normalized(config.jql) == Normalized(jql) && config.jiraUrl == jiraUrl
  }

  /** The `i`-th event is a successful run on this instance that reads the issue, with `u` inside its window. */
  predicate CoveredBy(h: seq<Event>, i: nat, selects: Selects, jiraUrl: string, issue: string, u: Time)
    requires i < |h|
  {
    && SucceedsAt(h, i)
    && h[i].run.config.jiraUrl == jiraUrl
    && h[i].run.Reads(selects, issue)
    && u <= h[i].run.queriedAt
    && match LowerBoundAt(h, i)
       case None => true
       case Some(lo) => lo <= u
  }

  /** An update of the issue at `u` was inside the window of some successful run that read the issue. */
  ghost predicate Covered(h: seq<Event>, selects: Selects, jiraUrl: string, issue: string, u: Time) {
    exists i | 0 <= i < |h| :: CoveredBy(h, i, selects, jiraUrl, issue, u)
  }

  /** Successful runs whose query compares equal to `jql` select the issue too. */
  ghost predicate Agrees(h: seq<Event>, selects: Selects, jql: string, jiraUrl: string, issue: string) {
    forall i | 0 <= i < |h| && SucceedsAt(h, i) && SameQuery(h[i].run.config, jql, jiraUrl) ::
      selects(h[i].run.config.jql, issue)
  }

  ghost predicate AllPrompt(h: seq<Event>) {
    forall i | 0 <= i < |h| && SucceedsAt(h, i) :: h[i].run.Prompt()
  }

  lemma CoveredEarlier(h: seq<Event>, n: nat, selects: Selects, jiraUrl: string, issue: string, u: Time)
    requires n <= |h| && Covered(h[..n], selects, jiraUrl, issue, u)
    ensures Covered(h, selects, jiraUrl, issue, u)
  {
    var i :| 0 <= i < n && CoveredBy(h[..n], i, selects, jiraUrl, issue, u);
    assert h[..n][..i] == h[..i];
    assert CoveredBy(h, i, selects, jiraUrl, issue, u);
  }

  /** Replaying a history on the state directory leaves the file the history describes. */
  method Replay(h: seq<Event>) returns (dir: StateDir, plans: seq<Option<Plan>>)
    ensures dir.file == FileAfter(h)
    ensures |plans| == |h|
    ensures forall i | 0 <= i < |h| && h[i].Ran? :: plans[i] == Planned(FileAfter(h[..i]), h[i].run.config, h[i].run.start)
  {
    dir := new StateDir();
    plans := [];
    for i := 0 to |h|
      invariant fresh(dir)
      invariant dir.file == FileAfter(h[..i])
      invariant |plans| == i
      invariant forall j | 0 <= j < i && h[j].Ran? :: plans[j] == Planned(FileAfter(h[..j]), h[j].run.config, h[j].run.start)
    {
      assert h[..i + 1][..i] == h[..i];
      match h[i]
      case FileLost =>
        plans := plans + [None];
        dir.file := None;
      case Ran(run) =>
        var plan := dir.PlanIncrementalScan(run.config, run.start);
        plans := plans + [plan];
        var _ := dir.MaybeWriteCheckpoint(run.config, FinalStatus(run.cancelled, run.errorsTotal), run.finishedAt, run.disk);
    }
    assert h[..|h|] == h;
  }

  // ----- no update is lost -----

  /** Only a successful run with the flag moves the baseline, and only to its own finish time and query. */
  lemma BaselineMovesOnSuccess(h: seq<Event>, e: Event)
    requires FileAfter(h + [e]) != FileAfter(h)
    ensures e.Ran? ==> e.run.config.incremental && e.run.Succeeds()
    ensures FileAfter(h + [e]).Some? ==>
              && e.Ran? && e.run.disk == Written
              && FileAfter(h + [e]).value
                 == Checkpoint(CHECKPOINT_VERSION, Some(e.run.finishedAt), e.run.config.jql, e.run.config.jiraUrl, SUCCESS_STATUS)
  {
    assert (h + [e])[..|h|] == h;
  }

  /**
   * Safety: after any history of runs of any queries, successful, partial or failed, with the
   * file lost at any time and successful runs prompt: an update older than the baseline minus
   * the overlap, of an issue that the equal-looking queries of the history select, was inside
   * the window of a successful run that read the issue.
   */
  lemma {:induction false} NoUpdateLost(h: seq<Event>, selects: Selects, jql: string, jiraUrl: string, issue: string, u: Time)
    requires AllPrompt(h) && Agrees(h, selects, jql, jiraUrl, issue)
    requires FileAfter(h).Some? && FileAfter(h).value.finishedAt.Some?
    requires Normalized(FileAfter(h).value.jql) == Normalized(jql) && FileAfter(h).value.jiraUrl == jiraUrl
    requires u <= FileAfter(h).value.finishedAt.value - WINDOW_OVERLAP
    ensures Covered(h, selects, jiraUrl, issue, u)
  {
    var n := |h| - 1;
    assert h != [] && h == h[..n] + [h[n]];
    PrefixAssumptions(h, n, selects, jql, jiraUrl, issue);
    if FileAfter(h) == FileAfter(h[..n]) {
      NoUpdateLost(h[..n], selects, jql, jiraUrl, issue, u);
      CoveredEarlier(h, n, selects, jiraUrl, issue, u);
    } else {
      BaselineMovesOnSuccess(h[..n], h[n]);
      DeliversAllIff(h[n].run);
      var lo := LowerBoundAt(h, n);
      if lo.None? || lo.value <= u {
        assert CoveredBy(h, n, selects, jiraUrl, issue, u);
      } else {
        NoUpdateLost(h[..n], selects, jql, jiraUrl, issue, u);
        CoveredEarlier(h, n, selects, jiraUrl, issue, u);
      }
    }
  }

  lemma PrefixAssumptions(h: seq<Event>, n: nat, selects: Selects, jql: string, jiraUrl: string, issue: string)
    requires n <= |h| && AllPrompt(h) && Agrees(h, selects, jql, jiraUrl, issue)
    ensures AllPrompt(h[..n]) && Agrees(h[..n], selects, jql, jiraUrl, issue)
  {
    assert forall i | 0 <= i < n :: h[..n][i] == h[i] && SucceedsAt(h[..n], i) == SucceedsAt(h, i);
  }

  /** The next run skips nothing: each update is inside its window or was covered before. */
  lemma NextWindowSuffices(h: seq<Event>, selects: Selects, config: Config, now: Time, issue: string, u: Time)
    requires AllPrompt(h) && Agrees(h, selects, config.jql, config.jiraUrl, issue)
    ensures match LowerBound(FileAfter(h), config, now)
            case None => true
            case Some(lo) => lo <= u || Covered(h, selects, config.jiraUrl, issue, u)
  {
    var lo := LowerBound(FileAfter(h), config, now);
    if lo.Some? && u < lo.value {
      NoUpdateLost(h, selects, config.jql, config.jiraUrl, issue, u);
    }
  }

  /** A run without the flag asks for everything and leaves the baseline alone, after any history. */
  lemma FlagOffIsFull(h: seq<Event>, run: Run)
    requires !run.config.incremental
    ensures LowerBound(FileAfter(h), run.config, run.start) == None
    ensures FileAfter(h + [Ran(run)]) == FileAfter(h)
  {
    assert (h + [Ran(run)])[..|h|] == h;
  }

  // ----- what an issue's `updated` field shows -----

  /** An issue matches a window by its last update before the query. */
  predicate Returned(updates: seq<Time>, lo: Option<Time>, queriedAt: Time) {
    match lo
    case None => true
    case Some(l) => exists u | u in updates :: u <= queriedAt && Latest(updates, queriedAt, u) && l <= u
  }

  predicate Latest(updates: seq<Time>, queriedAt: Time, u: Time) {
    forall v | v in updates :: v <= queriedAt ==> v <= u
  }

  lemma {:induction false} LatestExists(updates: seq<Time>, queriedAt: Time, u: Time) returns (last: Time)
    requires u in updates && u <= queriedAt
    ensures last in updates && u <= last <= queriedAt && Latest(updates, queriedAt, last)
    decreases |updates|
  {
    var init, x := updates[..|updates| - 1], updates[|updates| - 1];
    assert updates == init + [x];
    if v :| v in init && v <= queriedAt && u <= v {
      last := LatestExists(init, queriedAt, v);
      if last < x <= queriedAt {
        last := x;
      }
    } else {
      last := x;
      assert x == u;
      forall v | v in updates && v <= queriedAt
        ensures v <= x
      {
        assert v == x || v in init;
      }
    }
  }

  /** The server lists the issues that the query selects and that its window returns. */
  ghost predicate Honest(h: seq<Event>, selects: Selects, updates: string -> seq<Time>, jiraUrl: string) {
    forall i, issue | 0 <= i < |h| && h[i].Ran? && h[i].run.config.jiraUrl == jiraUrl ::
      issue in h[i].run.listed <==>
        selects(h[i].run.config.jql, issue) && Returned(updates(issue), LowerBoundAt(h, i), h[i].run.queriedAt)
  }

  /** On an honest server an update that is covered was delivered to a successful run made after it. */
  lemma CoveredIsFetched(h: seq<Event>, selects: Selects, updates: string -> seq<Time>, jiraUrl: string, issue: string, u: Time)
      returns (i: nat)
    requires Honest(h, selects, updates, jiraUrl) && u in updates(issue)
    requires Covered(h, selects, jiraUrl, issue, u)
    ensures i < |h| && SucceedsAt(h, i) && h[i].run.config.jiraUrl == jiraUrl && u <= h[i].run.queriedAt
    ensures selects(h[i].run.config.jql, issue) && issue in h[i].run.Delivered() && issue !in h[i].run.unread
  {
    i :| 0 <= i < |h| && CoveredBy(h, i, selects, jiraUrl, issue, u);
    var _ := LatestExists(updates(issue), h[i].run.queriedAt, u);
    assert Returned(updates(issue), LowerBoundAt(h, i), h[i].run.queriedAt);
  }

  /**
   * Every selected issue with an update older than the baseline minus the overlap was delivered
   * to, and read by, a successful run after that update, however often it was updated again.
   */
  lemma IssueWasFetched(h: seq<Event>, selects: Selects, updates: string -> seq<Time>, issue: string, u: Time)
      returns (i: nat)
    requires FileAfter(h).Some? && FileAfter(h).value.finishedAt.Some?
    requires AllPrompt(h) && Agrees(h, selects, FileAfter(h).value.jql, FileAfter(h).value.jiraUrl, issue)
    requires Honest(h, selects, updates, FileAfter(h).value.jiraUrl) && u in updates(issue)
    requires u <= FileAfter(h).value.finishedAt.value - WINDOW_OVERLAP
    ensures i < |h| && SucceedsAt(h, i) && h[i].run.config.jiraUrl == FileAfter(h).value.jiraUrl
    ensures u <= h[i].run.queriedAt && selects(h[i].run.config.jql, issue)
    ensures issue in h[i].run.Delivered() && issue !in h[i].run.unread
  {
    var cp := FileAfter(h).value;
    NoUpdateLost(h, selects, cp.jql, cp.jiraUrl, issue, u);
    i := CoveredIsFetched(h, selects, updates, cp.jiraUrl, issue, u);
  }

  // ----- exactly when nothing is lost -----

  /**
   * Runs with the flag whose queries compare equal, on one instance, in time order, from no
   * checkpoint: any of them may be cancelled, fail, be cut short or be slow.
   */
  ghost predicate Routine(h: seq<Event>, jql: string, jiraUrl: string) {
    && (forall i | 0 <= i < |h| :: h[i].Ran? && RoutineRun(h[i].run, jql, jiraUrl))
    && (forall i, j | 0 <= i < j < |h| :: h[i].run.finishedAt <= h[j].run.start)
  }

  predicate RoutineRun(run: Run, jql: string, jiraUrl: string) {
    && run.config.incremental && SameQuery(run.config, jql, jiraUrl)
    && (run.Succeeds() ==> run.disk == Written)
    && run.start <= run.queriedAt <= run.finishedAt
  }

  /** Where the window after this run starts, if it succeeds. */
  function NextBound(run: Run): Time {
    FloorMinute(run.finishedAt - WINDOW_OVERLAP)
  }

  /** The last successful run before `n`. */
  function LastSuccess(h: seq<Event>, n: nat): (r: Option<nat>)
    requires n <= |h|
    ensures r.Some? ==> r.value < n && SucceedsAt(h, r.value)
    ensures forall i | 0 <= i < n && SucceedsAt(h, i) :: r.Some? && i <= r.value
  {
    if n == 0 then None else if SucceedsAt(h, n - 1) then Some(n - 1) else LastSuccess(h, n - 1)
  }

  lemma {:induction false} RoutineFile(h: seq<Event>, jql: string, jiraUrl: string, n: nat)
    requires Routine(h, jql, jiraUrl) && n <= |h|
    ensures FileAfter(h[..n]) ==
              match LastSuccess(h, n)
              case None => None
              case Some(l) => Some(Checkpoint(CHECKPOINT_VERSION, Some(h[l].run.finishedAt), h[l].run.config.jql,
                                              h[l].run.config.jiraUrl, SUCCESS_STATUS))
    decreases n
  {
    if n > 0 {
      RoutineFile(h, jql, jiraUrl, n - 1);
      assert h[..n][..n - 1] == h[..n - 1];
    }
  }

  /** In routine use each run asks from the finish of the last successful run before it, minus the overlap. */
  lemma RoutineBound(h: seq<Event>, jql: string, jiraUrl: string, i: nat)
    requires Routine(h, jql, jiraUrl) && i < |h|
    ensures LowerBoundAt(h, i) ==
              match LastSuccess(h, i) case None => None case Some(l) => Some(NextBound(h[l].run))
  {
    RoutineFile(h, jql, jiraUrl, i);
  }

  lemma FloorMonotone(a: Time, b: Time)
    requires a <= b
    ensures FloorMinute(a) <= FloorMinute(b)
  {
  }

  lemma BoundsMonotone(h: seq<Event>, jql: string, jiraUrl: string, i: nat, j: nat)
    requires Routine(h, jql, jiraUrl) && i <= j < |h|
    ensures NextBound(h[i].run) <= NextBound(h[j].run)
  {
    assert i < j ==> h[i].run.finishedAt <= h[j].run.start;
    FloorMonotone(h[i].run.finishedAt - WINDOW_OVERLAP, h[j].run.finishedAt - WINDOW_OVERLAP);
  }

  /** Once a later window starts after `u`, no later run contains it. */
  lemma NotCoveredLater(h: seq<Event>, jql: string, jiraUrl: string, selects: Selects, issue: string, u: Time, g: nat, i: nat)
    requires Routine(h, jql, jiraUrl) && g < i < |h| && SucceedsAt(h, g) && u < NextBound(h[g].run)
    ensures !CoveredBy(h, i, selects, jiraUrl, issue, u)
  {
    RoutineBound(h, jql, jiraUrl, i);
    BoundsMonotone(h, jql, jiraUrl, g, LastSuccess(h, i).value);
  }

  /** Run `j` is successful, reads the issue, and its query saw the update. */
  predicate SawIt(h: seq<Event>, selects: Selects, issue: string, j: nat, u: Time)
    requires j < |h|
  {
    SucceedsAt(h, j) && h[j].run.Reads(selects, issue) && u <= h[j].run.queriedAt
  }

  /** Run `i` is the first successful one after which the windows start past `u`. */
  ghost predicate Passes(h: seq<Event>, i: nat, u: Time) {
    && i < |h| && SucceedsAt(h, i) && u < NextBound(h[i].run)
    && forall l | 0 <= l < i && SucceedsAt(h, l) :: NextBound(h[l].run) <= u
  }

  /** Some run from the first to `i` saw it. */
  ghost predicate SeenBy(h: seq<Event>, selects: Selects, issue: string, i: nat, u: Time)
    requires i < |h|
  {
    exists j | 0 <= j <= i :: SawIt(h, selects, issue, j, u)
  }

  /** An update is covered exactly when some run, up to the first whose successors ask past it, saw it. */
  lemma CoveredIff(h: seq<Event>, jql: string, jiraUrl: string, selects: Selects, issue: string, u: Time, i: nat)
    requires Routine(h, jql, jiraUrl) && Passes(h, i, u)
    ensures Covered(h, selects, jiraUrl, issue, u) <==> SeenBy(h, selects, issue, i, u)
  {
    if k :| 0 <= k < |h| && CoveredBy(h, k, selects, jiraUrl, issue, u) {
      if k > i {
        NotCoveredLater(h, jql, jiraUrl, selects, issue, u, i, k);
      }
      assert SawIt(h, selects, issue, k, u);
    }
    if j :| 0 <= j <= i && SawIt(h, selects, issue, j, u) {
      RoutineBound(h, jql, jiraUrl, j);
      assert CoveredBy(h, j, selects, jiraUrl, issue, u);
    }
  }

  lemma {:induction false} FirstPast(h: seq<Event>, u: Time, n: nat) returns (i: nat)
    requires n < |h| && SucceedsAt(h, n) && u < NextBound(h[n].run)
    ensures i <= n && Passes(h, i, u)
    decreases n
  {
    if l :| 0 <= l < n && SucceedsAt(h, l) && u < NextBound(h[l].run) {
      i := FirstPast(h, u, l);
    } else {
      i := n;
    }
  }

  /** Up to the last instant before the window after run `i`, some run from the first to `i` saw the issue. */
  ghost predicate Bridged(h: seq<Event>, selects: Selects, issue: string, i: nat)
    requires i < |h| && h[i].Ran?
  {
    SeenBy(h, selects, issue, i, NextBound(h[i].run) - 1)
  }

  /**
   * In routine use, with runs cancelled, failed, slow, cut short or of a reformatted query: every
   * update of an issue below the next window is covered if and only if for every successful run
   * some successful run, no later than it, reads the issue and queried late enough to reach the
   * window that follows.
   */
  lemma NothingLostIff(h: seq<Event>, jql: string, jiraUrl: string, selects: Selects, issue: string, last: nat)
    requires Routine(h, jql, jiraUrl) && LastSuccess(h, |h|) == Some(last)
    ensures (forall u: Time | u < NextBound(h[last].run) :: Covered(h, selects, jiraUrl, issue, u))
            <==> forall i | 0 <= i < |h| && SucceedsAt(h, i) :: Bridged(h, selects, issue, i)
  {
    if forall i | 0 <= i < |h| && SucceedsAt(h, i) :: Bridged(h, selects, issue, i) {
      forall u: Time | u < NextBound(h[last].run)
        ensures Covered(h, selects, jiraUrl, issue, u)
      {
        var i := FirstPast(h, u, last);
        var j :| 0 <= j <= i && SawIt(h, selects, issue, j, NextBound(h[i].run) - 1);
        assert SawIt(h, selects, issue, j, u);
        CoveredIff(h, jql, jiraUrl, selects, issue, u, i);
      }
    }
    if forall u: Time | u < NextBound(h[last].run) :: Covered(h, selects, jiraUrl, issue, u) {
      forall i | 0 <= i < |h| && SucceedsAt(h, i)
        ensures Bridged(h, selects, issue, i)
      {
        BridgeNeeded(h, jql, jiraUrl, selects, issue, i, last);
      }
    }
  }

  lemma BridgeNeeded(h: seq<Event>, jql: string, jiraUrl: string, selects: Selects, issue: string, i: nat, last: nat)
    requires Routine(h, jql, jiraUrl) && i <= last < |h| && SucceedsAt(h, i)
    requires forall u: Time | u < NextBound(h[last].run) :: Covered(h, selects, jiraUrl, issue, u)
    ensures Bridged(h, selects, issue, i)
  {
    var u := NextBound(h[i].run) - 1;
    BoundsMonotone(h, jql, jiraUrl, i, last);
    assert Covered(h, selects, jiraUrl, issue, u);
    var k :| 0 <= k < |h| && CoveredBy(h, k, selects, jiraUrl, issue, u);
    if k > i {
      NotCoveredLater(h, jql, jiraUrl, selects, issue, u, i, k);
    }
    assert SawIt(h, selects, issue, k, u);
  }

  /** The window after a prompt run reaches back to its query: nothing lies between the two. */
  lemma PromptIsGapless(run: Run)
    requires run.Prompt()
    ensures NextBound(run) <= run.queriedAt + 1
  {
  }

  /** Prompt runs that all select the issue lose nothing of it. */
  lemma PromptRunsLoseNothing(h: seq<Event>, jql: string, jiraUrl: string, selects: Selects, issue: string, last: nat, u: Time)
    requires Routine(h, jql, jiraUrl) && LastSuccess(h, |h|) == Some(last) && AllPrompt(h)
    requires forall i | 0 <= i < |h| && SucceedsAt(h, i) :: selects(h[i].run.config.jql, issue)
    requires u < NextBound(h[last].run)
    ensures Covered(h, selects, jiraUrl, issue, u)
  {
    forall i | 0 <= i < |h| && SucceedsAt(h, i)
      ensures Bridged(h, selects, issue, i)
    {
      PromptIsGapless(h[i].run);
      DeliversAllIff(h[i].run);
      assert SawIt(h, selects, issue, i, NextBound(h[i].run) - 1);
    }
    NothingLostIff(h, jql, jiraUrl, selects, issue, last);
  }

  // ----- what loses updates -----

  /** Successful runs lie further apart than the overlap: no query reaches the window after a later run. */
  ghost predicate Spaced(h: seq<Event>) {
    forall i, j | 0 <= i < j < |h| && SucceedsAt(h, i) && SucceedsAt(h, j) ::
      h[i].run.queriedAt + 1 < NextBound(h[j].run)
  }

  /**
   * Exactly when a change of the query's text loses an update: with prompt runs apart from each
   * other, the next run of `jql` has all of its issues covered below its window if and only if
   * every text run before, though it compares equal, selects all of them.
   */
  lemma QueryChangeLosesNothingIff(h: seq<Event>, jql: string, jiraUrl: string, selects: Selects, last: nat)
    requires Routine(h, jql, jiraUrl) && LastSuccess(h, |h|) == Some(last) && AllPrompt(h) && Spaced(h)
    ensures (forall issue, u: Time | selects(jql, issue) && u < NextBound(h[last].run) ::
               Covered(h, selects, jiraUrl, issue, u))
            <==> forall i, issue | 0 <= i < |h| && SucceedsAt(h, i) && selects(jql, issue) ::
                   selects(h[i].run.config.jql, issue)
  {
    if forall i, issue | 0 <= i < |h| && SucceedsAt(h, i) && selects(jql, issue) :: selects(h[i].run.config.jql, issue) {
      forall issue, u: Time | selects(jql, issue) && u < NextBound(h[last].run)
        ensures Covered(h, selects, jiraUrl, issue, u)
      {
        PromptRunsLoseNothing(h, jql, jiraUrl, selects, issue, last, u);
      }
    }
    if forall issue, u: Time | selects(jql, issue) && u < NextBound(h[last].run) :: Covered(h, selects, jiraUrl, issue, u) {
      forall i, issue | 0 <= i < |h| && SucceedsAt(h, i) && selects(jql, issue)
        ensures selects(h[i].run.config.jql, issue)
      {
        BridgeNeeded(h, jql, jiraUrl, selects, issue, i, last);
        var j :| 0 <= j <= i && SawIt(h, selects, issue, j, NextBound(h[i].run) - 1);
        assert j == i;
      }
    }
  }

  /** A successful run that does not read an issue loses its updates from every window before and after. */
  lemma SkippedIssueIsLost(h: seq<Event>, jql: string, jiraUrl: string, selects: Selects, issue: string, g: nat, u: Time)
    requires Routine(h, jql, jiraUrl) && g < |h| && SucceedsAt(h, g)
    requires !h[g].run.Reads(selects, issue) || h[g].run.queriedAt < u
    requires forall j | 0 <= j < g && SucceedsAt(h, j) :: h[j].run.queriedAt < u
    requires u < NextBound(h[g].run)
    ensures !Covered(h, selects, jiraUrl, issue, u)
  {
    forall i | 0 <= i < |h|
      ensures !CoveredBy(h, i, selects, jiraUrl, issue, u)
    {
      if i > g {
        NotCoveredLater(h, jql, jiraUrl, selects, issue, u, g, i);
      }
    }
  }

  /** The issue limit: an issue listed past it is lost by a run that counts as successful. */
  lemma LimitLosesIssue(h: seq<Event>, jql: string, jiraUrl: string, selects: Selects, issue: string, g: nat, u: Time)
    requires Routine(h, jql, jiraUrl) && g < |h|
    requires var run := h[g].run;
             && !run.cancelled && run.errorsTotal == 0
             && run.config.pageSize <= run.serverCap && 0 < run.config.maxIssues < |run.listed|
             && issue in run.listed && issue !in run.listed[..run.config.maxIssues]
             && u < NextBound(run)
    requires forall j | 0 <= j < g && SucceedsAt(h, j) :: h[j].run.queriedAt < u
    ensures !Covered(h, selects, jiraUrl, issue, u)
  {
    var run := h[g].run;
    Fetcher.LimitDeliversPrefix(run.listed, run.config.pageSize, run.serverCap, run.config.maxIssues, |run.listed|);
    assert run.Delivered() == run.listed[..run.config.maxIssues];
    SkippedIssueIsLost(h, jql, jiraUrl, selects, issue, g, u);
  }

  /** The run's books come from the tasks of the issues it delivered: these data, and these panics. */
  ghost predicate Performed(run: Run, settings: IssueTask.Settings, data: string -> IssueTask.IssueData, panics: set<string>) {
    && run.errorsTotal == Pipeline.TallyOf(IssueTask.Tasks(settings, data, panics, run.Delivered())).failed
    && (forall i <- run.Delivered() :: i in run.unread <==> IssueTask.Unread(settings, data(i)))
  }

  /** A run that is not cancelled succeeds exactly when no task panics: failed requests do not count. */
  lemma SucceedsIff(run: Run, settings: IssueTask.Settings, data: string -> IssueTask.IssueData, panics: set<string>)
    requires Performed(run, settings, data, panics)
    ensures run.Succeeds() <==> !run.cancelled && forall i <- run.Delivered() :: i !in panics
  {
    IssueTask.ErrorsArePanics(settings, data, panics, run.Delivered());
  }

  /**
   * A failed comment or attachment request: the issue's task still returns its outcome, the run
   * still counts as successful and moves the baseline, and the issue is lost.
   */
  lemma UnreadLosesIssue(h: seq<Event>, jql: string, jiraUrl: string, selects: Selects, issue: string, g: nat, u: Time,
                         settings: IssueTask.Settings, data: string -> IssueTask.IssueData, panics: set<string>)
    requires Routine(h, jql, jiraUrl) && g < |h| && u < NextBound(h[g].run)
    requires Performed(h[g].run, settings, data, panics)
    requires !h[g].run.cancelled && (forall i <- h[g].run.Delivered() :: i !in panics)
    requires issue in h[g].run.listed && IssueTask.Unread(settings, data(issue))
    requires forall j | 0 <= j < g && SucceedsAt(h, j) :: h[j].run.queriedAt < u
    ensures SucceedsAt(h, g) && !Covered(h, selects, jiraUrl, issue, u)
  {
    SucceedsIff(h[g].run, settings, data, panics);
    SkippedIssueIsLost(h, jql, jiraUrl, selects, issue, g, u);
  }

  /** A run of `jql` at instant zero whose query lists these issues. */
  function FirstRun(jql: string, listed: seq<string>, maxIssues: nat): Run {
    Run(Config(true, jql, "j", 50, maxIssues), 0, 0, WINDOW_OVERLAP, false, 0, listed, 50, {}, Written)
  }

  /** Such an input: two issues, a limit of one; the second is not covered by any routine continuation. */
  lemma LimitLosesIssueExample(h: seq<Event>, first: string, second: string, u: Time)
    requires first != second
    requires h != [] && h[0] == Ran(FirstRun("q", [first, second], 1)) && Routine(h, "q", "j") && u < 0
    ensures FileAfter([h[0]]).Some?
    ensures !Covered(h, (q, i) => true, "j", second, u)
  {
    var listed := [first, second];
    assert listed[..1] == [first] && listed[1] == second;
    LimitLosesIssue(h, "q", "j", (q, i) => true, second, 0, u);
  }

  /**
   * Two texts that compare equal, and an issue that only the second selects: after a prompt run
   * of the first, the run of the second is narrowed, and the issue's older updates are in no
   * window, then or in any routine continuation.
   */
  lemma OtherTextLosesIssue(h: seq<Event>, a: string, b: string, listed: seq<string>, selects: Selects, issue: string,
                            now: Time, u: Time)
    requires Normalized(a) == Normalized(b) && selects(b, issue) && !selects(a, issue)
    requires h != [] && h[0] == Ran(FirstRun(a, listed, 0)) && Routine(h, b, "j")
    requires now >= WINDOW_OVERLAP && u < 0
    ensures FirstRun(a, listed, 0).Prompt()
    ensures LowerBound(FileAfter([h[0]]), FirstRun(b, listed, 0).config, now) == Some(0)
    ensures !Covered(h, selects, "j", issue, u)
  {
    assert [h[0]][..0] == [];
    SkippedIssueIsLost(h, b, "j", selects, issue, 0, u);
  }

  /** Such texts: a quoted value that changed by one space. */
  lemma QuotedQueryLosesIssue(h: seq<Event>, listed: seq<string>, selects: Selects, issue: string, now: Time, u: Time)
    requires selects("t~'a  b'", issue) && !selects("t~'a b'", issue)
    requires h != [] && h[0] == Ran(FirstRun("t~'a b'", listed, 0)) && Routine(h, "t~'a  b'", "j")
    requires now >= WINDOW_OVERLAP && u < 0
    ensures LowerBound(FileAfter([h[0]]), FirstRun("t~'a  b'", listed, 0).config, now) == Some(0)
    ensures !Covered(h, selects, "j", issue, u)
  {
    QuotedSpacesCollide();
    OtherTextLosesIssue(h, "t~'a b'", "t~'a  b'", listed, selects, issue, now, u);
  }
}
