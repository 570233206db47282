/**
 * The incremental baseline (src/checkpoint.rs): one run decides from the checkpoint file which
 * updates it may leave out of its query, and a successful run moves the checkpoint.
 */
module Checkpoint {
  import opened Wrappers
  import opened Findings
  import opened Jql

  /** Instants count nanoseconds. */
  const SECOND: nat := 1_000_000_000
  const MINUTE: nat := 60 * SECOND
  const WINDOW_OVERLAP: nat := 5 * MINUTE

  const CHECKPOINT_VERSION: nat := 2
  const SUCCESS_STATUS := "success"

  /** `finishedAt` is absent when the text in the file is not an RFC 3339 instant. */
  datatype Checkpoint = Checkpoint(
    version: nat,
    finishedAt: Option<Time>,
    jql: string,
    jiraUrl: string,
    status: string)

  /** `maxIssues` zero is no limit. */
  datatype Config = Config(incremental: bool, jql: string, jiraUrl: string, pageSize: Positive, maxIssues: nat)

  type Positive = n: nat | 0 < n witness 1

  datatype Reason = OtherVersion | NotSuccessful | OtherJql | OtherInstance | NotATimestamp | InTheFuture

  datatype Plan = Plan(finishedAt: Time, since: Time)

  datatype ScanStatus = Success | Failed | Partial

  /** The status of a finished scan (src/pipeline.rs): nothing else enters it. */
  function FinalStatus(cancelled: bool, errorsTotal: nat): ScanStatus {
    if cancelled || errorsTotal > 0 then Partial else ScanStatus.Success
  }

  // ----- the decision -----

  function WindowStart(cp: Checkpoint, jql: string, jiraUrl: string, now: Time): (r: Result<Time, Reason>)
    ensures r.Success? <==>
              && cp.version == CHECKPOINT_VERSION
              && cp.status == SUCCESS_STATUS
              && Normalized(cp.jql) == Normalized(jql)
              && cp.jiraUrl == jiraUrl
              && cp.finishedAt.Some?
              && cp.finishedAt.value <= now
    ensures r.Success? ==> r.value + WINDOW_OVERLAP == cp.finishedAt.value
  {
    if cp.version != CHECKPOINT_VERSION then Failure(OtherVersion)
    else if cp.status != SUCCESS_STATUS then Failure(NotSuccessful)
    else if Normalized(cp.jql) != Normalized(jql) then Failure(OtherJql)
    else if cp.jiraUrl != jiraUrl then Failure(OtherInstance)
    else if cp.finishedAt.None? then Failure(NotATimestamp)
    else if cp.finishedAt.value > now then Failure(InTheFuture)
    else Result.Success(cp.finishedAt.value - WINDOW_OVERLAP)
  }

  /** The JQL timestamp has no seconds: it names the minute that contains the instant. */
  function FloorMinute(t: Time): (m: Time)
    ensures m <= t < m + MINUTE && m % MINUTE == 0
  {
    t - t % MINUTE
  }

  /** A checkpoint of a successful run of the same words, on the same instance, that lies in the past. */
  predicate Trusted(cp: Checkpoint, config: Config, now: Time) {
    && cp.version == CHECKPOINT_VERSION
    && cp.status == SUCCESS_STATUS
    && Words(cp.jql) == Words(config.jql)
    && cp.jiraUrl == config.jiraUrl
    && cp.finishedAt.Some? && cp.finishedAt.value <= now
  }

  /** `None` runs the configured query unchanged. */
  function Planned(file: Option<Checkpoint>, config: Config, now: Time): (plan: Option<Plan>)
    ensures plan.Some? <==> config.incremental && file.Some? && Trusted(file.value, config, now)
    ensures plan.Some? ==>
              && plan.value.finishedAt == file.value.finishedAt.value
              && plan.value.since == file.value.finishedAt.value - WINDOW_OVERLAP
  {
    if !config.incremental || file.None? then None
    else
      SameQueryIffSameWords(file.value.jql, config.jql);
      match WindowStart(file.value, config.jql, config.jiraUrl, now)
      case Failure(_) => None
      case Success(since) => Some(Plan(since + WINDOW_OVERLAP, since))
  }

  /** The first instant the query asks for; `None` when it asks for everything. */
  function LowerBound(file: Option<Checkpoint>, config: Config, now: Time): Option<Time> {
    match Planned(file, config, now)
    case None => None
    case Some(plan) => Some(FloorMinute(plan.since))
  }

  /** What became of writing the file: a failed write may keep the old file or leave an unreadable one. */
  datatype Disk = Written | Kept | Damaged

  function FileAfterRun(file: Option<Checkpoint>, config: Config, status: ScanStatus, finishedAt: Time, disk: Disk)
    : Option<Checkpoint>
  {
    if !config.incremental || !status.Success? then file
    else
      match disk
      case Written => Some(Checkpoint(CHECKPOINT_VERSION, Some(finishedAt), config.jql, config.jiraUrl, SUCCESS_STATUS))
      case Kept => file
      case Damaged => None
  }

  /** The state directory. An absent, unreadable or unparsable file is `None`. */
  class StateDir {
    var file: Option<Checkpoint>

    constructor ()
      ensures file == None
    {
      file := None;
    }

    method PlanIncrementalScan(config: Config, now: Time) returns (plan: Option<Plan>)
      ensures plan == Planned(file, config, now)
      ensures plan.Some? <==> config.incremental && file.Some? && Trusted(file.value, config, now)
      ensures plan.Some? ==>
                && plan.value.finishedAt == file.value.finishedAt.value
                && plan.value.since == file.value.finishedAt.value - WINDOW_OVERLAP
    {
      if !config.incremental {
        return None;
      }
      if file.None? {
        return None;
      }
      var start := WindowStart(file.value, config.jql, config.jiraUrl, now);
      match start
      case Success(since) => plan := Some(Plan(since + WINDOW_OVERLAP, since));
      case Failure(_) => plan := None;
    }

    method MaybeWriteCheckpoint(config: Config, status: ScanStatus, finishedAt: Time, disk: Disk) returns (ok: bool)
      modifies this
      ensures file == FileAfterRun(old(file), config, status, finishedAt, disk)
      ensures !config.incremental || !status.Success? || disk == Kept ==> file == old(file)
      ensures config.incremental && status.Success? && disk == Damaged ==> file == None
      ensures config.incremental && status.Success? && disk == Written ==>
                file == Some(Checkpoint(CHECKPOINT_VERSION, Some(finishedAt), config.jql, config.jiraUrl, SUCCESS_STATUS))
      ensures !ok <==> config.incremental && status.Success? && disk != Written
    {
      if !config.incremental {
        return true;
      }
      if !status.Success? {
        return true;
      }
      ok := WriteCheckpoint(config, finishedAt, disk);
    }

    method WriteCheckpoint(config: Config, finishedAt: Time, disk: Disk) returns (ok: bool)
      modifies this
      ensures file == FileAfterRun(old(file), config.(incremental := true), ScanStatus.Success, finishedAt, disk)
      ensures ok <==> disk == Written
    {
      match disk {
        case Written =>
          file := Some(Checkpoint(CHECKPOINT_VERSION, Some(finishedAt), config.jql, config.jiraUrl, SUCCESS_STATUS));
        case Kept =>
        case Damaged =>
          file := None;
      }
      ok := disk == Written;
    }
  }
}
