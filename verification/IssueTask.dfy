/**
 * One issue's task (`process_issue` in src/pipeline.rs): which texts it reads, and what becomes
 * of a request that fails.
 */
module IssueTask {
  import AttachmentText
  import Attachments
  import Comments
  import opened Findings
  import Pipeline
  import opened Wrappers

  datatype Settings = Settings(readComments: bool, policy: Attachments.Policy)

  /** The texts that come with the payload's own. */
  datatype Texts = Texts(comments: seq<Comments.Labelled<string>>, attachments: seq<Attachments.Segment<char>>)

  /** What the scanning loop makes of them: findings, and the number of comment bodies. */
  datatype Detected = Detected(findings: seq<Finding>, comments: nat)

  /**
   * An issue as its task meets it: the comments in its payload, the server that has the others,
   * its attachments, and what scanning its texts, with the payload's other fields, detects.
   */
  datatype IssueData = IssueData(
    payload: Option<Comments.Payload<string>>,
    server: Comments.Server<string>,
    attachments: Option<seq<Attachments.Entry<char>>>,
    detect: Texts -> Detected)
  {
    function Entries(): seq<Attachments.Entry<char>> {
      if attachments.Some? then attachments.value else []
    }
  }

  function CommentsRead(settings: Settings, data: IssueData): seq<Comments.Labelled<string>> {
    if settings.readComments then Comments.Gathered(data.server, data.payload) else Comments.FirstPage(data.payload)
  }

  function TextsOf(settings: Settings, data: IssueData): Texts {
    Texts(CommentsRead(settings, data), Attachments.Collected(settings.policy, data.Entries()).segments)
  }

  function OutcomeOf(settings: Settings, data: IssueData): Pipeline.Outcome {
    var found := data.detect(TextsOf(settings, data));
    Pipeline.Scanned(found.findings, found.comments, Attachments.Collected(settings.policy, data.Entries()).outcome.scanned)
  }

  /** The task. A failed request leaves its texts out and is not an error of the task. */
  method ProcessIssue(settings: Settings, data: IssueData) returns (outcome: Pipeline.Outcome)
    requires data.server.Honest()
    ensures outcome == OutcomeOf(settings, data)
  {
    var comments := Comments.FirstPage(data.payload);
    if settings.readComments {
      comments := Comments.IssueComments(data.server, data.payload);
    }
    var segments, counts, _, _ := Attachments.CollectSegments(settings.policy, data.attachments);
    var found := data.detect(Texts(comments, segments));
    outcome := Pipeline.Scanned(found.findings, found.comments, counts.scanned);
  }

  // ----- what a failed request loses -----

  /** Comments past the payload are asked for, and a request for them fails. */
  predicate CommentsLost(settings: Settings, data: IssueData) {
    var (total, offset) := Comments.CommentPaging(data.payload);
    settings.readComments && total > offset && data.server.FailsWithin(offset, Comments.MAX_COMMENT_PAGES)
  }

  /** An attachment entry is malformed, or its download fails. */
  predicate AttachmentLost(settings: Settings, data: IssueData) {
    Attachments.Collected(settings.policy, data.Entries()).outcome.failed > 0
  }

  /** Some text of the issue was not read because asking for it failed. */
  predicate Unread(settings: Settings, data: IssueData) {
    CommentsLost(settings, data) || AttachmentLost(settings, data)
  }

  /**
   * After a failed comment request nothing past the payload is seen: issues that differ only in
   * those comments have the same outcome, and it is the outcome of the issue without them.
   */
  lemma LostCommentsUnseen(settings: Settings, data: IssueData, other: Comments.Server<string>)
    requires CommentsLost(settings, data) && CommentsLost(settings, data.(server := other))
    ensures OutcomeOf(settings, data) == OutcomeOf(settings, data.(server := other))
    ensures OutcomeOf(settings, data) == OutcomeOf(settings, data.(payload := Some(data.payload.value.(total := 0))))
  {
    var alone := data.(payload := Some(data.payload.value.(total := 0)));
    assert Comments.FirstPage(alone.payload) == Comments.FirstPage(data.payload);
    assert CommentsRead(settings, alone) == CommentsRead(settings, data) == CommentsRead(settings, data.(server := other));
    assert alone.Entries() == data.Entries();
  }

  // ----- what is read when nothing fails -----

  /**
   * A thread whose start is in the payload and whose rest fits the page limit, full pages, and
   * attachments that all arrive within the limits: the task sees every comment of the thread once
   * and under its own number, and every text attachment whole; its outcome is what those texts
   * detect.
   */
  lemma EveryTextIsRead(settings: Settings, data: IssueData)
    requires settings.readComments && data.payload.Some?
    requires var payload, s := data.payload.value, data.server;
             && s.Honest() && Comments.Full(s) && Comments.TrueTo(payload, s.thread) && payload.startAt == 0
             && (forall at: nat :: !s.fails(at))
             && |s.thread| - |payload.comments| <= Comments.MAX_COMMENT_PAGES * Comments.COMMENTS_PAGE_SIZE
    requires settings.policy.enabled && forall e <- data.Entries() :: AttachmentText.Served(settings.policy, e)
    requires var wanted := AttachmentText.Wanted(settings.policy, data.Entries());
             |wanted| <= settings.policy.maxAttachments && Attachments.TotalBytes(wanted) < settings.policy.maxBytesPerIssue
    ensures var texts := Texts(Comments.Numbered(data.server.thread, 0), AttachmentText.Wanted(settings.policy, data.Entries()));
            && OutcomeOf(settings, data).findings == data.detect(texts).findings
            && OutcomeOf(settings, data).comments == data.detect(texts).comments
            && OutcomeOf(settings, data).attachments == |texts.attachments|
    ensures !CommentsLost(settings, data)
    ensures AttachmentLost(settings, data) ==> AttachmentText.MalformedCount(data.Entries()) > 0
  {
    Comments.EveryCommentScanned(data.server, data.payload.value);
    Comments.NeverFails(data.server, |data.payload.value.comments|, Comments.MAX_COMMENT_PAGES);
    AttachmentText.EveryAttachmentRead(settings.policy, data.Entries());
  }

  /** Without comment fetching, or when it fails, exactly the payload's comments are seen, numbered from zero. */
  lemma OnlyPayloadIsRead(settings: Settings, data: IssueData)
    requires !settings.readComments || CommentsLost(settings, data)
    ensures TextsOf(settings, data).comments
            == if data.payload.None? then [] else Comments.Numbered(data.payload.value.comments, 0)
  {
  }

  // ----- the tasks of a scan -----

  /** One issue's task: a panic is the one way in which it fails. */
  function TaskOf(settings: Settings, data: IssueData, panics: bool, key: string): (task: Pipeline.Issue)
    ensures task.outcome.Failed? <==> panics
  {
    Pipeline.Issue(key, if panics then Pipeline.Failed else OutcomeOf(settings, data))
  }

  function Tasks(settings: Settings, data: string -> IssueData, panics: set<string>, issues: seq<string>): seq<Pipeline.Issue> {
    if issues == [] then []
    else
      var key := issues[|issues| - 1];
      Tasks(settings, data, panics, issues[..|issues| - 1]) + [TaskOf(settings, data(key), key in panics, key)]
  }

  lemma OneMoreTask(before: seq<Pipeline.Issue>, task: Pipeline.Issue)
    ensures Pipeline.TallyOf(before + [task]).failed
            == Pipeline.TallyOf(before).failed + if task.outcome.Failed? then 1 else 0
  {
    Pipeline.CollectedStep(before, task);
  }

  /** Errors are counted exactly when a task panicked, whatever requests failed. */
  lemma {:induction false} ErrorsArePanics(settings: Settings, data: string -> IssueData, panics: set<string>, issues: seq<string>)
    ensures Pipeline.TallyOf(Tasks(settings, data, panics, issues)).failed == 0 <==> forall i <- issues :: i !in panics
  {
    if issues != [] {
      var n := |issues| - 1;
      var init, key := issues[..n], issues[n];
      ErrorsArePanics(settings, data, panics, init);
      assert issues == init + [key];
      OneMoreTask(Tasks(settings, data, panics, init), TaskOf(settings, data(key), key in panics, key));
    }
  }
}
