# Verification of the jiraleaks core

Jiraleaks scans Jira for leaked secrets. This Dafny project models the algorithms and state
machines between fetching an issue and reporting a finding, and proves what they promise.
`dafny verify dfyconfig.toml` checks all of it.

| module | models |
|---|---|
| `Findings`, `Dedup` | identities of findings, merging of duplicates |
| `Pipeline`, `IssueTask` | the streaming loop with its task set and counters, over every interleaving; one issue's task |
| `Store`, `StoreHistory`, `StoreReport`, `ScanToStore` | reconciliation with the findings table; the table as a function of its history; the report against the table; which rows a scan closes |
| `Checkpoint`, `CheckpointHistory`, `Jql` | the incremental baseline; what any sequence of runs covers and loses; normalising and narrowing the query |
| `Fetcher`, `Comments`, `Attachments`, `AttachmentText` | the bounded fetch loops against arbitrary servers; which bytes are scanned |
| `Text`, `Redact`, `RedactMany`, `RedactPlaces` | UTF-8 text by bytes; masking of one secret and of many in snippets; what stays |
| `Chars`, `Sanitize`, `SanitizeGrammar` | stripping of terminal escape sequences; the grammar it reads; CSV cells |
| `CredPair`, `CredPairReport` | the credential-pair detector; the pairs it reports |
| `Crc32`, `GithubToken`, `Base64` | checksums and encoders |
| `RuleScan`, `RuleSets` | the scan cursor of one rule; the hits of many |
| `Paths`, `PathClasses`, `Allowlist` | field paths and their classes, suppression |
| `Sequences`, `Wrappers` | notions of sequences; optional values and results |

Code that works by updating fields or looping is modelled as classes and methods, each proved
against a specification function; the properties are then lemmas about that function, and what an
operation returns is also stated without naming that function. What lies
outside the modelled code (regular expressions, servers, disks, clocks, task scheduling, the
transaction's commit) is a parameter or an open choice, so the theorems hold for all of it.

## Where code and documentation disagree

The model follows the code. Where a promise fails, the exact condition under which it holds is
proved, for all the inputs that the theorem names.

- `redact_snippet` promises that its result never contains the value (src/redact.rs:109). It can:
  the value `x[` in `xxx[` with span 2..4 forms again from the text before the marker and the
  marker's bracket. `Redact.SingleSecretAbsent` gives the exact condition.
- `redact_snippet_with` promises the same of all the values it is given (src/redact.rs:131). The
  marker of one secret can hold another: masking `aws` in the snippet `r` together with the secret
  `r` of a rule `aws` returns a text with `aws` in it (`Redact.MarkerBringsSecretBack`).
  `RedactMany.AllAbsentIff` gives the exact condition, a computation on the secrets alone.
- The report's `times_seen` is meant to be the sum over a finding's rows (src/store.rs:465-483). A
  finding with two locations in one issue that already has a row adds that row's past twice, and
  deduplication makes such a finding of every secret that occurs in two fields of one issue
  (`StoreReport.ReportedTimesAgree`, `StoreReport.RepeatedLocationOvercounts`).
- The search loop advances by the page size it asked for (src/fetcher.rs:121), while the comment
  loop's own comment explains why that loses entries when Jira caps `maxResults`
  (src/jira/client.rs:180-182). `Fetcher.AllDeliveredIff` says exactly when nothing is lost.
- The checkpoint is said to keep an update from being lost (src/checkpoint.rs:21-23), and a run
  that did not reach everything is said not to move the baseline (src/checkpoint.rs:319-320). A
  run longer than the overlap, one cut short by the issue limit and one with a failed comment or
  attachment request all count as successful (src/pipeline.rs:285-289, src/pipeline.rs:476-480).
  `CheckpointHistory.NothingLostIff` says exactly when an issue's updates are covered all the
  same; `LimitLosesIssueExample` is an input.
- `normalize_jql` is said to tell different queries apart (src/checkpoint.rs:294-296); it
  collapses spaces inside quoted values too. `CheckpointHistory.QueryChangeLosesNothingIff` says
  when that loses an update, `QuotedQueryLosesIssue` is an input.
- A configured `ORDER BY` ends up inside the parentheses of a narrowed query, which is then no JQL
  (src/checkpoint.rs:271-278): `Jql.NarrowingMeans`.
- `MAX_ATTACHMENTS_PER_ISSUE` is called a cap on requests (src/attachments.rs:103-108); it caps
  attachments scanned, and failed downloads are not counted. `Attachments.RequestsCappedIff` says
  for which lists it is a cap on requests as well.
- The warning about unscanned comments can be given although every comment was read
  (src/jira/client.rs:189-196): exactly as `Comments.FalseWarningIff` says.
- A zero-width match is skipped only at the cursor; one further on becomes a hit
  (src/rules.rs:289-295). An empty match need not have an empty value, nor the other way round,
  because the value can be a capture group (src/rules.rs:300-314). `RuleScan.EmptyReportedIff` and
  `RuleScan.RuleReportsEmptyIff` say for each of the two when it is reported.
- `match_span` is documented as the byte range of the value (src/rules.rs:112); the code stores
  the whole match. `RuleScan.MatchSpanIsValueSpanIff` says when the two agree.
- The separator of a fingerprint "cannot occur in any of the three components"
  (src/finding.rs:245-247); nothing keeps it out of a rule id. `Findings.RuleSetIsSafeIff` says
  for which rule sets keys then collide.
- The comment on the token checksum says base 36 (src/validators.rs:69-71); the code uses base 62.
- A finding absent from a re-scanned issue is marked closed, and rows of other issues are never
  falsely closed (README.md:482-485). An issue counts as scanned before its task runs
  (src/pipeline.rs:167): when the task fails, or a text of the issue cannot be fetched, the rows of
  what it did not read are closed too. `ScanToStore.ClosesIff` says exactly which rows close.
- A live validation is joined to a closed finding only when a current finding has the same hash
  (src/store.rs:418-455, src/store.rs:541): `StoreReport.CommitIsReported`.

## Model

| member | source | states |
|---|---|---|
| Findings.Finding.EffectiveLocations | src/finding.rs:342-352 | never empty: the explicit locations, or only the finding's own issue when there are none |
| Findings.Finding.LocationKeys | src/finding.rs:322-331 | one key per effective location, in order, with that location's issue |
| Findings.FingerprintInputInjective | src/finding.rs:254-264 | two keys hash the same text iff they are the same key, provided hash and rule id hold no unit separator; issue keys are unrestricted |
| Findings.RuleSetIsSafeIff | src/finding.rs:242-264 | for digests, which have one length: no two keys of a rule set hash the same text iff no rule id of the set starts with another one and a separator |
| Findings.ShadowCollides | src/finding.rs:245-247 | for any such pair of rule ids and any issue key, an issue key with which the other rule collides |
| Findings.MergeTextInjective | src/finding.rs:286-290 | merge texts of digests of one length are equal iff the merge keys are |
| Dedup.Deduplicator.InsertFinding | src/dedup.rs:32-50 | the map and the vector stay consistent; the new vector is one `Insert` of the old; the index returned holds the finding's merge text |
| Dedup.Deduplicator.MergedLocations | src/dedup.rs:36-42 | the push loop is the order-keeping union of locations |
| Dedup.Deduplicator.InsertFindings | src/pipeline.rs:205-209 | a whole scan's findings, filed one by one, are `InsertAll` of them |
| Dedup.InsertAllTexts | src/dedup.rs:32-50 | after deduplication the merge texts are distinct and exactly those that came in |
| Dedup.InsertAllLocated | src/dedup.rs:32-50 | a location is kept under a merge text iff it came in under it: none lost, none invented, none moved |
| Dedup.OrderIndependent | src/dedup.rs:32-55 | two arrival orders of the same findings give as many merged findings, the same texts and the same locations under each |
| Dedup.FirstArrivalKept | src/dedup.rs:35-48 | each merged finding is the first arrival under its text, all other fields unchanged, its locations extended at the end |
| Pipeline.ScanProgress.FinishIssue | src/progress.rs:82-90 | one more issue done, its findings added, nothing else |
| Pipeline.ScanProgress.FinishIssueError | src/progress.rs:109-116 | a failed issue counts as done and as an error, nothing else |
| Pipeline.ScanProgress.RecordComments | src/progress.rs:94-96 | adds to the comment counter only |
| Pipeline.ScanProgress.RecordAttachments | src/progress.rs:100-103 | adds to the attachment counter only |
| Pipeline.ScanLoop.CollectOne | src/pipeline.rs:393-422 | any one running task is taken out and booked; false iff none is left; the loop invariant (at most 2 x concurrency in flight, no task lost or booked twice, every counter equal to its total) is kept |
| Pipeline.ScanLoop.Record | src/pipeline.rs:402-420 | what one outcome adds to findings, errors and each counter |
| Pipeline.ScanLoop.Receive | src/pipeline.rs:152-185 | an issue gets a task only once a slot is free; the invariant is kept |
| Pipeline.ScanLoop.Drain | src/pipeline.rs:187-195 | afterwards nothing runs, and nothing was spawned meanwhile |
| Pipeline.Scan | src/pipeline.rs:145-210 | in every interleaving: issues done = tasks spawned, errors counted = errors total = failed tasks, findings, comments and attachments counted = the sums over the issues taken, all independent of the order of completion; an error of the fetch task ends the scan after the drain without a report, otherwise the result is the deduplication of the findings in that order; the scanned keys are those of the issues taken before the cancellation |
| Pipeline.RunTasks | src/pipeline.rs:152-195 | after receiving and draining, exactly the issues taken before the cancellation were spawned and none is left running |
| Pipeline.TotalsIgnoreOrder | src/pipeline.rs:393-422 | all totals and the multiset of findings are the same for every completion order |
| Pipeline.TallyIsSums | src/pipeline.rs:402-420 | errors, comments and attachments are the sums of those of the outcomes, each column its own |
| Pipeline.ReportIgnoresCompletionOrder | src/pipeline.rs:205-209 | so are the merged findings: their number, their texts, the locations under each |
| Pipeline.ScanFeedsStore | src/pipeline.rs:205-252 | what is handed to the store has distinct merge keys and only locations in scanned issues, which is what the store's report relies on |
| Store.FindingsStore.Reconcile | src/store.rs:240-547 | a committed call leaves exactly the reconciled table and returns the enriched findings followed by one closed finding per row it closes; an uncommitted one fails and changes nothing |
| Store.FindingsStore.CloseRows | src/store.rs:316-339 | the given rows are closed, stamped with time and scan, all others untouched |
| Store.FindingsStore.UpsertRows | src/store.rs:372-416 | the upserts happen in order: insert as new, or reopen as recurring with first_seen kept and times_seen one higher |
| Store.ExpandCurrent | src/store.rs:249-277 | one row per finding and effective location, in order |
| Store.SumHistory | src/store.rs:465-491 | the wrapping sum and the minimum over a finding's rows |
| Store.EnrichCurrent | src/store.rs:461-509 | each finding gets status, first_seen, times_seen and the live validation joined on its hash |
| Store.EnrichOne | src/store.rs:464-508 | one finding with status, first_seen, times_seen and validation set from its rows |
| Store.ReportClosed | src/store.rs:511-544 | one closed finding per closed row, rebuilt from the row as it was read, each once |
| Store.CounterIsWrappedTotal | src/store.rs:466-482 | the 32-bit accumulation equals the true sum modulo 2^32 |
| StoreHistory.ReconciledAt | src/store.rs:279-416 | the whole effect of one call on the row of one key, by whether it was stored, scanned and reported |
| StoreHistory.PromiseStep | src/store.rs:279-416 | extending a history by one call extends the promised row as the program extends the table |
| StoreHistory.TableIsHistory | src/store.rs:279-416 | after any sequence of committed and failed calls from an empty table, every row equals a function of the sightings and misses of its key |
| StoreHistory.ClosingIsFirstMiss | src/store.rs:325-339 | the closing call that function uses is exactly the first miss after the last sighting |
| StoreHistory.RowForEverySighting | src/store.rs:372-416 | a key has a row iff some committed call reported it: rows are never deleted |
| StoreHistory.RowCounts | src/store.rs:374-390 | first_seen is the time of the first call that reported the key, times_seen the number of locations reported with it over all calls, the content that of the last |
| StoreHistory.RowStatus | src/store.rs:316-390 | closed iff a call closes it, with closed_at, last_seen and the scan id kept from that call; closed_at is set iff closed; `new` only if seen once, `recurring` only if more often |
| StoreHistory.ClosedIffLastTouchMissed | src/store.rs:314-339 | a row is closed iff the last call that scanned its issue or reported it did not report it |
| StoreHistory.UntouchedUnchanged | src/store.rs:285-339 | a call that neither scans a row's issue nor reports its key leaves the row as it was |
| StoreReport.ReportedTimesAgree | src/store.rs:464-483 | the reported number of sightings is never below the stored one, and equals it iff no issue holding the finding twice already had a row for it |
| StoreReport.ReportedCounter | src/store.rs:466-499 | under that condition the published times_seen is the stored sum, in 32 bits |
| StoreReport.RepeatedLocationOvercounts | src/store.rs:472-483 | a secret detected in two fields of one issue, deduplicated, whose row was seen n times before: the report says 2n + 2 where the row says n + 2 |
| StoreReport.ReportedFirstSeenAgrees | src/store.rs:484-498 | reported first_seen is the earliest first_seen of the finding's rows after the commit |
| StoreReport.EarliestIsMinimum | src/store.rs:484-492 | the accumulated earliest time is a lower bound that some row attains |
| StoreReport.RowsPredateNextScan | src/store.rs:493-497 | over consecutive scans every row was first seen before any later scan started |
| StoreReport.RecurringIffKnown | src/store.rs:493-497 | so a finding is reported recurring iff one of its rows existed before the call, and new iff none did |
| StoreReport.ClosedFindingsAreFlips | src/store.rs:511-544 | closed findings stand for exactly the rows this call turned from open to closed; no finding still reported carries that status; a row closed earlier is untouched |
| StoreReport.HistoryInOwnIssue | src/store.rs:249-277 | every sighting a row keeps lies in the issue of the row's key |
| StoreReport.ClosedFindingIsItsRow | src/store.rs:517-542 | a closed finding owns exactly its row, was detected at the row's last sighting, and carries the content, first_seen and times_seen the row still has after the commit |
| StoreReport.CommitIsReported | src/store.rs:418-547 | the list a committed call returns: every current finding first, unchanged but for status, history and validation and never closed; then one finding with status closed for each row that was open before and is closed after, and no other, with its key, its row's fields and the validation of its hash if a current finding has that hash |
| ScanToStore.ReportedIffFound | src/pipeline.rs:205-252 | a scan reports a row iff the task of its issue found that secret by that rule, however the tasks were interleaved and the findings merged |
| ScanToStore.ClosesIff | src/pipeline.rs:152-185 | a scan closes exactly the open rows of the issues it took whose tasks did not find that secret by that rule |
| ScanToStore.FailedTaskClosesRows | src/pipeline.rs:167-252 | so an issue whose task failed, which counts as scanned, has all its open rows closed |
| ScanToStore.ReportedRowIsStored | src/store.rs:249-277 | after a committed call a reported row holds the fields of a current finding and one of its places, in the issue of its key, with this call's stamps |
| Checkpoint.WindowStart | src/checkpoint.rs:164-218 | a window is granted iff version, status, normalised query, instance, timestamp and clock all agree, and it starts one overlap before the finish |
| Checkpoint.FloorMinute | src/checkpoint.rs:284-290 | the JQL timestamp never lies after the instant and less than a minute before it: the window only widens |
| Checkpoint.StateDir.PlanIncrementalScan | src/checkpoint.rs:228-261 | a plan is made iff the flag is set, a file is present, and its version, status, words of the query, instance and timestamp agree with this run and its clock; the window starts one overlap before the finish; otherwise the full query runs |
| Checkpoint.StateDir.MaybeWriteCheckpoint | src/checkpoint.rs:321-333 | the file changes only for a successful run with the flag, to its finish time and configured query or, when the write breaks, to nothing readable; an error is returned iff such a run could not write it |
| Checkpoint.StateDir.WriteCheckpoint | src/checkpoint.rs:339-365 | the file holds this run's finish time and configured query; a failed write leaves the old file or an unreadable one |
| CheckpointHistory.Replay | src/checkpoint.rs:228-333 | running the two operations over any history leaves the file, and takes the decisions, that the history describes |
| CheckpointHistory.DeliversAllIff | src/fetcher.rs:87-127 | a run hands on everything its query listed iff neither the server's page cap nor the issue limit cuts it |
| CheckpointHistory.BaselineMovesOnSuccess | src/checkpoint.rs:318-333 | after any history only a successful run with the flag moves the baseline, and to its own finish time and query; a partial or failed one never does |
| CheckpointHistory.FlagOffIsFull | src/checkpoint.rs:228-231 | after any history a run without the flag has no lower bound and leaves the baseline alone |
| CheckpointHistory.NoUpdateLost | src/checkpoint.rs:164-218 | over any sequence of successful, partial and failed runs of any queries, with the file lost at any time and successful runs complete and no slower than the overlap: every update older than the baseline minus the overlap, of an issue that the runs whose queries compare equal really select, was inside the window of a successful run that selects, delivers and reads that issue |
| CheckpointHistory.NextWindowSuffices | src/checkpoint.rs:228-261 | under the same proviso whatever a run leaves out of its query was covered by an earlier successful run |
| CheckpointHistory.CoveredIsFetched | src/checkpoint.rs:19-23 | if servers list what the query selects and the window returns, by an issue's last update before the query, then an update that is covered was delivered to and read by a successful run after it, however often the issue was updated again |
| CheckpointHistory.IssueWasFetched | src/checkpoint.rs:19-23 | so every selected issue with an update older than the baseline minus the overlap was |
| CheckpointHistory.CoveredIff | src/checkpoint.rs:57-65 | an update is covered iff some run, up to the first whose successors ask past it, saw it |
| CheckpointHistory.NothingLostIff | src/checkpoint.rs:57-65 | with runs cancelled, failed, slow, cut short or of a reformatted query: every update of an issue below the next window is covered iff for each successful run one no later reads the issue and queried late enough to reach the window that follows |
| CheckpointHistory.PromptRunsLoseNothing | src/checkpoint.rs:57-65 | so complete runs no slower than the overlap lose nothing of an issue they all select |
| CheckpointHistory.QueryChangeLosesNothingIff | src/checkpoint.rs:292-299 | with prompt runs apart from each other, nothing the next text selects is lost iff each text run before, though it compares equal, selects it too |
| CheckpointHistory.SkippedIssueIsLost | src/pipeline.rs:285-289 | an issue that a successful run does not read, or queries too early, keeps an update that no window, earlier or later, ever contains |
| CheckpointHistory.LimitLosesIssue | src/pipeline.rs:285-289 | in particular one listed past the issue limit, by a run that is successful because nothing was cancelled and no task failed |
| CheckpointHistory.LimitLosesIssueExample | src/fetcher.rs:111-122 | such a run: two issues, a limit of one, and any continuation |
| CheckpointHistory.SucceedsIff | src/pipeline.rs:285-289 | a run whose books come from its tasks succeeds iff it is not cancelled and no task panics |
| CheckpointHistory.UnreadLosesIssue | src/pipeline.rs:476-480 | in particular one a request of whose comments or attachments failed: its task still returns its outcome, the run is successful, and the issue is lost |
| IssueTask.ProcessIssue | src/pipeline.rs:431-503 | the texts of an issue: its payload's comments, the fetched ones unless fetching them failed, and the attachments downloaded; the outcome is what scanning them detects, never an error |
| IssueTask.EveryTextIsRead | src/pipeline.rs:442-503 | for a thread within the page limit and attachments that arrive within the limits, the outcome is what every comment of the thread, once and under its number, and every wanted attachment, whole and in order, detect |
| IssueTask.OnlyPayloadIsRead | src/pipeline.rs:446-482 | with comment fetching off, or failed, exactly the payload's comments are seen |
| IssueTask.LostCommentsUnseen | src/pipeline.rs:476-480 | after a failed comment request the outcome is that of an issue without further comments, whatever those are |
| IssueTask.ErrorsArePanics | src/pipeline.rs:393-422 | the error total of a scan is zero iff no task panicked, whatever requests failed |
| CheckpointHistory.OtherTextLosesIssue | src/checkpoint.rs:180-186 | after a prompt run of one text, an equal-looking text is narrowed, and what only it selects is in no window, then or later |
| CheckpointHistory.QuotedQueryLosesIssue | src/checkpoint.rs:292-299 | such texts: a quoted value that changed by one space |
| Jql.SameQueryIffSameWords | src/checkpoint.rs:297-299 | two queries compare equal iff they have the same words; normalising twice is normalising once |
| Jql.WordsAreRuns | src/checkpoint.rs:297-299 | any whitespace ends a word and is skipped before one |
| Jql.QuotedSpacesCollide | src/checkpoint.rs:292-299 | spaces inside a quoted value are collapsed too: two different texts compare equal; what that loses is `CheckpointHistory.QuotedQueryLosesIssue` |
| Jql.NarrowingMeans | src/checkpoint.rs:271-278 | for every query that parses, with `NOT` and an order clause: the narrowed query parses iff the configured one has no order clause, and then selects exactly the issues the query selects that lie in the window |
| Jql.ParenthesesNeeded | src/checkpoint.rs:30-33 | without the parentheses an issue outside the window still matches |
| Fetcher.SendPage | src/fetcher.rs:107-119 | a page's issues are sent in order up to the budget |
| Fetcher.FetchPage | src/fetcher.rs:97-123 | one turn keeps: sent and still to come make up all pages, or the budget is used up |
| Fetcher.FetchIssues | src/fetcher.rs:87-127 | what is sent is the pages' content cut at the limit, the cancellation or the consumer's end; the count is its length; the shown total is the smaller of total and limit |
| Fetcher.PagesAreKept | src/fetcher.rs:121 | issue by issue: a match is delivered iff its place inside its requested page is below the server's cap |
| Fetcher.AllDeliveredIff | src/fetcher.rs:120-126 | every match is delivered iff the server returns pages as long as requested, or one page holds them all |
| Fetcher.LimitDeliversPrefix | src/fetcher.rs:111-122 | with full pages a limit delivers the first matches |
| Comments.GetCommentsAfter | src/jira/client.rs:157-198 | at most 40 requests; an error iff a request fails; otherwise the slice of the thread from the offset to where reading stopped, without gap or repeat, against any server |
| Comments.FailsWithinIff | src/jira/client.rs:166-173 | reading fails iff one of the requests it makes fails |
| Comments.CompleteIsWholeTail | src/jira/client.rs:174-187 | reading that ends by itself has read the whole tail |
| Comments.WarnsIffPartial | src/jira/client.rs:189-196 | when pages state the total, the warning is given iff comments are missing |
| Comments.FalseWarningIff | src/jira/client.rs:189-196 | for every server: everything was read and the warning is given all the same iff the last page permitted ends the thread without stating a total |
| Comments.FalseWarningOfFullPagesIff | src/jira/client.rs:174-196 | with full pages: iff the rest of the thread ends on that page, between (n-1) x 50 and n x 50 comments, and it states no total |
| Comments.WholeTailIff | src/jira/client.rs:166-187 | with full pages the whole tail is read iff it fits 40 pages of 50 |
| Comments.IssueComments | src/pipeline.rs:446-482 | the payload's comments, then the fetched ones numbered from the offset; a failed fetch keeps the payload's |
| Comments.GatheredAt | src/pipeline.rs:449-468 | which comment of the thread the k-th one is, and the number it is reported under |
| Comments.LabelsDistinct | src/pipeline.rs:455-468 | no two comments share a path, whatever the payload starts at |
| Comments.LabelsArePositionsIff | src/pipeline.rs:673-693 | every number is the comment's place in its thread iff the payload starts at 0 or is empty |
| Comments.EveryCommentScanned | src/pipeline.rs:446-468 | a thread of at most 2000 comments beyond the payload is scanned completely, each comment once and in place |
| Attachments.DownloadAttachment | src/jira/client.rs:219-266 | however the stream is chunked: the first `maxBytes` bytes, marked truncated iff there were more; refused when the declared length is larger; an error only if reading fails before the limit |
| Attachments.ChunkingIrrelevant | src/jira/client.rs:242-263 | two chunkings of the same bytes download the same |
| Attachments.CollectSegments | src/attachments.rs:281-400 | the loop computes the fold of its step over the entries, stopping at the count limit |
| Attachments.BooksBalance | src/attachments.rs:287-399 | segments = scanned <= limit; scanned + skipped + failed = examined; budget + bytes downloaded = the issue's limit = bytes in segments; entries are left unexamined only at the count limit |
| Attachments.SegmentsDrawnFromEntries | src/attachments.rs:363-381 | segments come from entries in order, one each, and hold the start of that attachment's data |
| AttachmentText.SegmentsAreCuts | src/attachments.rs:358-385 | each segment is exactly the first bytes of its entry's data, as many as the limit for one attachment and the bytes the segments before it left of the issue's limit allow |
| AttachmentText.EveryAttachmentRead | src/attachments.rs:281-400 | when downloads succeed and no limit is reached, the segments are the names and whole data of all text attachments of the instance within the size limit, in order |
| AttachmentText.FailedAre | src/attachments.rs:311-398 | of the entries examined, the first ones, those counted as failed are the malformed ones and the requests that brought nothing |
| Attachments.CutOnlyAtALimit | src/attachments.rs:358-371 | a segment is shorter than its attachment only at a byte limit, and is marked so; a cut by the issue's budget uses it up |
| Attachments.NoRequestWithoutBudget | src/attachments.rs:348-356 | once the budget is used up nothing more is requested |
| Attachments.RequestsCappedIff | src/attachments.rs:103-108 | against every server, the requests for one issue stay within the limit documented as a cap on them iff no more attachments than that are text, of the instance and small enough, a test on the list alone, or the policy permits no request at all |
| Attachments.RequestsWithinCount | src/attachments.rs:315-356 | requests never exceed the number of such attachments |
| Attachments.FailuresAreNotCapped | src/attachments.rs:103-108 | and reach it when every request fails, whatever the limit |
| Attachments.RequestBound | src/attachments.rs:302-309 | requests stay within the count limit plus the failures |
| Redact.MarkerFor | src/redact.rs:40-52 | a marker never contains the value it replaces |
| Redact.ClampSpan | src/redact.rs:68-78 | a usable span is widened to whole characters inside the snippet; an aligned one is kept; an inverted or outside one is refused |
| Redact.EnforceAbsent | src/redact.rs:93-101 | skipping absent values changes nothing: the loop is the plain sweep |
| Redact.RedactWith | src/redact.rs:132-156 | the reassigned text is the masked span swept by the other secrets, then by all of them |
| Redact.ReplaceRemoves | src/redact.rs:55-60 | replacing a value that cannot re-form at a seam removes every occurrence |
| Redact.SingleSecretAbsent | src/redact.rs:103-120 | the result never contains the value, for all snippets and spans, iff the value cannot re-form across its own marker |
| Redact.BracketFreeAbsent | src/redact.rs:40-52 | a value without brackets re-forms in exactly one case: two or more characters that occur both in `[REDACTED]` and in the rule's marker, so that the marker is empty |
| Redact.ValueReformsAcrossMarker | src/redact.rs:103-120 | a concrete snippet in which the "never contains" contract fails |
| Redact.SweepRemoves | src/redact.rs:93-101 | each later sweep keeps an earlier secret absent if it is inert against the later markers |
| Redact.AllSecretsAbsent | src/redact.rs:122-156 | if no secret has a bracket and none occurs in a rule marker of the call, the result contains none of them |
| RedactMany.AllAbsentIff | src/redact.rs:122-156 | exactly, for secrets without brackets that leave a marker: no snippet and no span ever leave one of them in the result iff masking one snippet, made of the secrets alone, leaves none |
| RedactMany.LeakDecided | src/redact.rs:122-156 | a secret left in the result for any snippet is left in the result for that one |
| Redact.MarkerBringsSecretBack | src/redact.rs:131 | a call whose result contains the primary secret: the marker of a later secret brings it back |
| Redact.SpanKeepsContext | src/redact.rs:103-120 | an exact span is replaced in place, its context kept |
| Redact.ContextIsKept | src/redact.rs:132-156 | with any number of other secrets that do not occur, an exact span is replaced in place and its context kept |
| RedactPlaces.EveryPlaceMasked | src/redact.rs:132-156 | with any number of other secrets in any places: when the first character of each value stands at its own places only, each place becomes that secret's marker and everything else stays |
| Sanitize.CharStream.SkipCsiBody | src/sanitize.rs:178-194 | consumes a CSI body of at most 64 characters, stopping before a control character |
| Sanitize.CharStream.SkipStringBody | src/sanitize.rs:202-224 | consumes a payload of at most 8192 characters with its terminator, stopping before a newline |
| Sanitize.CharStream.SkipSequence | src/sanitize.rs:140-172 | consumes what an ESC introduces |
| Sanitize.CharStream.NextRound | src/sanitize.rs:83-105 | takes one character and the sequence it introduces |
| Sanitize.Sanitized | src/sanitize.rs:77-137 | the lazily materialised buffer is the eager filter, and the text is borrowed iff nothing is dropped |
| Sanitize.LineByLine | src/sanitize.rs:77-126 | stripping is a line homomorphism for all texts, however sequences are opened, cut short or over-long |
| Sanitize.NewlinesConserved | src/sanitize.rs:202-217 | terminal mode keeps the number of line breaks |
| Sanitize.Subsequent | src/sanitize.rs:77-126 | the output is a subsequence of the input |
| Sanitize.OnlyKeptSurvives | src/sanitize.rs:39-40 | no control character survives except newline and tab in terminal mode |
| Sanitize.Idempotent | src/sanitize.rs:44-67 | stripping twice is stripping once, in both modes |
| Sanitize.CsvIsTerminalWithoutWhitespace | src/sanitize.rs:107-115 | CSV text is terminal text without its newlines and tabs |
| Sanitize.PayloadDropped | src/sanitize.rs:196-201 | an unterminated payload is dropped up to the budget, and only its part past the budget is looked at again |
| SanitizeGrammar.CsiRemoved | src/sanitize.rs:178-194 | a CSI sequence, `ESC [` or U+009B, fewer than 64 body characters and a final character in 0x40..0x7e, disappears |
| SanitizeGrammar.CsiBroken | src/sanitize.rs:184-188 | one that a control character breaks off loses its body; the control character is looked at again |
| SanitizeGrammar.CsiOverlong | src/sanitize.rs:178-194 | an over-long one loses its first 64 body characters, and what follows them stays |
| SanitizeGrammar.CsiUnfinished | src/sanitize.rs:178-194 | one that the text ends in disappears |
| SanitizeGrammar.StringEndsAtBell | src/sanitize.rs:202-208 | an OSC, DCS, SOS, PM or APC sequence, opened by ESC or by one 8-bit character, disappears up to and with BEL |
| SanitizeGrammar.StringEndsAtEsc | src/sanitize.rs:209-215 | or up to and with `ESC \`; another ESC ends it alone |
| SanitizeGrammar.StringEndsAtNewline | src/sanitize.rs:217 | or up to a line break, which is looked at again |
| SanitizeGrammar.StringOverlong | src/sanitize.rs:202-224 | an over-long one loses its first 8192 payload characters, and what follows them stays |
| SanitizeGrammar.StringUnfinished | src/sanitize.rs:221 | one that the text ends in disappears |
| SanitizeGrammar.EscapeRemoved | src/sanitize.rs:151-169 | ESC, up to 64 intermediates 0x20..0x2f and a final character 0x30..0x7e disappear |
| SanitizeGrammar.EscapeBroken | src/sanitize.rs:151-169 | without a final character ESC and the intermediates disappear, and what follows them is looked at again |
| SanitizeGrammar.CharacterAlone | src/sanitize.rs:107-126 | a character that introduces nothing is kept iff it is no control character, or a newline or tab in terminal mode |
| SanitizeGrammar.StripReadsItems | src/sanitize.rs:77-172 | of a text made of characters and complete sequences exactly the kept characters are left, in order |
| SanitizeGrammar.CellIsQuotedIff | src/sanitize.rs:59-67 | a cell is the stripped text, behind an apostrophe iff its first character that is no whitespace is `=`, `+`, `-` or `@` |
| Sanitize.CsvFieldSafe | src/sanitize.rs:59-67 | a cell never starts a formula, holds no control character, and is stable |
| CredPair.HitList.PushHit | src/credpair.rs:142-162 | pushes unless the budget is used up, and says which |
| CredPair.HitList.DetectUrlUserinfo | src/credpair.rs:210-245 | appends the URL hits, cut at the budget |
| CredPair.HitList.DetectProximity | src/credpair.rs:247-301 | appends exactly the nested filter's pairs in its order, cut at the budget; the two cursors advance at most twice the number of usernames in all |
| CredPair.MoveCursors | src/credpair.rs:276-287 | both cursors only move forward, to exactly the window of the password |
| CredPair.WindowIsFilter | src/credpair.rs:289-299 | cursors that bracket the window select what the distance filter selects |
| CredPair.HitList.PushWindow | src/credpair.rs:289-299 | pushes the window's usernames and reports when the budget runs out |
| CredPair.HitList.DetectJson | src/credpair.rs:303-347 | appends the distinct alias pairs, cut at the budget |
| CredPair.HitList.PushUser | src/credpair.rs:329-345 | one username's password aliases, without repeating a pair |
| CredPair.Head | src/credpair.rs:351-361 | the longest prefix within the limit that ends on a character boundary |
| CredPair.SortSorts | src/credpair.rs:257-260 | sorting by position permutes and orders |
| CredPair.SortUnique | src/credpair.rs:259-260 | with distinct positions the sorted order, and so the report, is determined |
| CredPair.CapOnce | src/credpair.rs:149-151 | a cap applied by each phase to the shared vector is one cap on the concatenation |
| CredPair.Detect | src/credpair.rs:181-208 | the first 256 of URL hits, proximity hits and JSON hits of the inspected head taken without the cap, although each phase stops on its own; nothing when the patterns do not compile |
| CredPairReport.UncappedIsPairs | src/credpair.rs:181-208 | without the cap exactly these pairs are hits: the user and the password of a URL, a username and a password at most 200 bytes apart, non-empty strings under a username key and a password key of the JSON object; never a placeholder password |
| CredPairReport.PhasesInOrder | src/credpair.rs:196-206 | URL hits come before proximity hits, and those before JSON hits |
| CredPairReport.ReportIsPairs | src/credpair.rs:181-208 | so every reported hit is such a pair, and up to 256 hits every such pair is reported |
| CredPair.ProximitySound | src/credpair.rs:262-300 | every proximity hit is a username within 200 bytes of a password that is no placeholder |
| CredPair.ProximityComplete | src/credpair.rs:262-300 | every such pair is a proximity hit |
| CredPair.JsonPairsMeaning | src/credpair.rs:315-346 | the JSON pairs are, each once, exactly those of a non-empty username alias and a non-empty password alias that is no placeholder |
| Crc32.BuildTable | src/validators.rs:72-89 | entry i of the table is the register after the eight shifts of i |
| Crc32.ComputeCrc32 | src/validators.rs:72-96 | the table-driven loop computes the byte-wise register |
| Crc32.TableDrivenIsBitSerial | src/validators.rs:72-96 | which is the bit-serial reflected CRC-32 of IEEE 802.3, section 3.2.9, for every byte string |
| Crc32.CheckValue | src/validators.rs:72-96 | the checksum of `123456789` is CBF43926, the published check value |
| Crc32.FeedInjective | src/validators.rs:91-94 | feeding the same bytes keeps different registers different |
| Crc32.BurstDetected | src/validators.rs:72-96 | any change confined to at most four consecutive bytes changes the checksum |
| GithubToken.ToBase62Padded | src/validators.rs:98-113 | for a value below 62^width, exactly `width` base-62 digits of it |
| GithubToken.FixedDigitsInjective | src/validators.rs:98-113 | at a fixed width different values have different digits |
| GithubToken.DigitsReadBack | src/validators.rs:98-113 | reading the digits in base 62, `0-9A-Za-z`, gives the value back |
| GithubToken.OnlyTheseDigits | src/validators.rs:98-113 | and no other digits of that number do |
| GithubToken.NumberFits | src/validators.rs:137-139 | every 32-bit number has at most six base-62 digits, so the checksum has exactly six |
| GithubToken.ValidateGithubToken | src/validators.rs:125-140 | the verdict by prefix, length and checksum; the program panics when the cut falls inside a multi-byte character |
| GithubToken.ChecksumInjective | src/validators.rs:138-139 | checksum texts are equal iff the CRCs are |
| GithubToken.AcceptsExactly | src/validators.rs:115-140 | accepted iff the text is a prefix, a non-empty body and the checksum of that body |
| GithubToken.AcceptedIffToken | src/validators.rs:115-140 | accepted iff `gh`, one of p, o, u, s, r, w, an underscore, a non-empty body and six digits that read as the CRC-32 of the body |
| GithubToken.ChangedBodyRejected | src/validators.rs:138-139 | changing one body byte, or up to four consecutive ones, of an accepted token makes it rejected |
| GithubToken.ChecksumTextUnique | src/validators.rs:138-139 | one body has one accepted checksum text |
| Base64.Encode | src/jira/client.rs:380-403 | the loop over three-byte chunks computes the encoding |
| Base64.EncodeTriple | src/jira/client.rs:385-400 | cutting sextets out of the packed 24 bits gives the four characters of a chunk |
| Base64.ChunkIsItsNumber | src/jira/client.rs:385-400 | the four symbols of a chunk, read in base 64, are its bytes, read in base 256 |
| Base64.Examples | src/jira/client.rs:380-403 | the encodings of `f`, `fo`, `foo` and `bar` in RFC 4648, section 10 |
| Base64.MoreExamples | src/jira/client.rs:380-403 | `foobar`, and a group that encodes as `++//` |
| Base64.RoundTrip | src/jira/client.rs:380-403 | a strict decoder for RFC 4648, section 4, inverts the encoder on every byte string |
| Base64.OnlyEncodingsDecode | src/jira/client.rs:380-403 | that decoder accepts nothing but encodings |
| Base64.Shape | src/jira/client.rs:383-400 | four characters for every three bytes begun, `=` exactly in the last places |
| RuleScan.HitsAreWellCut | src/rules.rs:329-345 | the value is the text at its span, the snippet is `context_window` of that span with radius 50 (src/candidate.rs), and the value is where the hit says |
| RuleScan.MatchSpanIsValueSpanIff | src/rules.rs:112-113 | the stored match span is the value's own span iff no capture group took part or it spans the whole match |
| RuleScan.Scan | src/rules.rs:277-364 | all rules' hits, rule by rule; the loop terminates for any engine that answers inside the text |
| RuleSets.EveryRuleReports | src/rules.rs:277-364 | a hit is reported as often as the rules, each alone, report it: no rule is left out or stopped by another |
| RuleSets.HitsConcat | src/rules.rs:277-364 | two lists of rules report what the first reports and then what the second does |
| RuleSets.HitsOfOne | src/rules.rs:280-360 | one rule reports its takes that pass the filters, in text order |
| RuleSets.HitsByRule | src/rules.rs:277-364 | with distinct rule ids the hits that carry a rule's id are exactly that rule's, in text order |
| RuleSets.HitTells | src/rules.rs:283-345 | a hit tells where the engine matched, the value of the group or of the match, and 50 bytes around it in whole characters |
| RuleScan.ScanRule | src/rules.rs:280-360 | the cursor loop computes the rule's hits |
| RuleScan.Look | src/rules.rs:283-314 | the match after the cursor, with the capture group's span when the rule names one that took part |
| RuleScan.CutHitIsWellCut | src/candidate.rs:387-394 | cutting the snippet by hand gives the shared context window |
| RuleScan.NoOverlap | src/rules.rs:283-348 | two matches of one rule never overlap and are reported in text order |
| RuleScan.HitsArePassedTakes | src/rules.rs:325-348 | of the matches taken exactly those that pass the filters are reported |
| RuleScan.TakenOverIff | src/rules.rs:283-348 | for any engine: a position lies inside a match the scan took iff the answer at the last cursor before it reaches over it |
| RuleScan.NothingSkipped | src/rules.rs:289-296 | so for an engine that finds leftmost matches every position where the rule matches does |
| RuleScan.EmptyReportedIff | src/rules.rs:289-318 | a scan reports an empty match, or an empty value, iff some cursor at which it takes a match carries one whose match, or whose value, is empty and that passes the filters: only an empty match at the cursor is skipped |
| RuleScan.RuleReportsEmptyIff | src/rules.rs:289-318 | for filters that look at nothing before the cursor: a rule ever reports an empty match, or an empty value, iff on some non-empty text its first match ends past position 0, passes, and is empty, or has an empty value |
| RuleScan.FirstLookReportsEmpty | src/rules.rs:289-318 | whatever the filters look at, such a first match is reported |
| RuleScan.EmptyMatchExample | src/rules.rs:289-295 | a rule and a text that report an empty match with an empty value: the end of the text |
| RuleScan.EmptyValueExample | src/rules.rs:300-314 | a rule that reports an empty value and never an empty match: a capture group with nothing in it |
| RuleScan.FullValueExample | src/rules.rs:300-314 | a rule that reports an empty match and never an empty value: the group lies outside the match |
| RuleScan.NoSiblingLeaks | src/rules.rs:153-174 | bracket-free values that no rule marker contains are in no redacted snippet of the segment |
| Paths.Truncated | src/extract.rs:103-118 | the longest prefix within the limit that ends on a character boundary |
| Paths.TextExtractor.Extract | src/extract.rs:31-35 | the segments of the walk over an issue's fields, in order |
| Paths.TextExtractor.ExtractAt | src/extract.rs:45-49 | the segments of the walk over one value at a path |
| Paths.TextExtractor.VisitFields | src/extract.rs:66-77 | appends the members' segments to the shared vector |
| Paths.TextExtractor.VisitValue | src/extract.rs:79-101 | appends the value's segments to the shared vector |
| Paths.SegmentsInScope | src/allowlist.rs:253-261 | every segment found below a non-empty path is admitted by that path as a scope |
| Paths.ScopeIsSubtree | src/allowlist.rs:253-261 | for plain keys a printed address admits exactly the printed addresses at or below it |
| Paths.PrintingInjective | src/extract.rs:66-101 | for plain keys printing addresses is injective |
| Paths.WalkPrintsLeaves | src/extract.rs:79-101 | the walk yields one segment per text leaf, under its printed address |
| Paths.ScopeSelectsSubtree | src/allowlist.rs:253-261 | for an issue with plain keys, a node's printed path as a scope admits exactly the segments at or below that node |
| Paths.FetchedLikePayload | src/pipeline.rs:462-466 | a comment fetched later is walked to the segments it would have in the payload |
| PathClasses.ClassByKeys | src/extract.rs:122-132 | for plain keys: a comment's path iff some key on the way starts with `comment`, else an attachment's iff some key starts with `attachment`, else a description's iff the first key starts with `description` |
| Paths.DottedKeyCollides | src/extract.rs:66-77 | a dotted key prints like a nested one, so the restriction to plain keys is needed |
| Allowlist.Matches | src/allowlist.rs:155-208 | the early returns amount to: the scope admits the path and some predicate names the finding |
| Allowlist.Check | src/allowlist.rs:401-446 | the reason of the first record that suppresses the finding; computing the digest only when some record needs it changes nothing |
| Allowlist.NamingOneThing | src/allowlist.rs:155-208 | a record that names one thing suppresses exactly the findings that have it; a pattern that exceeds its budget does not match; a project is the issue key up to a dash |
| Allowlist.NamingSeveral | src/allowlist.rs:155-208 | a record suppresses a finding iff its scope admits the path and something it names does alone |
| Allowlist.ScopedEntryStaysBelow | src/allowlist.rs:155-167 | a record scoped to a node suppresses nothing outside that node's subtree |

## Left out

- `Redact.AllSecretsAbsent`: a condition to read off the secrets, sufficient only; the exact one is `RedactMany.AllAbsentIff`.
- `RedactMany.AllAbsentIff`: is about several values without brackets that leave a marker; a value with a bracket, or one that is a piece of both its rule's marker and `[REDACTED]` so that its own marker is empty, can form again from what stands around it, and is decided exactly only alone, by `Redact.SingleSecretAbsent`.
- `CheckpointHistory.NothingLostIff`: is about runs with the flag on one instance whose checkpoint file is kept; for arbitrary histories `CheckpointHistory.NoUpdateLost` gives the sufficient direction. Which issues a text selects does not change over a history.
- `StoreReport.ReportedTimesAgree`: compares unbounded sums; `StoreReport.ReportedCounter` adds the 32-bit wrap-around of a release build. A debug build panics on that overflow.
- `Paths.ScopeIsSubtree`: is about keys that are not empty and hold no `.` or `[`; `Paths.DottedKeyCollides` shows why.
- `RedactPlaces.EveryPlaceMasked`: is about values whose first character stands nowhere but at their own places; where values overlap one another or a marker, what is kept depends on the order of the sweeps.
- `PathClasses.ClassByKeys`: is about keys that are not empty and hold no `.` or `[`.
- `RuleScan.RuleReportsEmptyIff`: excludes rules whose filters look at text before the cursor, which is every rule with `context_keywords` (they look 50 bytes back, src/candidate.rs:508); for those `RuleScan.EmptyReportedIff` decides each text.
- `RuleScan.NothingSkipped`: assumes an engine that finds leftmost matches and answers alike on a suffix of the text; for any other engine `RuleScan.TakenOverIff` says which positions are reached.
- `Jql.NarrowingMeans`: clauses and the order clause are single tokens; what a clause means is an oracle.
- `Fetcher.FetchIssues`: the result list does not change during the scan, every page request succeeds, and the page offset does not overflow 32 bits.
- `Comments.GetCommentsAfter`: the thread does not change while it is read.
- `Pipeline.Scan`: safety only. That a cancelled scan ends, and that the fetcher is released when the loop stops receiving, is not modelled.
- `Store.FindingsStore.Reconcile`: the table is keyed by the key itself instead of its SHA-256; the columns written as JSON are kept as values; a failure anywhere in the transaction is one outcome.
- HTTP transport, retries, rate limits, authentication headers and alert delivery.
- SQL text, migrations, connection pool and the audit row of a scan.
- Report writers, metrics, the progress bar, command line, configuration checks, logging and exit codes.
- Regular expressions, JSON and YAML parsing, SHA-256, URL resolution and RFC 3339: oracles or plain values. Timestamps are ordered integers; the program compares RFC 3339 texts.
- The time zone of the Jira profile: UTC is assumed.
- Entropy, character classes, the placeholder dictionary and the other filters of a candidate: one oracle predicate per rule.
- `IssueTask.ProcessIssue`: what scanning the texts detects is an oracle: building findings, confidence adjustment, the limit on findings per issue.
- Attachment names, file types and origins: the outcome of `skip_reason` and `resolve_content_url` is part of an entry; lossy UTF-8 decoding is left out.
- `validate_jwt`, `validate_aws_key`, `redact` for a bare value, severity and status conversions: readable from their bodies.
- `finding_id`, `scanner_version` and the redacted and hashed forms inside a credential-pair hit: copied or derived values nothing depends on.
