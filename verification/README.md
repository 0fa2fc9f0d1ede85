# Sakala Agent: a verified model of its core

Sakala Agent polls a control plane for commands, runs them under concurrency
limits, cuts deployments over to new containers and streams redacted logs back.
This project models the parts of the agent where a mistake would be silent, and
proves what they promise over all inputs and all interleavings. Check it with
`dafny verify dfyconfig.toml`.

Paths below are relative to the root of the agent's repository. Text is
modelled as its bytes, one `char` a byte. Where the source edits state in place,
the model has a class or a method with the same loops, proved equal to a
function; where tasks, timers, the network or Docker interleave, the model is a
state machine whose runs are sequences of events, and the theorems are about
every run.

- **Redaction** (`AsciiText`, `Redactor`, `RedactorSites`, `RedactorTheorems`,
  `RedactorTwice`, `RedactorLine`, `RedactorTails`, `RedactorTokens`,
  `RedactorBearers`, `RedactorBearerLine`, `RedactorValues`, `RedactorForms`,
  `Utf8`, `RedactorUtf8`, `RedactorExamples`): the passes of `redact_line` as
  in-place loops, and what each does to a line that is given piece by piece, with
  an assignment, a bearer token or a prefixed token between two others. No token
  prefix and no value of a sensitive key survives the whole line, except behind
  the marker of an `authorization` value, exactly when
  `RedactorTails.TailSurvivesIff` says so; a bearer token survives exactly when
  `RedactorBearerLine.BearerRemainsIff` says so; the line stays valid UTF-8; the
  one panic happens on exactly described lines.
- **Bounding** (`BoundedLog`, `BoundedLogTheorems`): redacting, collapsing line
  breaks, trimming and cutting. Collapsing and cutting bring back no value and no
  token prefix; collapsing makes a bearer token exactly where a line break stood
  between `bearer` and a token; cutting makes none.
- **Reporter** (`LogQueue`, `Reporter`): the queue, its byte accounts, batching
  and the failure latch.
- **Delivery** (`Delivery`, `DeliveryTheorems`, `DeliveryOrder`,
  `DeliveryProgress`, `DeliveryDrains`, `DeliverySecrets`): all tasks of a reporter
  against a lossy network and a control plane that deduplicates by idempotency key
  and index; what never goes wrong, and that delivery can always be completed.
- **Retries and terminal reports** (`Retry`, `Terminal`).
- **Commit protocol** (`Ports`, `Commit`, `CommitOutcome`): one command from claim
  to terminal report, racing its deadline, its cancellation and its runtime; the
  report is a function of the events of the run.
- **Scheduler and drain** (`Scheduler`, `Drain`).
- **Route files** (`UuidText`, `RouteFiles`): transactions, ownership headers,
  discovery and generation-checked cleanup.
- **Containers and routes of a node** (`Node`, `NodeOutcomes`, `Admission`): what
  holds in every run, and what each command achieves or puts back.

Assumptions, each visible in the model:

- The control plane deduplicates by key and index and acknowledges a batch only
  when it has stored all of it (`Delivery.Enabled`); it never changes a terminal
  status and reports truthfully (`Terminal.Conforms`).
- A Docker operation and `RouteManager::activate` are single steps (`Node`). A
  cancellation between the rename of a route file and the end of the Caddy reload
  would leave the new route in place with the commit flag unset; no theorem about
  the flag depends on this, the ones about routes do.
- Deployment ids are new for every deployment, and a project has at most one
  command in flight (`Node.Enabled`; the second is what `Scheduler` proves).
- A command id names one command (`Scheduler.Identified`), where stated.
- A rollback of a route file succeeds (`Node`). If restoring the file failed, it
  would go on naming a candidate that is then removed.
- The runtime future moves only while the processor polls it (`Commit.Enabled`).

Six promises do not hold without a condition, and the exact condition is
proved:

- `redact_line` panics behind an empty bearer token
  (crates/sakala-agent-core/src/logs/redactor.rs:107), exactly when the scan of
  the text that its key passes leave runs past the end (`RedactorUtf8.ReturnsIff`).
  On a line with a token behind every bearer marker it returns
  (`RedactorBearerLine.FilledLineIsMarked`).
- Bearer tokens are not all redacted, although docs/SECURITY.md:20 and
  docs/LOGGING.md:39 say so. Behind an empty token the scan goes on ten bytes
  further and may skip a bearer marker that has a token
  (`RedactorExamples.BearerIsSkipped`); and line breaks are collapsed after
  redaction, which may join `bearer` and a token
  (`RedactorExamples.BearerIsJoined`). The pass leaves every token redacted exactly
  if it skips no unredacted one (`RedactorBearers.ScanIff`); for the whole line the
  condition is `RedactorBearerLine.BearerRemainsIff`, for the collapsed line
  `BoundedLogTheorems.BearsIff`. None is left on a line with a token behind every
  bearer marker and no line break directly behind `bearer`
  (`BoundedLogTheorems.FilledLineBearsNothing`).
- The value of an `authorization` key is not always replaced as a whole: a bearer
  token ends at a quote, and what follows the quote stays behind the marker
  (`RedactorExamples.TailIsLeft`). The pass leaves such a tail exactly if some
  value in the text that reaches it does not end where a plain value ends, and it
  is still there at the end exactly if no later pass replaces a value or token
  around the whole occurrence (`RedactorTails.TailSurvivesIff`).
- For the same reason the `authorization` pass is a fixed point on exactly the
  lines of `RedactorTwice.SecondPassIdleIff`, and `AuthorizationPassChangesAgain`
  shows one that is not.
- Lines are stored in order exactly if no request that still brings something new
  arrives behind a later batch (`DeliveryProgress.InOrderIffTimely`). Such an
  arrival takes a caller that was dropped while its batch was on the way
  (`DeliveryOrder.ExactlyOnceInOrder`, `DeliveryProgress.TwoLinesReordered`).
- `docker restart` and `docker start` take no admission lock. Waking a sleeping
  project on a full node puts the node over its limit (`Admission.WakeOverruns`),
  and so does a restart whose slot a deployment takes in between
  (`Admission.RestartOverruns`); the limit is kept exactly if each of them finds
  room (`Admission.AdmissionBoundIff`).

## Model

| member | source | states |
|---|---|---|
| AsciiText.FindsFirst | crates/sakala-agent-core/src/logs/redactor.rs:125-130 | the finder returns the first window at or after the start that equals the needle up to letter case, or none exists |
| AsciiText.FoldsSameIff | crates/sakala-agent-core/src/logs/redactor.rs:125-130 | two bytes count as the same exactly if they are, or are one letter in both cases |
| Redactor.RewriteSite | crates/sakala-agent-core/src/logs/redactor.rs:27-94 | every iteration shrinks the part of the line still to be searched, although the line may grow, and keeps the search position inside it |
| Redactor.RewritePrefix | crates/sakala-agent-core/src/logs/redactor.rs:111-123 | a matched token is never empty, and every iteration shrinks the part still to be searched |
| Redactor.Advance | crates/sakala-agent-core/src/logs/redactor.rs:38-58 | a cursor loop stops at the first byte of its class or at the end |
| Redactor.LocateSite | crates/sakala-agent-core/src/logs/redactor.rs:30-85 | the scan behind a match finds the site of the specification function, which RedactorValues.SiteIff describes byte by byte |
| Redactor.RedactAssignment | crates/sakala-agent-core/src/logs/redactor.rs:27-94 | the in-place loop terminates and computes the specification function, about which the theorems below are |
| Redactor.RedactBearerTokens | crates/sakala-agent-core/src/logs/redactor.rs:96-109 | the in-place loop computes the specification function, with an explicit failure where the slice is out of range |
| Redactor.RedactPrefix | crates/sakala-agent-core/src/logs/redactor.rs:111-123 | the in-place loop terminates and computes the specification function |
| Redactor.RedactLineInPlace | crates/sakala-agent-core/src/logs/redactor.rs:17-25 | the three kinds of passes in order, or the failure of the bearer pass |
| RedactorSites.SiteKept | crates/sakala-agent-core/src/logs/redactor.rs:30-85 | what an occurrence of a key means depends only on the bytes up to the one that ends its value |
| RedactorSites.KeysApart | crates/sakala-agent-core/src/logs/redactor.rs:1-12 | no two of the ten keys can match at the same position |
| RedactorTheorems.KeepsPrefix | crates/sakala-agent-core/src/logs/redactor.rs:27-94 | a pass leaves everything before its search position as it was |
| RedactorTheorems.Settles | crates/sakala-agent-core/src/logs/redactor.rs:87-92 | after one iteration, whatever later iterations do, the match it handled keeps its place, its value is fine, and no other match starts before the new search position |
| RedactorTheorems.PassCleans | crates/sakala-agent-core/src/logs/redactor.rs:27-94 | after its pass, every value assigned to the key anywhere in the line is empty or the marker (for authorization: starts with the marker) |
| RedactorTheorems.UnchangedIffClean | crates/sakala-agent-core/src/logs/redactor.rs:27-94 | for the other nine keys a pass leaves a line unchanged exactly when no value of the key is left in it |
| RedactorTheorems.PassIsIdempotent | crates/sakala-agent-core/src/logs/redactor.rs:27-94 | for the nine keys other than authorization, a second pass changes nothing |
| RedactorTheorems.PassIsCopy | crates/sakala-agent-core/src/logs/redactor.rs:27-94 | the in-place pass equals a reference that reads the unedited line once and copies it out with exactly the non-empty assigned values replaced; what an assigned value is, RedactorValues.SiteIff says |
| RedactorValues.SiteIff | crates/sakala-agent-core/src/logs/redactor.rs:30-85 | exactly when the scan finds a value, and which: the key stands behind no word byte, then spacing and quotes, then = or :, then spacing and possibly an opening quote; the value ends at the same quote, or bare at white space, comma or semicolon, or for authorization with the bearer token |
| RedactorValues.ValueIsMarked | crates/sakala-agent-core/src/logs/redactor.rs:87-92 | a non-empty assigned value becomes the marker; what is in front and behind becomes what the pass makes of it alone; the only exception is an assignment inside a value assigned further left |
| RedactorValues.EmptyValueStays | crates/sakala-agent-core/src/logs/redactor.rs:87-92 | an empty assigned value stays, and the line in front and behind is treated as above |
| RedactorValues.UnassignedStays | crates/sakala-agent-core/src/logs/redactor.rs:30-49 | an occurrence of the key that is assigned nothing stays, and the pass goes on right behind it |
| RedactorForms.AssignmentIsMarked | crates/sakala-agent-core/src/logs/redactor.rs:27-94 | the same as an equation between lines: pre, key in any letter case, gap, separator, spaces, quote, value, rest |
| RedactorForms.BearerTokenIsMarked | crates/sakala-agent-core/src/logs/redactor.rs:96-109 | the first bearer token of a line, up to white space, comma, semicolon or double quote, becomes the marker, and the rest what it becomes alone |
| RedactorForms.EmptyTokenSkips | crates/sakala-agent-core/src/logs/redactor.rs:104-107 | behind a bearer without a token ten bytes are copied unread, and with fewer than ten bytes left the pass panics |
| RedactorForms.PrefixedTokenIsMarked | crates/sakala-agent-core/src/logs/redactor.rs:111-123 | the first token with the prefix becomes the marker as a whole, and the rest what it becomes alone |
| RedactorTwice.StrictIffAllEndPlainly | crates/sakala-agent-core/src/logs/redactor.rs:67-92 | after a pass every value is exactly the marker or empty, if and only if every value it came to in the original line ends where a plain value ends |
| RedactorTwice.SecondPassIdleIff | crates/sakala-agent-core/src/logs/redactor.rs:67-92 | for every key, authorization included: a second pass changes nothing exactly on the lines whose values all end plainly |
| RedactorTwice.AuthorizationPassChangesAgain | crates/sakala-agent-core/src/logs/redactor.rs:67-76 | a concrete line on which a second authorization pass changes the result |
| RedactorLine.KeyPassKeeps | crates/sakala-agent-core/src/logs/redactor.rs:19-21 | the pass for one key brings back no value of another key |
| RedactorLine.BearerPassKeeps | crates/sakala-agent-core/src/logs/redactor.rs:96-109 | the bearer pass brings back no value of any key |
| RedactorLine.PrefixPassKeeps | crates/sakala-agent-core/src/logs/redactor.rs:111-123 | a prefix pass brings back no value of any key |
| RedactorLine.PrefixPassFrees | crates/sakala-agent-core/src/logs/redactor.rs:113-121 | after its pass, the prefix occurs nowhere in the line in any letter case |
| RedactorLine.NoSecretSurvives | crates/sakala-agent-core/src/logs/redactor.rs:17-25 | whenever redact_line returns, none of the four token prefixes is left, and every value of the ten keys is empty or exactly the marker; only an authorization value may carry a tail behind its marker, and only if some value in the text that reaches the authorization pass does not end where a plain value ends; bearer tokens have theorems of their own below |
| RedactorForms.NoAssignmentSurvives | crates/sakala-agent-core/src/logs/redactor.rs:17-25 | however the redacted line is read as pre, key, gap, separator, spaces, quote, value and rest, the value is the marker, except for the tail of an authorization value |
| RedactorForms.LineMarksAssignment | crates/sakala-agent-core/src/logs/redactor.rs:17-25 | a line in which only one key is assigned values and no token occurs: redact_line marks the value and leaves pre and rest to the pass for that key |
| RedactorExamples.PasswordIsMarked | crates/sakala-agent-core/src/logs/redactor.rs:17-25 | password=hunter2 becomes password=[REDACTED] |
| RedactorLine.LineKeepsFree | crates/sakala-agent-core/src/logs/redactor.rs:17-25 | a text that cannot overlap the marker and does not occur in the line does not occur in the redacted line either |
| RedactorTails.TailBack | crates/sakala-agent-core/src/logs/redactor.rs:17-25 | no later rewrite makes a tail: each tail behind an authorization marker comes from one that was there before |
| RedactorTails.TailForward | crates/sakala-agent-core/src/logs/redactor.rs:17-25 | a tail is still there after every rewrite that does not reach into its occurrence of the key |
| RedactorTails.TailSurvivesIff | crates/sakala-agent-core/src/logs/redactor.rs:17-25 | exactly when something is left behind an authorization marker of the redacted line: the authorization pass leaves a tail, and no later pass replaces a value or token in which that occurrence lies |
| RedactorExamples.TailIsLeft | crates/sakala-agent-core/src/logs/redactor.rs:67-76 | a concrete line of which redact_line leaves text behind an authorization marker |
| RedactorTokens.PrefixPassIsCopy | crates/sakala-agent-core/src/logs/redactor.rs:111-123 | the in-place prefix pass equals a reference that reads the unedited line once and replaces exactly the tokens that start with the prefix; everything else stays |
| RedactorTokens.BearerPassIsCopy | crates/sakala-agent-core/src/logs/redactor.rs:96-109 | the in-place bearer pass equals such a reference for bearer tokens, and fails exactly where the reference runs out of text |
| RedactorBearers.ScanIff | crates/sakala-agent-core/src/logs/redactor.rs:96-109 | exactly when the bearer pass returns and leaves every bearer marker followed by the redaction marker: every bearer marker its scan comes to has a token; and exactly when it returns and leaves none followed by an unredacted token: the scan does not run out, and behind an empty token skips no bearer marker with a token other than the redaction marker |
| RedactorBearerLine.PassRemains | crates/sakala-agent-core/src/logs/redactor.rs:111-123 | a prefix pass neither makes nor redacts a bearer token, except one that starts with a token prefix or whose bearer ends a prefixed token: whether any other is left is the same before and after it |
| RedactorBearerLine.BearerRemainsIff | crates/sakala-agent-core/src/logs/redactor.rs:17-25 | exactly when the redacted line has an unredacted bearer token: the bearer pass skipped one that does not start with a token prefix and whose bearer is not the end of a prefixed token |
| RedactorBearerLine.FilledLineIsMarked | crates/sakala-agent-core/src/logs/redactor.rs:17-25 | a line on which a token follows every bearer marker is redacted without a panic, and behind every bearer marker of the result stands exactly the redaction marker |
| RedactorExamples.BearerIsSkipped | crates/sakala-agent-core/src/logs/redactor.rs:104-107 | a concrete line with an unredacted bearer token that redact_line returns unchanged |
| Utf8.ValidPrefixEndsAtBoundary | crates/sakala-agent-core/src/reporting/runtime.rs:295-299 | a prefix of valid UTF-8 (section 3 of RFC 3629) is valid only if it ends at a character boundary |
| Utf8.BoundaryNearby | crates/sakala-agent-core/src/reporting/runtime.rs:295-299 | in valid text there is a character boundary at most three bytes before any position |
| Utf8.EncodedIsValid | crates/sakala-agent-core/src/reporting/runtime.rs:295-299 | what encodes Unicode scalar values (section 3 of RFC 3629) is valid |
| Utf8.ValidIsEncoded | crates/sakala-agent-core/src/reporting/runtime.rs:295-299 | every valid text encodes some scalar values |
| RedactorUtf8.ValueCanBeReplaced | crates/sakala-agent-core/src/logs/redactor.rs:87-89 | both ends of an assigned value are character boundaries, so the replacement does not panic |
| RedactorUtf8.BearerTokenCanBeReplaced | crates/sakala-agent-core/src/logs/redactor.rs:104-106 | both ends of a bearer token are character boundaries |
| RedactorUtf8.PrefixTokenCanBeReplaced | crates/sakala-agent-core/src/logs/redactor.rs:115-119 | both ends of a prefixed token are character boundaries |
| RedactorUtf8.LineStaysValid | crates/sakala-agent-core/src/logs/redactor.rs:17-25 | a valid line stays valid UTF-8 through every pass |
| RedactorUtf8.PanicsIffRunsOut | crates/sakala-agent-core/src/logs/redactor.rs:96-109 | the bearer pass panics exactly when its scan of the unedited line runs past the end |
| RedactorUtf8.ReturnsIff | crates/sakala-agent-core/src/logs/redactor.rs:17-25 | redact_line returns exactly when the scan of the text that its ten key passes leave does not run out |
| RedactorExamples.EmptyBearerPanics | crates/sakala-agent-core/src/logs/redactor.rs:96-109 | a concrete line, in the form process output is reported in, on which redaction panics |
| BoundedLog.TrimEnd | crates/sakala-agent-core/src/reporting/runtime.rs:277-287 | trimming yields a prefix that does not end in white space |
| BoundedLog.TrimDropsOnlySpace | crates/sakala-agent-core/src/reporting/runtime.rs:285 | what trimming drops is white space and nothing else |
| BoundedLog.TrailingSpaceIff | crates/sakala-agent-core/src/reporting/runtime.rs:285 | a text ends in white space exactly if it ends in the encoding of a scalar value with the Unicode property White_Space |
| BoundedLog.UncutIsTrimmed | crates/sakala-agent-core/src/reporting/runtime.rs:258 | an accepted message that no limit cuts ends in no white space |
| BoundedLog.BlankLineIsDropped | crates/sakala-agent-core/src/reporting/runtime.rs:258-266 | a line of white space alone is not queued |
| BoundedLog.BoundaryBefore | crates/sakala-agent-core/src/reporting/runtime.rs:295-298 | the cut is the greatest character boundary within the limit |
| BoundedLog.TruncateUtf8 | crates/sakala-agent-core/src/reporting/runtime.rs:289-300 | the in-place loop computes the cut |
| BoundedLog.TruncatedIsLongest | crates/sakala-agent-core/src/reporting/runtime.rs:289-300 | the result is the longest valid prefix within the limit, at most three bytes short of it when it cuts |
| BoundedLog.TwoCutsAreOne | crates/sakala-agent-core/src/reporting/runtime.rs:259-265 | cutting to the line limit and then to the remaining budget is one cut to the tighter of both |
| BoundedLog.KeptIff | crates/sakala-agent-core/src/reporting/runtime.rs:253-267 | exactly when a line is queued, and that its message is the redacted, trimmed line cut once to the tighter limit |
| BoundedLogTheorems.KeptIsWithinLimits | crates/sakala-agent-core/src/reporting/runtime.rs:253-267 | an accepted message is one non-empty line within the line limit and the remaining byte budget, with stream and time unchanged |
| BoundedLogTheorems.KeptIsValid | crates/sakala-agent-core/src/reporting/runtime.rs:253-300 | an accepted message is valid UTF-8 |
| BoundedLogTheorems.CollapseKeepsClean | crates/sakala-agent-core/src/reporting/runtime.rs:277-287 | collapsing line breaks brings back no value of a key and no tail, although it turns them into separators |
| BoundedLogTheorems.CollapseBearsIff | crates/sakala-agent-core/src/reporting/runtime.rs:277-287 | collapsing line breaks yields an unredacted bearer token exactly if there was one, or a line break stood between bearer and something other than the redaction marker |
| BoundedLogTheorems.BearsIff | crates/sakala-agent-core/src/reporting/runtime.rs:258 | exactly when the redacted and collapsed line has an unredacted bearer token, and that this takes a skipped bearer marker or a logged line with a line break directly behind bearer |
| BoundedLogTheorems.FilledLineBearsNothing | crates/sakala-agent-core/src/reporting/runtime.rs:258 | a line with a token behind every bearer marker and no line break directly behind bearer is redacted and collapsed without leaving a bearer token |
| RedactorExamples.BearerIsJoined | crates/sakala-agent-core/src/reporting/runtime.rs:253-287 | a concrete line that is accepted with an unredacted bearer token, since its line break is collapsed after redaction |
| BoundedLogTheorems.CutStaysClean | crates/sakala-agent-core/src/reporting/runtime.rs:289-300 | wherever a cleaned line is cut, every value is empty, the marker, or what the cut left of the marker; a tail behind the marker remains only where one was allowed before |
| BoundedLogTheorems.CutBearers | crates/sakala-agent-core/src/reporting/runtime.rs:289-300 | wherever a line without unredacted bearer tokens is cut, behind every bearer marker stands nothing, the redaction marker, or what the cut left of it |
| BoundedLogTheorems.NoSecretIsQueued | crates/sakala-agent-core/src/reporting/runtime.rs:253-267 | an accepted message holds no token prefix, and every value of the ten keys is empty, the marker or what a cut left of it, with a tail behind an authorization marker only on the lines NoSecretSurvives names; the same holds behind every bearer marker, except for the lines BearsIff names |
| LogQueue.BatchMaxLines | crates/sakala-agent-core/src/reporting/runtime.rs:98-102 | the policy can only lower the ceiling of 100 lines, and at least one line always fits |
| LogQueue.BatchMaxLinesIsLargest | crates/sakala-agent-core/src/reporting/runtime.rs:98-102 | no larger number of lines is within the ceiling and the policy |
| LogQueue.BatchIsLongest | crates/sakala-agent-core/src/reporting/runtime.rs:137-148 | the counting loop's batch is the longest leading part that fits |
| LogQueue.BatchesPartition | crates/sakala-agent-core/src/reporting/runtime.rs:128-151 | repeated drains split any pending lines into contiguous non-empty batches within the line and byte limits (or single lines), losing and reordering nothing |
| LogQueue.AcceptAccounts | crates/sakala-agent-core/src/reporting/runtime.rs:196-212 | a line is queued exactly if delivery runs and bounding keeps it; then it is appended, and reserved bytes stay the accepted byte sum within the budget |
| LogQueue.TakeAccounts | crates/sakala-agent-core/src/reporting/runtime.rs:129-151 | a batch is the longest leading part of the pending lines within the limits, and the saturating subtraction never saturates |
| Reporter.ApiRuntimeReporter.Log | crates/sakala-agent-core/src/reporting/runtime.rs:196-212 | the critical section of log: new state, answer and history, with the accounts kept |
| Reporter.ApiRuntimeReporter.CountBatch | crates/sakala-agent-core/src/reporting/runtime.rs:137-148 | the loop counts the lines and bytes of the longest batch |
| Reporter.ApiRuntimeReporter.TakeBatch | crates/sakala-agent-core/src/reporting/runtime.rs:129-151 | a batch leaves the queue and is on the way; accepted lines are acknowledged, on the way or pending |
| Reporter.ApiRuntimeReporter.FlushPending | crates/sakala-agent-core/src/reporting/runtime.rs:126-169 | the drain loop, with lines logged by others during its requests, terminates once they stop; batches are within the limits; a flush that ends well has everything ever accepted acknowledged, one that fails exactly what it sent before the failure; with no such lines it sends the partition |
| Reporter.ApiRuntimeReporter.MarkDeploymentCommitted | crates/sakala-agent-core/src/reporting/runtime.rs:226-235 | after each of its two stores, a reader that finds the flag set finds the new output |
| Reporter.ApiRuntimeReporter.CommittedOutput | crates/sakala-agent-core/src/reporting/runtime.rs:237-250 | whoever sees the flag finds the output |
| DeliveryTheorems.Always | crates/sakala-agent-core/src/reporting/runtime.rs:125-220 | in every run: one holder of the flush lock; accepted lines are the issued batches followed by the pending lines until a stop; byte accounts exact; the control plane holds each item at most once |
| DeliveryTheorems.StoreAppends | crates/sakala-agent-core/src/api/client.rs:270-279 | a request only appends items of its own batch at the control plane, and afterwards they are all there |
| DeliveryOrder.ExactlyOnceInOrder | crates/sakala-agent-core/src/reporting/runtime.rs:126-169 | under any loss, retry or late arrival and without dropped tasks, the stored lines are a prefix of the accepted ones: all acknowledged batches in order and at most part of one more; with nothing pending or on the way they are all accepted lines |
| DeliveryProgress.OneTimer | crates/sakala-agent-core/src/reporting/runtime.rs:171-182 | in every run at most one timer sleeps, and the flag says exactly whether one does |
| DeliveryProgress.NoLostWakeup | crates/sakala-agent-core/src/reporting/runtime.rs:171-220 | in every run without dropped tasks: while lines are pending and delivery is not stopped, a timer sleeps or some task is still before its final empty check |
| DeliveryProgress.FullBatchIsFlushed | crates/sakala-agent-core/src/reporting/runtime.rs:210-219 | in every run without dropped tasks: while a full batch is waiting and delivery is not stopped, some task is on its way to flush it without waiting for a timer |
| DeliveryProgress.OnlyDropsEndAttendance | crates/sakala-agent-core/src/reporting/runtime.rs:171-220 | in every run, drops included: only a drop takes the last task away that would attend to pending lines, or to a full batch |
| DeliveryProgress.NextCallRestoresAttendance | crates/sakala-agent-core/src/reporting/runtime.rs:196-224 | in every run, drops included: the next flush call, or call that accepts a line, restores both until the next drop |
| DeliveryProgress.StoppedIsFinal | crates/sakala-agent-core/src/reporting/runtime.rs:153-167 | once stopped, pending stays empty and nothing more is accepted, issued, sent or acknowledged |
| DeliveryDrains.LoopEnds | crates/sakala-agent-core/src/reporting/runtime.rs:126-151 | in every run: a task that finds nothing pending, or delivery stopped, leaves and the flush lock is free; else it holds a non-empty leading part of the pending lines |
| DeliveryDrains.FailureEndsLoop | crates/sakala-agent-core/src/reporting/runtime.rs:153-167 | in every run: a failed delivery drops what is pending, stops the reporter and frees the lock |
| DeliveryDrains.LockComesBack | crates/sakala-agent-core/src/reporting/runtime.rs:126-169 | from every reachable state, whoever holds the flush lock can free it by its own steps and the arrival of its requests alone, within four steps a pending line and four more, and leaves nothing pending |
| DeliveryDrains.EverythingCanBeDelivered | crates/sakala-agent-core/src/reporting/runtime.rs:126-220 | from every reachable state of a run without drops or stop, the tasks under way can bring every accepted line to the control plane, once and in order, within the same bound |
| DeliveryProgress.InOrderIffTimely | crates/sakala-agent-core/src/reporting/runtime.rs:126-169 | in every run, drops included: each batch is stored without gaps, and the items are in the order of the accepted lines if and only if every arriving request brought nothing new or came before anything of a later batch |
| DeliveryProgress.AtMostOnce | crates/sakala-agent-core/src/api/client.rs:280-325 | whatever is dropped, lost or late, each accepted line is stored at most once, nothing else is stored, and an acknowledged batch is stored completely |
| DeliveryProgress.LateArrivalReorders | crates/sakala-agent-core/src/reporting/runtime.rs:126-169 | a run with a drop and a late arrival in which two lines are stored in the wrong order |
| DeliveryProgress.TwoLinesReordered | crates/sakala-agent-core/src/reporting/runtime.rs:126-169 | the same run for two concrete lines |
| DeliverySecrets.NoSecretIsDelivered | crates/sakala-agent-core/src/reporting/runtime.rs:196-212 | in every run, each accepted line, and so each stored one, comes from a logged line and holds no token prefix, no line break and no value of the ten keys, and no unredacted bearer token, with the same exceptions for authorization and for the lines BearsIff names |
| Retry.DelayIsCappedDoubling | crates/sakala-agent-core/src/support/retry.rs:41-45 | the delay is the base doubled per attempt, at most 65536-fold, capped by the maximum; neither saturation shows |
| Retry.DelayGrows | crates/sakala-agent-core/src/support/retry.rs:34-45 | delays never shrink with the attempt and never exceed the maximum |
| Retry.DeliveredIff | crates/sakala-agent-core/src/api/client.rs:327-388 | a batch counts as delivered exactly for a 204 or a 200 whose acknowledgement accounts for every item consistently |
| Retry.TransientIff | crates/sakala-agent-core/src/api/client.rs:280-325 | a batch is sent again exactly after no answer for want of a connection, time, request or body, after 408, 429 or a server error, or after a 200 whose body could not be read |
| Retry.PermanentIs | crates/sakala-agent-core/src/api/client.rs:327-388 | which error any other reply is surfaced as |
| Retry.RetryableReplyIff | crates/sakala-agent-core/src/api/client.rs:454-462 | which replies of other requests are retried |
| Retry.WaitsDouble | crates/sakala-agent-core/src/support/retry.rs:34-45 | the wait before each repetition is the base delay doubled so often, at most 16 times, up to the maximum, and twice the one before while that fits |
| Retry.Report | crates/sakala-agent-core/src/api/client.rs:280-325 | between 1 and max_attempts requests, all under one key, a retry only after a transient outcome; only when the last of them is transient, too, all attempts are used; the result is that of the last request |
| Retry.SendWithRetry | crates/sakala-agent-core/src/api/client.rs:418-451 | the same bounds; the last reply is returned as it is, and is retryable only if the attempts are used up |
| Retry.WaitIsBounded | crates/sakala-agent-core/src/support/retry.rs:34-45 | the waits of a call never shrink and together stay within (attempts - 1) times the maximum |
| Terminal.TerminalStays | crates/sakala-agent-core/src/api/client.rs:390-413 | a terminal status reached at any time is the final one |
| Terminal.SuccessIsHeld | crates/sakala-agent-core/src/api/client.rs:390-413 | a report that ends well means the control plane holds that outcome for good |
| Terminal.ConcludesIff | crates/sakala-agent-core/src/api/client.rs:390-413 | exactly when a terminal report ends well: no error status, or a conflict with the command already succeeded, for complete, or failed, for fail |
| Terminal.RepeatEndsWell | crates/sakala-agent-core/src/api/client.rs:390-413 | once the control plane holds the outcome, the same report sent again ends well |
| Terminal.NotBoth | crates/sakala-agent-core/src/api/client.rs:210-238 | complete and fail cannot both end well for one command |
| Terminal.PostTerminal | crates/sakala-agent-core/src/api/client.rs:390-413 | with lost requests and answers: bounded attempts, and Ok only if the control plane holds the expected status |
| Commit.DeferredCarriesCommitted | crates/sakala-agent-core/src/commands/processor.rs:275-293 | a deferred output says so and why, and carries everything else that was committed: every other field of an object, any other value as a whole |
| Commit.DeferredCommittedOutput | crates/sakala-agent-core/src/commands/processor.rs:275-293 | the edit of the result map computes the deferred output of what the reporter holds |
| Commit.CommandPolicy | crates/sakala-agent-core/src/commands/processor.rs:247-272 | an accepted deadline of a deployment is between one second and the node's maximum |
| Commit.CommandPolicyIff | crates/sakala-agent-core/src/commands/processor.rs:247-272 | exactly when a policy is accepted, and which deadline and log limits it then has |
| Commit.CommitAgreement | crates/sakala-agent-core/src/commands/processor.rs:124-244 | in every run at most one terminal report is sent, fail only if the deployment is not committed, and a committed one only completes |
| Commit.CommittedNeverFails | crates/sakala-agent-core/src/commands/processor.rs:124-244 | a run in which the flag is set at any time never sends fail, before or after |
| Commit.CompletionIsEarned | crates/sakala-agent-core/src/commands/processor.rs:145-198 | a completion carries the result of the runtime, or the committed output deferred with the reason that applies |
| CommitOutcome.ReportIsDetermined | crates/sakala-agent-core/src/commands/processor.rs:124-244 | the one report of an announced command is determined by its events: the refused policy; the timeout, if the deadline came before the cutover; else what the runtime returned; and for a committed deployment the deferred output exactly in place of a failure or of a grace that elapsed |
| CommitOutcome.SuccessIsReportedAsIs | crates/sakala-agent-core/src/commands/processor.rs:128-152 | a deployment that ends well in time, or within the grace, is completed with its own output |
| CommitOutcome.CancelledIff | crates/sakala-agent-core/src/commands/processor.rs:124-183 | the runtime is told to stop exactly by somebody outside, when the grace elapses, or when the deadline comes before the cutover |
| CommitOutcome.AlwaysCanFinish | crates/sakala-agent-core/src/commands/processor.rs:76-244 | from every reachable state, even if the runtime never moves again, at most eight steps of the processor end the command |
| Commit.FailureIsHonest | crates/sakala-agent-core/src/commands/processor.rs:109-183 | a failure carries the refused policy, the timeout once the deadline has passed, or the runtime's own error |
| Commit.OneReportOnceAnnounced | crates/sakala-agent-core/src/commands/processor.rs:89-117 | a finished command has exactly one report, unless the claim was lost or the claimed event failed; then none |
| Commit.LiveCandidateIsKept | crates/sakala-agent-runtime/src/executor/docker.rs:274-311 | route mark, flag and stored output go together, and a container that was cut over to is never removed as a failed candidate |
| CommitOutcome.CandidateRemovedIff | crates/sakala-agent-runtime/src/executor/docker.rs:302-311 | the candidate is removed exactly if the deployment failed before its cutover and was cleaned up |
| Scheduler.CommandExecutions.TryStart | crates/sakala-agent-core/src/scheduler/poller.rs:156-198 | a command starts exactly if its project is not busy and it finds a slot: inspections, health checks, route refreshes, drains and resumes share one, all others the configured limit; counters, projects, entries and tasks stay in step and within the limits, and exact while ids are distinct |
| Scheduler.CommandExecutions.ReleaseMetadata | crates/sakala-agent-core/src/scheduler/poller.rs:232-242 | one slot, one metrics count and the project of the entry are given back, and no subtraction runs below zero |
| Scheduler.CommandExecutions.ReleaseTask | crates/sakala-agent-core/src/scheduler/poller.rs:219-230 | exactly the entries of the command go, in whatever order the map yields them |
| Scheduler.CommandExecutions.ReapCompleted | crates/sakala-agent-core/src/scheduler/poller.rs:200-217 | no counter is off whatever ids commands carry; if ids name commands, busy projects stay exact and no project has two tasks; with distinct ids every task keeps its entry |
| Scheduler.CommandExecutions.CancelAndWait | crates/sakala-agent-core/src/scheduler/poller.rs:244-279 | every entry is cancelled, what is late is aborted, and afterwards all counters, projects, entries and tasks are gone |
| Scheduler.FinishKeepsOthers | crates/sakala-agent-core/src/scheduler/poller.rs:200-230 | a task that is still there does not lose its project with another task of the same id |
| Scheduler.ExactIffIdNotShared | crates/sakala-agent-core/src/scheduler/poller.rs:219-230 | joining a task keeps the entries of all others exactly if it crashed or none of them shares its id |
| Scheduler.ExactMeansInFlight | crates/sakala-agent-core/src/scheduler/poller.rs:120-136 | then counters, projects and metrics are those of the tasks in flight |
| Drain.FromU8 | crates/sakala-agent-core/src/node_state.rs:12-21 | the byte form reads back as the state that was stored, and anything unknown as Active |
| Drain.NodeLifecycle.Set | crates/sakala-agent-core/src/node_state.rs:52-54 | what is set is what is read |
| Drain.Always | crates/sakala-agent-core/src/scheduler/poller.rs:37-90 | in every interleaving of the polling loop with drain and resume tasks, the three separate accesses of the promotion stay consistent |
| Drain.DrainSafety | crates/sakala-agent-core/src/scheduler/poller.rs:37-90 | on a drained node or one in maintenance only drain and resume commands are in flight |
| Drain.ConsiderDecision | crates/sakala-agent-core/src/scheduler/poller.rs:57-68 | in every run: the loop goes on with a command exactly if the node is active or the command drains or resumes a node |
| Drain.NodeCommandWorks | crates/sakala-agent-core/src/scheduler/poller.rs:37-90 | from every reachable state, a drain or a resume command can be carried out within seven steps |
| Drain.DrainCompletes | crates/sakala-agent-core/src/scheduler/poller.rs:37-42 | from every reachable state a node can be drained: once its tasks have ended, the loop promotes it |
| Drain.PromotionOverwritesOnlyDraining | crates/sakala-agent-core/src/scheduler/poller.rs:39-42 | when the promotion is stored, the state still is Draining and no task is left, so it never overwrites a concurrent Active |
| Drain.StateChangesHaveCauses | crates/sakala-agent-core/src/commands/dispatcher.rs:181-204 | over any stretch of a run: a node became active by a resume command, draining by a drain command, drained by a promotion, and never enters maintenance |
| UuidText.PrintedParses | crates/sakala-agent-runtime/src/routing/caddy_file.rs:156-158 | a UUID parses back from its text form (section 4 of RFC 9562) |
| UuidText.OtherFormsParse | crates/sakala-agent-runtime/src/routing/caddy_file.rs:156-172 | the forms without hyphens, in braces and as a URN parse to the same UUID |
| RouteFiles.WrittenHeaderParses | crates/sakala-agent-runtime/src/routing/caddy_file.rs:51-54 | the header written for a deployment is read back in discovery as that deployment |
| RouteFiles.WrittenServes | crates/sakala-agent-runtime/src/routing/caddy_file.rs:51-54 | domain, upstream and port of a written file read back as those of the route |
| RouteFiles.WrittenCarries | crates/sakala-agent-runtime/src/routing/caddy_file.rs:92-121 | a written file is owned, is removed for its own deployment only, and never as a legacy route |
| RouteFiles.LegacyIsNotModern | crates/sakala-agent-runtime/src/routing/caddy_file.rs:113-121 | no content has both forms of header |
| RouteFiles.DiscoverStaleRoutes | crates/sakala-agent-runtime/src/routing/caddy_file.rs:134-189 | the directory loop collects what the specification function finds, or fails with the first unreadable file |
| RouteFiles.FoundIsUnknown | crates/sakala-agent-runtime/src/routing/caddy_file.rs:159-187 | a stale route was read with that generation from an owned file of the project and was not in the known set |
| RouteFiles.FoundIff | crates/sakala-agent-runtime/src/routing/caddy_file.rs:134-189 | a stale route is found exactly if some file of the directory is named for its project, owned, names that generation, and is not known |
| RouteFiles.DiscoveryFailsIff | crates/sakala-agent-runtime/src/routing/caddy_file.rs:158 | discovery fails exactly if it cannot read some file named like a route |
| RouteFiles.WrittenIsStaleIff | crates/sakala-agent-runtime/src/routing/caddy_file.rs:159-187 | a file the agent wrote is stale exactly if its deployment is not known |
| RouteFiles.LegacyIsStaleIff | crates/sakala-agent-runtime/src/routing/caddy_file.rs:159-187 | a legacy file is stale exactly if nothing of its project is known |
| RouteFiles.UnknownRouteIsCleaned | crates/sakala-agent-runtime/src/routing/caddy_file.rs:224-246 | a file the agent wrote for an unknown deployment is among the stale routes, and is removed if it is unchanged when its turn comes |
| RouteFiles.CaddyFileRouteManager.WriteRoute | crates/sakala-agent-runtime/src/routing/caddy_file.rs:42-64 | exactly without a fault the file is replaced and the old content kept; else at most the temporary file has changed |
| RouteFiles.CaddyFileRouteManager.Restore | crates/sakala-agent-runtime/src/routing/caddy_file.rs:66-79 | the previous content, or its absence, is put back |
| RouteFiles.CaddyFileRouteManager.Activate | crates/sakala-agent-runtime/src/routing/caddy_file.rs:191-204 | it succeeds exactly without a fault; then exactly the project's file is new; on failure every route file is as it was, unless the rollback fails; no other project's file changes |
| RouteFiles.CaddyFileRouteManager.RemoveRoute | crates/sakala-agent-runtime/src/routing/caddy_file.rs:81-130 | a file is removed exactly if it carries the generation; it fails exactly for a foreign file or a fault |
| RouteFiles.CaddyFileRouteManager.Deactivate | crates/sakala-agent-runtime/src/routing/caddy_file.rs:206-222 | true means that generation's file is gone and nothing else changed; false and errors mean nothing changed, unless the rollback fails; it fails exactly for a foreign file or a fault; no other project's file changes |
| RouteFiles.CaddyFileRouteManager.CleanupStaleRoutes | crates/sakala-agent-runtime/src/routing/caddy_file.rs:224-246 | with other activations interleaved: it removes exactly the stale routes whose file still carries its generation when its turn comes, each unknown at discovery; the count is the number of files removed; it fails only with discovery, for a foreign file or for a fault |
| RouteFiles.RewrittenRouteSurvives | crates/sakala-agent-runtime/src/routing/caddy_file.rs:103-121 | a project that was activated for another deployment since discovery keeps its route |
| Node.RoutesNameContainers | crates/sakala-agent-runtime/src/executor/docker.rs:290-319 | in every run of deployments, stops, sleeps, wakes, restarts, route refreshes and stale-route cleanups, a route file names a container the agent has not removed |
| Node.DeploySettles | crates/sakala-agent-runtime/src/executor/docker.rs:404-478 | each step of a deployment keeps what its next step relies on: previous containers go only behind the cutover, a candidate only while nothing routes to it |
| Node.LifecycleSettles | crates/sakala-agent-runtime/src/executor/docker.rs:518-618 | each step of a stop, sleep, wake, restart or refresh does so too: a container goes only behind its route |
| NodeOutcomes.DeployReplaces | crates/sakala-agent-runtime/src/executor/docker.rs:404-478 | a deployment that may start and meets no fault leaves its project with the new container, running and routed, and no other; nothing else changes |
| NodeOutcomes.FailureRollsBack | crates/sakala-agent-runtime/src/executor/docker.rs:290-311 | wherever a deployment fails before its cutover, its cleanup puts the node back as it was |
| NodeOutcomes.StaysOnTheWay | crates/sakala-agent-runtime/src/executor/docker.rs:395-430 | until a step fails, a deployment that has not cut over is where FailureRollsBack takes up |
| NodeOutcomes.StopTakesAway | crates/sakala-agent-runtime/src/executor/docker.rs:559-618 | a sleep stops the container and takes its route away; a stop also removes it |
| NodeOutcomes.ReviveRestores | crates/sakala-agent-runtime/src/executor/docker.rs:538-557 | a restart or wake ends with the container running and its project's route naming it |
| NodeOutcomes.SleepThenWake | crates/sakala-agent-runtime/src/executor/docker.rs:559-637 | a sleep and a wake together change nothing |
| NodeOutcomes.RefreshRoutes | crates/sakala-agent-runtime/src/executor/docker.rs:662-672 | a refresh makes the project's route name the container |
| Admission.AdmitsSafely | crates/sakala-agent-runtime/src/containers/docker.rs:120-153 | what the capacity check lets in fits at that moment, also when replacements make containers outnumber projects |
| Admission.CapacityDecision | crates/sakala-agent-runtime/src/containers/docker.rs:120-153 | the capacity check lets in exactly a project with a running container, and any project while fewer containers than the limit run; else it gives the lock back |
| Admission.ReplacementIsAdmitted | crates/sakala-agent-runtime/src/containers/docker.rs:141-144 | in no run is a deployment of a project with a running container refused for capacity |
| Admission.SafeIffReserved | crates/sakala-agent-runtime/src/executor/docker.rs:404-427 | running and admitted projects together fit the limit exactly if the node is within it now and after the container start that was admitted |
| Admission.AdmissionBoundIff | crates/sakala-agent-runtime/src/executor/docker.rs:404-427 | in every run from within the limit: it is kept throughout, also for an admitted start, if and only if every restart and wake that starts a container finds room for its project |
| Admission.AdmissionBound | crates/sakala-agent-runtime/src/executor/docker.rs:404-427 | with room for every restart and wake, no interleaving of concurrent deployments, stops, crashes, restarts and wakes has more projects running than the limit, redeployment surges included |
| Admission.WakeOverruns | crates/sakala-agent-runtime/src/executor/docker.rs:620-637 | waking a sleeping project on a node that is full always exceeds the limit by one project |
| Admission.RestartOverruns | crates/sakala-agent-runtime/src/executor/docker.rs:538-548 | a run in which a restart exceeds the limit, since it takes no admission lock |

## Left out

- RedactorTheorems.PassIsIdempotent: leaves out authorization, for which it does not hold; the exact condition is `RedactorTwice.SecondPassIdleIff`.
- DeliveryOrder.ExactlyOnceInOrder: assumes that no caller is dropped on its way through `flush_pending`, because a drop there loses the batch; `InOrderIffTimely` and `AtMostOnce` say what remains.
- DeliveryProgress.NoLostWakeup: assumes that no caller is dropped; a drop may leave pending lines without a timer, until the next call (`OnlyDropsEndAttendance`, `NextCallRestoresAttendance`).
- DeliveryProgress.FullBatchIsFlushed: assumes the same, with the same remainder.
- DeliveryDrains.EverythingCanBeDelivered: says that delivery can be completed, not that it will be; whether requests arrive and are answered is up to the network.
- Drain.DrainCompletes: likewise says that a drain can be completed; when tasks end is up to them.
- Node.RoutesNameContainers: leaves out `cleanup_failed_candidate`, which does not look at routes, containers removed by hand, and rollbacks that fail.
- RouteFiles.CaddyFileRouteManager.CleanupStaleRoutes: does not say that no live route is removed; the known set is taken before the directory is read.
- Commit.CommitAgreement: models the processor and the deployment as one state machine over their polls rather than as asynchronous code.
- RouteFiles.CaddyFileRouteManager.Activate: models a call that is not dropped between the rename and the end of the reload.
- What a value is apart from the redactor's own rule for where it ends: an escaped quote ends a quoted value, white space an unquoted one, and the rest stays in the line.
- The width of `usize` and `u64` counters, which would take exabytes of log lines to overflow.
- Directory entries that are not regular files, and Caddy's own reload after a rollback.
- Early exits of `run_deployment` before admission other than as a failing step: payload validation, resource limits, disk space, checkout.
- Log followers, health checks, startup recovery and image cleanup: no invariant of their own worth the model.
- HTTP, JSON, TLS, the Docker and Caddy command lines, clocks and randomness: outcomes, timers and fresh ids are events or parameters.
- Configuration, command line, telemetry and heartbeat payloads: plumbing, field by field.
- `append_bounded`, `can_transition`, resource limit resolution and `parse_reclaimed_bytes`: finite or single-branch.
