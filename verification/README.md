# Verified model of pty-mcp's streaming and concurrency kernel

pty-mcp serves terminal sessions (local, SSH, serial, remote through ai-tmux) to MCP clients over JSON-RPC. This project
models the parts of it where bytes, locks and requests meet, and proves what they guarantee over every run:

- **Output streams.** `RingBuffer` is the circular buffer, proved against the unbounded log of everything ever written.
  On it sit three kinds of reader: cursor reads with chunking (`RingBuffer`), any number of `ReadScreen` calls that share the
  consumed mark (`MarkDelivery`), and the blocking line matcher `waitForPattern` (`Lines`, `Matcher`, `Cuts`, `WaitFor`,
  `WaitForTheorems`, `WaitForEnds`, `SuccessiveWaits`), woken through a channel of capacity one (`Wakeup`).
- **Requests and sessions.** `Inflight` and `Serve` are the in-flight registry and the request goroutines of the stdio and
  HTTP transports; replies follow sections 4.1 and 5 of the JSON-RPC 2.0 specification. `SessionLocks`, `Sessions`,
  `Secrets` and `Injection` are the per-session locks, the session table, and on top of the locks the pending secrets and the
  single-use credentials of `inject_secret`. `ServeRuns` and `InjectionRuns` say what their runs come to in terms of the steps
  taken.
- **The ai-tmux protocol.** `RemoteCall` is the request/response pairing on one connection, `RemoteOutput` what becomes of
  the output in the replies, `AiTmux` the double-checked registration of sessions in the server.
- **Bounded stores.** `LogRotator`, `AuditQueue`, `ConfigFile`, `AuditToggle` and `AuditRoundTrip` are the rotating log
  files, the drop-oldest audit queue, and the audit-url switch of the config file together with the reader of that file.

Objects whose methods run under one mutex are classes; each method's postcondition equates the new state with a function of
the old one, and the theorems are about those functions. Concurrent protocols are state machines with one step per critical
section or channel operation and any number of participants: `Next` maps a state and a step to the next state, a step that
is not enabled changes nothing, and `Run` folds a sequence of steps, so a statement about `Run(steps)` for all `steps` is a
statement about every reachable state. Safety has its other half beside it: which steps of a run led to a state, and what can
follow from it.

`waitForPattern` is a method over a `RingBuffer` that takes the writers' part as a script: for each of its visits to the
buffer, the bytes that arrive before `ReadSince`, between it and `IsTruncated`, and between that and `Snapshot`, and what
`isAlive` answers; or the end of its context. That every interleaving of the call with writers, one step per critical section
or channel operation, is such a script, and every such script an interleaving, is proved in `Wakeup`. Escape-sequence
stripping and the pattern are arbitrary functions (`Config.strip`, `Config.matches`). In plain-text mode (`PlainSearch`) a
line counts as showing the needle if the needle is in it once it is stripped, whatever stripping does; the only thing asked of
it is that of nothing it makes nothing. Some theorems also ask that a text strip by parts (`StripsByParts`): a beginning of a
line, stripped, is a beginning of the stripped line. Removing carriage returns does that
(`Matching.DroppingBytesStripsByParts`), and so does dropping the bytes of a character that is not complete; removing an
escape sequence that a read cuts in two need not.

`dafny verify dfyconfig.toml` checks the whole project.

## Where the code falls short of a simple promise

Each of these comes with an input or a run that shows it and with the exact condition under which the code does better.

- What `wait_for` reports can depend on how the stream is cut into reads. A regular expression that matches the empty line
  fires after a read that ends with a newline (`Cuts.EmptyLinePatternDependsOnCuts`), and one may match a partial line that the
  next read completes, so that even of a text that always matches different lines can be reported
  (`Cuts.ReportedLineDependsOnCuts`). What is reported is the first line that hits of the text at the end of the first read
  after which some line hits (`Cuts.FoldReportsExactly`). So whether something matches does not depend on the cuts exactly when
  the text itself has a line that hits or no beginning of it has one (`Cuts.MatchingIsTheSameForAllCutsExactlyWhen`); which
  line, by number or letter by letter, exactly when every beginning that has a line that hits picks the text's own
  (`Cuts.ReportedNumberIsTheSameForAllCutsExactlyWhen`, `Cuts.ReportedLineIsTheSameForAllCutsExactlyWhen`). In plain-text mode
  neither the match nor the number of its line depends on them for text that strips by parts (`Cuts.PlainFold`,
  `Cuts.PlainNumberIsTheSameForAllCuts`); for other text they can, as an escape sequence cut in two leaves a piece of itself
  behind that may match (`Cuts.EscapeSequenceDependsOnCuts`), with the same exact condition.
- `ReadSince` and `Snapshot` are two critical sections in `waitForPattern`, so bytes written in between are never tested
  (`WaitForTheorems.GapLosesALine`). A run reads the stream exactly when it loses nothing
  (`WaitForTheorems.ConsumesStreamExactly`), and it loses nothing exactly when in the visits it makes nothing is written in
  those windows and never more is unread than the ring holds (`WaitForTheorems.RunsLoseNothingExactlyWhenQuiet`).
- After a match the mark moves to the end of the log, past lines read but not tested and past anything written since
  (`SuccessiveWaits.NextCallMissesALine`; exactly what is missed: `SuccessiveWaits.NextCallMissesExactly`).
- `AdvanceMarkBy` counts from the mark as it is then, not as the reader saw it. After overwriting bytes are returned twice
  (`MarkDelivery.OverwritingRedelivers`); two reads of a session that overlap, as the ai-tmux server allows, can skip a byte
  that is still retained (`MarkDelivery.OverlapSkips`), and a write between a read's last look and its completion makes it skip
  the output of the command written (`MarkDelivery.MarkSkipsTheOutput`). Bytes are delivered without repetition exactly when
  no read started before the end of an earlier one, and all of them exactly when each started right there
  (`MarkDelivery.RunsDeliver`); a retained byte is skipped exactly when a completion moves the mark past everything delivered
  by then, over something the ring still holds (`MarkDelivery.RetainedBytesAreSkippedExactlyWhenOutrun`), which reads that do
  not overlap with anything that moves the mark never do (`MarkDelivery.SeparateReadsDeliver`).
- The `is_truncated` flag of cursor reads is documented as "data was overwritten before you read it". It is taken in a
  second critical section and can be raised although nothing was lost (`Ring.FlagCanBeSpurious`). When it is right is said by
  `Ring.FlagIsRightExactlyWhen`; a false flag is reliable for
  cursors that are neither negative nor ahead of the log when the data was taken (`Ring.FlagNeverMissesLoss`).
- On both transports a request cancelled while it waits for a slot may still run its handler (`Serve.SelectMayRunCancelled`),
  as a select with two ready cases takes either. A cancelled request can still run exactly while it is in that select or has a
  slot (`Serve.CancelledRequestsMayRunExactlyWhen`); over stdio one cancelled before its goroutine first looks cannot
  (`Serve.EarlyCancelNeverRuns`).
- A credential can be consumed for a session that is gone, when the idle reaper removes the session after the second look
  (`Injection.ReaperBurnsInARun`, `Injection.ReaperCanBurn`). From that look on the session is gone exactly if something that
  does not take its lock removed it (`Injection.SessionStaysForTheCall`).
- After a read that failed (`RemoteCall.DeadScannerPilesUp`) or brought the unterminated end of a connection
  (`RemoteCall.BrokenLinePilesUp`), `RemoteSession.call` can leave several requests outstanding: one more for each request
  written after it, and never otherwise (`RemoteCall.OutstandingExactly`).
- A create that is between its two checks while the ai-tmux server is swept at shutdown registers a session that nobody closes
  (`AiTmux.SweepMissesACreate`); the sessions a swept server has left are exactly those registered since and not closed
  (`AiTmux.SweptServerHasLeftExactly`).
- A cancelled `ReadScreen` of a remote session leaves the cached output for "whichever call reads next", but the next write
  replaces it (`RemoteOutput.OutputIsLostInARun`, `RemoteOutput.WriteAfterCancelledReadLoses`; exactly when:
  `RemoteOutput.OutputIsLostExactlyWhen`); and a read that overlaps a poll can put its output into the local buffer out of order
  (`RemoteOutput.OverlapSwapsOutputInARun`, `RemoteOutput.OverlapSwapsOutput`; exactly when:
  `RemoteOutput.OutputIsInOrderExactlyWhen`, `RemoteOutput.QuietOutputIsInOrderExactlyWhen`).
- Overlapping `enqueue` calls can lose the newest audit entry without counting it (`AuditQueue.NewestIsLostInARun`,
  `AuditQueue.OverlapCanLoseTheNewest`; exactly when: `AuditQueue.EntryIsLostExactlyWhen`).
- Disable-then-enable of audit-url drops a second carriage return at the end of a line, and switches the wrong line when a
  commented one comes first (`AuditRoundTrip.SomeFilesComeBackChanged`; exactly when lines come back:
  `AuditToggle.RoundTripRestoresLines`; exactly when the file reads the same:
  `AuditRoundTrip.RoundTripKeepsTheMapExactlyWhen`).

## Model

| member | source | states |
|---|---|---|
| Ring.RingBuffer.constructor | internal/buffer/ring.go:24-31 | a new buffer agrees with the empty log, mark at 0, no token |
| Ring.RingBuffer.Write | internal/buffer/ring.go:36-56 | appends the bytes to the log whatever their number; head stays `written % size`, every retained log byte stays in its slot, and a token is in the channel afterwards |
| Ring.RingBuffer.Put | internal/buffer/ring.go:40-45 | one byte of that loop: only the byte one lap back is overwritten |
| Ring.RingBuffer.Snapshot | internal/buffer/ring.go:60-64 | the length of the log |
| Ring.RingBuffer.IsTruncated | internal/buffer/ring.go:68-75 | whether the cursor lies before `written - size` |
| Ring.RingBuffer.CopyOut | internal/buffer/ring.go:112-118 | the wrapped copy loop returns a stretch of the log, all indices in range |
| Ring.RingBuffer.ReadSinceMax | internal/buffer/ring.go:81-122 | for every cursor and limit: the log from the clamped cursor to the returned one, and has_more exactly when the returned cursor is before the end; all that is retained from there if the limit is 0 or less, otherwise never more than the limit and less only at the end; nothing for a cursor beyond the end |
| Ring.ReadsMean | internal/buffer/ring.go:81-122 | from log, size, cursor and limit alone: where a read starts and how many bytes it brings |
| Ring.RingBuffer.ReadSince | internal/buffer/ring.go:126-163 | for every integer cursor: the log from the clamped position on |
| Ring.RingBuffer.Contents | internal/buffer/ring.go:196-217 | `String`: everything retained |
| Ring.RingBuffer.SinceMark | internal/buffer/ring.go:221-226 | `Since`: the log from the mark on, whatever is written between its two critical sections |
| Ring.RingBuffer.Mark | internal/buffer/ring.go:239-243 | moves the mark to the end of the log |
| Ring.RingBuffer.AdvanceMarkBy | internal/buffer/ring.go:249-256 | advances the mark, at most to the end of the log |
| Modular.ReadSlot | internal/buffer/ring.go:112-116 | the computed start index is never negative and leads to the slot the byte was written to |
| Ring.DrainIsOneRead | internal/mcp/tools.go:776-793 | feeding the returned cursor back until has_more is false terminates and the pieces concatenate to the unlimited read, all but the last exactly as long as the limit |
| Ring.CollectIsContiguous | internal/buffer/ring.go:81-122 | with any writes between the reads the pieces are one contiguous stretch of the log exactly when no cursor was overwritten |
| Ring.TruncatedMeaning | internal/buffer/ring.go:68-75 | the flag means "retained data starts after the cursor" exactly for non-negative cursors and those before `written - size` |
| Ring.FlagNeverMissesLoss | internal/mcp/tools.go:776-793 | a false is_truncated guarantees the data starts at the cursor, whatever was written between the two critical sections |
| Ring.FlagIsRightExactlyWhen | internal/mcp/tools.go:776-793 | for every cursor, when the flag taken in the second critical section tells whether the data starts after the cursor |
| Ring.FlagCanBeSpurious | internal/mcp/tools.go:776-793 | a buffer and a write between the two sections that raise the flag although nothing was lost |
| Wakeup.Next | internal/mcp/tools.go:516-667 | the steps of any number of writers and of one waitForPattern call, by critical section and channel operation |
| Wakeup.NoLostWakeup | internal/buffer/ring.go:36-56 | in every interleaving a parked reader with bytes beyond its snapshot has a token, or a writer is between its unlock and its send |
| Wakeup.EveryRunIsAScript | internal/mcp/tools.go:600-620 | every interleaving of a call with the writers ends as one of the scripts WaitForPattern is proved for |
| Wakeup.EveryScriptIsARun | internal/mcp/tools.go:516-667 | the converse: every script is played by some interleaving |
| Wakeup.AnnouncedOutputIsTested | internal/buffer/ring.go:168-175 | from every state with the call parked and bytes unread, sends under way wake it and it tests all of them without a new write |
| Wakeup.EveryContinuationTestsAll | internal/mcp/tools.go:600-660 | from a parked call that lost nothing and whose unread bytes fit the ring, every continuation without a write or timeout that comes to rest has tested everything since the mark |
| Wakeup.WrittenLineIsReported | internal/mcp/tools.go:600-660 | in plain-text mode every such continuation has reported the first line since the mark that shows the needle, stripped, and not matched exactly if there is none |
| MarkDelivery.Next | internal/aitx/ptysession.go:203-239 | the steps of the writers, of any number of readers of one session, whose Since takes two, and of Write and WriteRaw, none of which takes a lock |
| MarkDelivery.WaitForSettleCtx | internal/pty/helper.go:88-124 | the polling loop of one reader returns its last observation of the bytes since the mark and consumes nothing |
| MarkDelivery.ReadScreen | internal/aitx/ptysession.go:223-239 | one reader's completed call returns that observation and advances the mark as the machine's Complete step, a cancelled one returns nothing and leaves it |
| MarkDelivery.RunsDeliver | internal/aitx/ptysession.go:223-239 | over every run no byte is delivered twice or out of order exactly when no completed read started before the end of an earlier one, and everything up to the front is delivered exactly when each started right there |
| MarkDelivery.RetainedBytesAreSkippedExactlyWhenOutrun | internal/buffer/ring.go:249-256 | over every run, overwriting or not, a retained undelivered byte is passed by a completion exactly when it moves the mark past everything delivered over something still retained |
| MarkDelivery.SeparateReadsDeliver | internal/aitx/ptysession.go:223-239 | for reads between whose reading of the mark and completion the mark does not move: nothing retained is skipped, and, no write moving the mark over output, all is delivered once and in order exactly when no read found its mark overwritten |
| MarkDelivery.StepDelivers | internal/buffer/ring.go:221-256 | every step of readers, writers and Mark keeps that account and never moves the mark back |
| MarkDelivery.CancelledReadsMoveNothing | internal/aitx/ptysession.go:231-236 | a run is the same for everyone else without a reader that never completes |
| MarkDelivery.OverwritingRedelivers | internal/buffer/ring.go:249-256 | a run in which an overwritten mark makes a byte be delivered twice |
| MarkDelivery.OverlapSkips | internal/aitx/server.go:73-92 | two overlapping reads after which a retained byte is skipped for good |
| MarkDelivery.MarkSkipsTheOutput | internal/aitx/ptysession.go:203-211 | a Write between a read's last look and its completion, after which the command's own output is skipped |
| Lines.JoinSplit | internal/mcp/tools.go:544-548 | the split lines joined by newlines are the text |
| Lines.SplitHasNoNewline | internal/mcp/tools.go:544-548 | no split line contains a newline |
| Lines.SplitConcat | internal/mcp/tools.go:625-632 | later text only touches the carried last line: splitting remainder plus chunk continues the split of the whole |
| Matching.FeedExplains | internal/mcp/tools.go:543-586 | for every pattern, one read keeps the matcher explained by the text consumed so far |
| Matching.ChunkIndependence | internal/mcp/tools.go:516-666 | for every pattern and every way of cutting the stream: while nothing matched, the non-empty lines tested are its non-empty complete lines in order, no line hits, and the remainder is the text after the last newline; a match is the first line of the text read that hits |
| Cuts.FoldReportsExactly | internal/mcp/tools.go:516-666 | for every pattern and every cutting, something matches exactly when at the end of some chunk some line of the text so far hits, and the first such line of that text is reported |
| Cuts.MatchedTextIsTheFirst | internal/mcp/tools.go:516-666 | that text is the shortest beginning that ends with a chunk and has a line that hits |
| Cuts.MatchingIsTheSameForAllCutsExactlyWhen | internal/mcp/tools.go:543-666 | whether a text matches is independent of the cutting exactly when the text itself has a line that hits or no beginning of it has one |
| Cuts.ReportedLineIsTheSameForAllCutsExactlyWhen | internal/mcp/tools.go:543-666 | the text of the reported line is independent of the cutting exactly when every beginning with a line that hits has the whole text's own as its first |
| Cuts.ReportedNumberIsTheSameForAllCutsExactlyWhen | internal/mcp/tools.go:543-666 | the same for the number of the reported line |
| Cuts.PlainNumberIsTheSameForAllCuts | internal/mcp/tools.go:556-566 | in plain-text mode, for text that strips by parts, that number does not depend on the cutting |
| Cuts.EscapeSequenceDependsOnCuts | internal/pty/helper.go:10-24 | for other text it can: a piece of an escape sequence cut in two matches, the whole sequence does not |
| Cuts.EmptyLinePatternDependsOnCuts | internal/mcp/tools.go:544-548 | a pattern that matches the empty line fires on one cutting of a text and not on another |
| Cuts.ReportedLineDependsOnCuts | internal/mcp/tools.go:565-580 | two cuttings of one text that report different lines |
| Matching.PlainMatch | internal/mcp/tools.go:556-566 | in plain-text mode, whatever stripping does, the matcher reports the first line of the text read that shows the needle, and reports none exactly when there is none |
| Cuts.PlainFold | internal/mcp/tools.go:516-666 | for every cutting of a text that strips by parts: a match is a beginning, raw and stripped, of the first line that shows the needle, no match means no line does |
| Matching.DroppingBytesStripsByParts | internal/pty/helper.go:10-24 | a text strips by parts if stripping only takes out single bytes, carriage returns for one |
| Matching.MatchSurvives | internal/mcp/tools.go:588-607 | output after the match can only lengthen the matched line, which stays the first that shows the needle if the text strips by parts |
| WaitFor.BuildMatchResult | internal/mcp/tools.go:669-694 | the result record of a match; ContextIsTail says what its context is |
| WaitFor.ContextIsTail | internal/mcp/tools.go:680-692 | the context is the last ContextLines + 1 collected lines |
| WaitFor.TailIsLastN | internal/mcp/tools.go:715-724 | the tail is the last TailLines collected lines |
| WaitFor.WindowIsEnough | internal/mcp/tools.go:530-554 | every context and tail built from the last `maxCollected` lines, with or without the trailing partial line, equals the one built from all lines |
| WaitFor.WindowIsEnoughExactlyWhenItFits | internal/mcp/tools.go:530-533 | the window shows what the whole history would for every history exactly when neither count exceeds it, which clamped counts never do |
| WaitFor.Collect | internal/mcp/tools.go:551-554 | append and trim keep the last `max` lines |
| WaitFor.TestLines | internal/mcp/tools.go:549-568 | the line loop stops at the first line that hits and keeps the window of the history |
| WaitFor.Consume | internal/mcp/tools.go:622-660 | one pass over freshly read text has exactly the effect of Feed on the whole history |
| WaitFor.Look | internal/mcp/tools.go:615-619 | the three critical sections of a visit with the writers' bytes between them |
| WaitFor.Expired | internal/mcp/tools.go:602-612 | the timeout branch gives the result the whole history gives, the partial line included |
| WaitFor.WaitForPattern | internal/mcp/tools.go:516-667 | for every interleaving the call with its bounded window returns what the specification with the full history and the log returns |
| WaitForTheorems.RunKeepsAccount | internal/mcp/tools.go:516-667 | for every pattern and run the bytes read, overwritten and skipped add up to the bytes after the mark, overwriting is always flagged, and the result reports the first line that hit in what was read |
| WaitForTheorems.ConsumesStreamExactly | internal/mcp/tools.go:537-542 | what was read is the log between mark and snapshot exactly when nothing was overwritten or written inside the two-section window |
| WaitForTheorems.UnmatchedRunTestsTheLog | internal/mcp/tools.go:616-632 | in an unmatched run that lost nothing the lines tested and the text carried are those of the log itself |
| WaitForTheorems.PlainWaitIsExact | internal/mcp/tools.go:543-666 | in plain-text mode, nothing lost, whatever stripping does: the match line is the first line after the mark that shows the needle, stripped, and stays a beginning of it if the text strips by parts; timeout, termination or still waiting means no line shows it |
| WaitForTheorems.RunsLoseNothingExactlyWhenQuiet | internal/mcp/tools.go:615-619 | a run loses nothing exactly when in the visits it makes no write falls into the two-section window and never more is unread than the ring holds |
| WaitForTheorems.GapLosesALine | internal/mcp/tools.go:537-542 | an interleaving in which a line written in the window is never tested and the call times out |
| WaitForEnds.EveryRoundDecides | internal/mcp/tools.go:600-667 | for every script and each round of it: a look ends an undecided call with a match if a line has hit, else with session terminated exactly if something had arrived and the session is dead, else not at all; a timeout always ends it; with the whole result each time, context and tail included |
| WaitForEnds.FailuresSayWhy | internal/mcp/tools.go:602-660 | a result other than a match carries session terminated exactly if the call ended in a look of its loop that had something to read and found the session dead, and timeout exactly if it ended in one |
| WaitForEnds.UndecidedSawNoEnd | internal/mcp/tools.go:602-660 | a call without a result has met no timeout, and a live session at every look that had something to read |
| WaitForEnds.LiveSessionsMatchOrWait | internal/mcp/tools.go:602-660 | with every visit alive and no timeout the call has matched or still waits |
| SuccessiveWaits.NextCallMissesExactly | internal/mcp/tools.go:766-770 | for every run that matched, bytes lost or not: what neither this call nor the next one tests is, besides what was lost, the text read after the matched line and what was written before the mark moved; nothing but newlines exactly when no non-empty line follows and nothing else was written |
| SuccessiveWaits.NextCallMissesALine | internal/mcp/tools.go:766-770 | a run that loses nothing and after which a line read is never tested |
| Inflight.InflightRegistry.Add | internal/mcp/server.go:224-230 | appends a new, uncancelled entry to the entries of the key |
| Inflight.InflightRegistry.Cancel | internal/mcp/server.go:234-241 | marks every entry of the key and cancels exactly their contexts |
| Inflight.InflightRegistry.Finish | internal/mcp/server.go:246-262 | removes exactly that entry, drops an empty list, and reports whether it was marked |
| Inflight.WithoutRemoves | internal/mcp/server.go:250-255 | removing in place takes out that entry and no other, and keeps the list free of duplicates |
| Inflight.ScopedKeysAreDistinct | internal/mcp/http.go:173-223 | two scoped keys are equal exactly when session and id are, so a cancellation stays in its session |
| Serve.CancelKey | internal/mcp/server.go:269-283 | the key a cancellation names: the request id, or the older alias if that is empty; none for an empty or null id (ServeRuns.NoticesLinearise states it over the steps) |
| Serve.Next | internal/mcp/server.go:312-375 | the steps of the reader loop and of each request's goroutine, and those of the HTTP dispatch |
| Serve.StepKeepsInv | internal/mcp/server.go:312-375 | every step keeps registry, semaphore and each goroutine's bookkeeping consistent |
| Serve.CancellationLinearises | internal/mcp/server.go:334-374 | finish reports true exactly when a cancellation of the key fell between the request's add and its finish, with ids reused freely; at most one response, none when cancelled, none for notifications |
| Serve.CancellationReachesTheContext | internal/mcp/server.go:234-241 | a request cancelled in flight has its context done |
| Serve.SlotsAreBounded | internal/mcp/server.go:23-27 | at most 32 slots are taken, exactly by the goroutines between acquire and release |
| Serve.NothingIsLeftBehind | internal/mcp/server.go:337-374 | once all goroutines have ended registry and semaphore are empty, and a request whose handler ran was answered exactly if not cancelled |
| Serve.EndedRequestsAreAnswered | internal/mcp/server.go:337-374 | an ended stdio request was answered exactly once unless it was cancelled while in flight; an HTTP one unless cancelled or its client went away before it ran |
| Serve.HandlersCanRunExactlyWhen | internal/mcp/server.go:341-365 | from every reachable state a handler that has not run can still run exactly if its goroutine has neither given up nor ended nor is about to find its context done |
| Serve.CancelledRequestsMayRunExactlyWhen | internal/mcp/server.go:351-362 | on either transport a cancelled request whose handler has not run can still run exactly while it is in the select or has a slot |
| Serve.EarlyCancelNeverRuns | internal/mcp/server.go:341-350 | a stdio request cancelled before its goroutine first looks never runs its handler in any continuation |
| Serve.SelectMayRunCancelled | internal/mcp/http.go:190-203 | over HTTP as over stdio a request cancelled in the select may get a slot and run |
| ServeRuns.CancellationsAreNotices | internal/mcp/server.go:269-283 | in every run the cancellations of a key are exactly the notices that name it, by request id or, that being empty, by the older alias |
| ServeRuns.NoticesLinearise | internal/mcp/server.go:312-375 | over the steps: finish reports true exactly if between the step that added the request and the one that finished it some notice named its key, by request id or by the older alias, the key being neither empty nor null |
| ServeRuns.ContextIsDoneExactlyWhen | internal/mcp/http.go:173-223 | until its finish a request has its context done exactly if a notice has named it since it was added or, over HTTP, its client has gone |
| ServeRuns.CancelledWaiterCanGiveUp | internal/mcp/server.go:351-362 | a cancelled request in the select can leave it there and then, unrun and unanswered |
| ServeRuns.EveryGoroutineCanEnd | internal/mcp/server.go:334-374 | from every reachable state every request can come to its end |
| SessionLocks.Next | internal/session/session.go:207-241 | the steps of LockSession, UnlockSession and sessionLockChan |
| SessionLocks.StepKeepsInv | internal/session/session.go:207-241 | every step keeps channels permanent and tokens with their holders |
| SessionLocks.MutualExclusion | internal/mcp/tools.go:900-944 | in every reachable state two holders of one session's lock are the same handler, close and detach included |
| SessionLocks.NoUnlockDefaults | internal/session/session.go:218-223 | in every run UnlockSession never takes its default branch |
| SessionLocks.FullExactlyWhenHeld | internal/session/session.go:207-214 | a session's channel is full exactly while some handler holds its lock |
| SessionLocks.WaitersShareTheChannel | internal/session/session.go:225-241 | every waiter of a session is on its one channel, the one the holder empties |
| SessionLocks.WaiterGetsIn | internal/session/session.go:218-223 | the holder's own two unlock steps always let a given waiter in |
| SessionLocks.HandlersCanQueueAndLeave | internal/session/session.go:207-241 | a handler that arrives can always queue on its session's one channel, and one that is queued can leave when its context is done, touching nothing else |
| SessionLocks.GivesUpExactlyWhen | internal/session/session.go:207-214 | in every run a handler has given up exactly if its context was done while it was queued |
| Sessions.Manager.Add | internal/session/session.go:108-126 | registers the session, or closes it when 50 are registered |
| Sessions.Manager.Get | internal/session/session.go:128-140 | finds the session and updates its last use |
| Sessions.Manager.Close | internal/session/session.go:167-180 | removes session, info and pending secret, and closes the session once |
| Sessions.Manager.Detach | internal/session/session.go:183-202 | the same, but a remote session is only disconnected |
| Sessions.Manager.ReapOnce | internal/session/session.go:67-89 | removes and closes exactly the idle sessions, each once; pending secrets stay |
| Sessions.Manager.TakeSecret | internal/session/session.go:257-266 | returns and removes the pending secret |
| Sessions.Manager.SetPendingSecret | internal/session/session.go:250-254 | stages a secret |
| Sessions.Manager.ClearSecret | internal/session/session.go:268-272 | removes a pending secret |
| Sessions.Manager.MaybeAutoSendSecret | internal/mcp/tools.go:1000-1013 | writes the pending secret at a password prompt, and otherwise leaves the pending secrets exactly as they were |
| Sessions.EverySessionHasOneOwner | internal/session/session.go:67-201 | in every reachable state both maps have the same keys, at most 50 sessions are registered, and each session passed to Add is registered, in the hands of one remover, or ended exactly once |
| Sessions.RegisteredExactlyWhen | internal/session/session.go:67-201 | in every run the table has exactly the sessions some Add registered and no later Close, Detach or sweep that found them idle took out |
| Sessions.TableKnowsLastUse | internal/session/session.go:108-140 | in every run the table records for each session the time of the last Add or Get that used it |
| Sessions.ReapedExactlyWhenIdle | internal/session/session.go:67-89 | a sweep takes out exactly the sessions whose last such use is longer ago than the limit |
| Sessions.AddRegistersBelowTheLimit | internal/session/session.go:108-126 | a new session is registered as it is below the limit of 50, and ended at once at it |
| Sessions.TakenOutCanBeEnded | internal/session/session.go:167-202 | what was taken out of the table can be ended, once |
| Secrets.Next | internal/mcp/tools.go:1000-1119 | the steps of the pending-secret handlers under the lock in any order the tools use |
| Secrets.SecretsAreUsedOnce | internal/mcp/tools.go:1000-1119 | over all interleavings each secret is written at most once and only to the session it was entered for |
| Secrets.SecretsAreInOnePlace | internal/session/session.go:249-272 | a secret in a handler's hand is not pending, not in another hand and not written |
| Secrets.RestoreReplacesNothing | internal/mcp/tools.go:1011-1012 | putting a taken secret back never replaces another |
| Secrets.NoSecretDisappears | internal/mcp/tools.go:1000-1119 | in every run a secret entered is staged, in hand or written unless a step gave it up, and written exactly if a step wrote it |
| Injection.Next | internal/mcp/credentials.go:139-208 | the steps of any number of inject_secret calls, with cancellation, removal of sessions and new credentials possible between any two |
| Injection.WhoBurnsWhat | internal/mcp/credentials.go:139-208 | over all runs a call has consumed a credential exactly if it got past the take: the exits before it leave the store alone; what it consumed no other call did |
| Injection.CredentialsAreTakenOnce | internal/mcp/credentials.go:35-56 | each stored credential is in the store, consumed once, or purged, and only one of these |
| Injection.QueuedInjectBurnsNothing | internal/mcp/credentials.go:163-176 | a call cancelled in the queue for the lock has consumed nothing, and in no continuation does it get the lock or consume anything |
| Injection.WritesAreSuccesses | internal/mcp/credentials.go:178-208 | contents are written at most once, to the session of the call that consumed them, and exactly if that call reports success |
| Injection.SessionStaysForTheCall | internal/mcp/credentials.go:169-176 | from the second look to the unlock the session is gone exactly if something removed it without its lock, and no other call works on it |
| InjectionRuns.EveryPlaceHasItsPath | internal/mcp/credentials.go:139-208 | in every run a call has met exactly the events its place says: each exit is reached exactly by the lookups, lock, take, decryption, look at the context and write that lead to it |
| InjectionRuns.CancelledBeforeTheLookNeverWrites | internal/mcp/credentials.go:194-199 | a call cancelled before it looks at its context writes nothing in any continuation |
| InjectionRuns.UndisturbedCallsSucceed | internal/mcp/credentials.go:178-208 | a call never cancelled, whose decryption and write succeed, that took a credential and exited reports success and has written the contents to its session |
| InjectionRuns.FailedCallsDoNotSucceed | internal/mcp/credentials.go:185-206 | a call whose decryption or write failed never reports success and has written nothing to the session |
| InjectionRuns.OpenExactlyWhen | internal/session/session.go:67-202 | in every run a session is open exactly if it was registered and nothing has removed it |
| InjectionRuns.PurgedExactlyWhen | internal/mcp/credentials.go:35-65 | in every run a credential was purged exactly if, when another was stored, it had expired or was replaced |
| Injection.ReaperCanBurn | internal/session/session.go:67-89 | from every state before the take the idle reaper can have the credential consumed for a session that is gone |
| Injection.ReaperBurnsInARun | internal/session/session.go:67-89 | a run from the start in which it does |
| Injection.CredentialStore.PurgeExpired | internal/mcp/credentials.go:58-65 | removes exactly the expired credentials |
| Injection.CredentialStore.Store | internal/mcp/credentials.go:35-44 | purges, then stores |
| Injection.CredentialStore.Take | internal/mcp/credentials.go:47-56 | returns and removes the credential, without looking at its expiry |
| RemoteCall.Next | internal/session/remote.go:96-132 | the steps of callers, connection and server |
| RemoteCall.HandBack | internal/aitx/server.go:77-92 | replying keeps the order and identity of what is outstanding |
| RemoteCall.EveryCallGetsItsOwnReply | internal/session/remote.go:96-132 | for every interleaving the response a call reads is the server's reply to its own request, with the same id |
| RemoteCall.OneRequestAtATime | internal/session/remote.go:96-132 | until a read fails or brings a broken line at most one request is outstanding |
| RemoteCall.NoReplyIsLost | internal/session/remote.go:96-132 | in every run each reply the server sent is still on its way or is what the one call it answers has got; while the scanner is not broken a done call holds its own reply unless its write failed, and then the write error |
| RemoteCall.DoneCallsHaveTheirReply | internal/session/remote.go:96-132 | the same of every done call, replies or not |
| RemoteCall.WriteErrorExactlyWhen | internal/session/remote.go:106-112 | in every run a call ends with the write error exactly if its write failed |
| RemoteCall.WaitingCallsGetTheirReply | internal/session/remote.go:96-132 | from every reachable state whose scanner is not broken a call that waits for the mutex can get in and get the reply to its request |
| RemoteCall.OutstandingExactly | internal/session/remote.go:96-132 | in every run at most one request is outstanding exactly when none was written after such a read; after one, each such write adds one |
| RemoteCall.DeadScannerPilesUp | internal/session/remote.go:307-314 | a run with two outstanding requests after a failed read |
| RemoteCall.BrokenLinePilesUp | internal/session/remote.go:116-126 | a run with two, no read having failed, after the unterminated last line of a connection |
| RemoteOutput.Next | internal/session/remote.go:159-338 | the steps of Write, ReadScreen and PollRemote around the output cache |
| RemoteOutput.EveryReplyIsInOnePlace | internal/session/remote.go:231-266 | in every interleaving each reply is in one call's hand, in the cache, once in the local buffer, or overwritten in the cache; what ReadScreen returned is in the local buffer |
| RemoteOutput.OnePoller | internal/session/remote.go:318-338 | at most one PollRemote is in its loop, and isPolling is set exactly while one is |
| RemoteOutput.ReadScreenReturnsWhatItFed | internal/session/remote.go:231-266 | in every run a read has returned exactly the reply it wrote to the local buffer, and nothing exactly if it found its context done or its call failed |
| RemoteOutput.ReadDelivers | internal/session/remote.go:240-265 | a read neither cancelled nor left without a reply returns what is cached, and without that the next reply, written to the local buffer and taken out of the cache |
| RemoteOutput.PollDelivers | internal/session/remote.go:318-338 | each tick of a poll can bring what is cached or the next reply into the local buffer |
| RemoteOutput.LocalBufferIsTheOutput | internal/session/remote.go:240-266 | when calls do not overlap the local buffer and the cache hold replies in the server's order, and a quiet session that overwrote nothing has all of them there, each once |
| RemoteOutput.OutputIsInOrderExactlyWhen | internal/session/remote.go:240-264 | the local buffer is in the server's order exactly when no call wrote a newer reply to it while an older one, written later, was in the cache or in another hand |
| RemoteOutput.QuietOutputIsInOrderExactlyWhen | internal/session/remote.go:240-264 | for runs that end quiet with nothing lost: exactly when no call fed a newer reply while an older one was in the cache or in another hand |
| RemoteOutput.OverlapSwapsOutput | internal/session/remote.go:240-264 | from every state with two readers waiting for replies the local buffer can end up in the wrong order |
| RemoteOutput.OverlapSwapsOutputInARun | internal/session/remote.go:240-264 | a run from the start in which it does |
| RemoteOutput.OutputIsLostExactlyWhen | internal/session/remote.go:159-249 | output is lost in a run exactly when two writes store their replies and no read takes the first in between |
| RemoteOutput.WriteAfterCancelledReadLoses | internal/session/remote.go:231-238 | from every quiet state with cached output a cancelled read followed by a write loses that output |
| RemoteOutput.OutputIsLostInARun | internal/session/remote.go:231-238 | a run from the start without overlap in which output is lost so |
| AiTmux.Next | internal/aitx/server.go:117-154 | the steps of createSession, closeSession, the reaper and closeAll |
| AiTmux.NoPtyIsLost | internal/aitx/server.go:117-154 | with any number of concurrent steps at most 100 sessions are registered and every PTY started is registered, held by one unfinished create, or removed for closing once |
| AiTmux.QuietServerOwnsEveryPty | internal/aitx/server.go:278-360 | when no create is under way every PTY is registered or was removed for closing |
| AiTmux.RegisteredExactlyWhen | internal/aitx/server.go:117-154 | in every run a session is registered exactly if some step registered it and no later one took it out |
| AiTmux.TableKnowsLastUse | internal/aitx/ptysession.go:203-229 | in every run the table holds for each session the time it was registered or last written to or read |
| AiTmux.ReapedExactlyWhenIdle | internal/aitx/server.go:328-347 | the reaper takes out exactly the sessions whose last use is longer ago than the limit |
| AiTmux.CreatesGoByTheirChecks | internal/aitx/server.go:117-154 | in every run a create starts a PTY only if its first check found room, and registers or closes it exactly as its second check found |
| AiTmux.SweptServerHasLeftExactly | internal/aitx/server.go:349-360 | after a closeAll the sessions left are exactly those registered since and not taken out |
| AiTmux.SweepMissesACreate | internal/aitx/server.go:139-147 | a run in which a create registers after the sweep and nobody closes its session |
| LogRotator.RotationConserves | internal/mcp/tools.go:481-497 | a rotation keeps the chain of backups and live file but for the oldest backup it replaces, and frees the live path |
| LogRotator.ShiftAt | internal/mcp/tools.go:481-497 | where each file is after the renames: every backup holds what stood one below, the oldest stays if nothing takes its place, the live path is free |
| LogRotator.WriteMoves | internal/mcp/tools.go:456-497 | a write that fits the limit changes no backup and is appended to the live file; any other moves each file up by one and starts the live file with its bytes, if that can be opened |
| LogRotator.RunsKeepASuffix | internal/mcp/tools.go:456-497 | after any writes, rotations and failed re-opens the chain is a suffix of everything ever logged, and size is the live length |
| LogRotator.WriteLosesOnlyTheOldest | internal/mcp/tools.go:456-468 | a write adds exactly the accepted bytes and loses exactly the oldest backup, only when it rotates |
| LogRotator.LiveFileFits | internal/mcp/tools.go:459-461 | after a successful rotating write the live file fits the limit or is that write |
| LogRotator.Rotator.constructor | internal/mcp/tools.go:434-454 | starts from whatever is in the directory; three backups unless a positive number is given |
| LogRotator.Rotator.Rotate | internal/mcp/tools.go:481-497 | the rename loop and the re-open have the specified effect |
| LogRotator.Rotator.Write | internal/mcp/tools.go:456-468 | the whole call, with partial writes and closed files |
| LogRotator.Rotator.Close | internal/mcp/tools.go:470-479 | closes; files and size stay |
| AuditQueue.Next | internal/audit/client.go:115-142 | the three selects of enqueue and those of the worker |
| AuditQueue.QueueConserves | internal/audit/client.go:115-142 | in every interleaving at most 256 entries are queued, accepted entries are the received ones in order followed by the queue, and dropped counts the drained |
| AuditQueue.NewestAlwaysGetsIn | internal/audit/client.go:115-131 | when enqueue calls do not overlap every entry gets in, whatever the worker does |
| AuditQueue.DrainsOnlyWhenFull | internal/audit/client.go:115-131 | in every run a call gets past its first send only if it found the queue full |
| AuditQueue.RoomIsTakenAtOnce | internal/audit/client.go:115-120 | a call that finds room puts its entry at the end and drains nothing |
| AuditQueue.QueuedEntriesReachTheWorker | internal/audit/client.go:133-142 | as long as the worker runs it can take every queued entry, from the front |
| AuditQueue.EntryIsLostExactlyWhen | internal/audit/client.go:115-131 | with any overlap, a call that found the queue full loses its entry exactly when between its drain and its last send others sent as many more than were received as the drain left room for |
| AuditQueue.OverlapCanLoseTheNewest | internal/audit/client.go:121-130 | from every state with a full queue two overlapping calls can drop the newest entry uncounted |
| AuditQueue.NewestIsLostInARun | internal/audit/client.go:121-130 | a run from the start in which they do |
| ConfigFile.ScanUnlines | main.go:298-323 | scanning a rewritten file gives its lines back but for one trailing carriage return each |
| ConfigFile.ReadKVFile | internal/config/config.go:104-118 | the scanning loop gives the map, or the number of the first malformed line |
| ConfigFile.ParseMeans | internal/config/config.go:104-117 | what a line means: nothing if blank or a comment, else what stands before and after its first equals sign, without the spaces around each; malformed without one |
| ConfigFile.ReadsTheLastValue | internal/config/config.go:104-117 | the map holds exactly the keys parsed, each with the value of its last line |
| AuditToggle.ToggleAuditURL | main.go:292-331 | switches exactly the first line that applies, rewrites the others as scanned, and reports change and placeholder |
| AuditToggle.RoundTripRestoresLines | main.go:292-331 | for every file disable then enable gives back its lines exactly when an active line comes before every commented one and no line ends in a second carriage return, or there is neither kind of line |
| AuditRoundTrip.RoundTripKeepsTheMapExactlyWhen | internal/config/config.go:104-117 | for every file readKV reads the same map or error after the round trip exactly when it had a malformed line, no commented line comes first, or the value of audit-url is left as it was |
| AuditRoundTrip.SomeFilesComeBackChanged | main.go:292-331 | two files whose lines do not come back, one for each reason |
| AuditToggle.DisableRemovesTheKey | main.go:315-320 | the disabled file has the key audit-url exactly when another line parses as it |

## Left out

- SSH, serial ports, PTY start, sockets, HTTP framing and JSON: library I/O, present only as steps or as well-formed values.
- StripANSI, ClassifyOutput, Redact, HasPrompt and regular expressions: arbitrary functions or flags; only plain-text search is defined.
- Time: settling, idle limits, expiry and timeouts are arbitrary moments or flags given to the step that uses them.
- Secret dialogs and environment probing: the secret an operator enters is an arbitrary value.
- Credential cryptography: whether a box decrypts is a flag of the step that decrypts.
- Injection.Next: calls and store are values in a state machine; audit entries and malformed parameters are left out.
- MarkDelivery.ReadScreen: the method runs one reader against the writers; other readers and Mark are in MarkDelivery.Next.
- RingBuffer.Tail and the size limits read from the environment; a buffer has at least one byte.
- Serve.Next: the response channel and its writer are not modelled, sending a response always succeeds; shutdown grace periods are left out.
- RemoteCall.Next: connection and callers are values in a state machine rather than objects; a failed write is taken to deliver nothing, and messages to be well formed.
- AiTmux.Next: the server's map is a value in a state machine, and a session is its id and last use, which begins when it is registered rather than when its PTY starts.
- SessionLocks.Next: channels and handlers are values in a state machine; who put a token into a channel is recorded.
- Wakeup.Next: one call; it starts from any log, mark, token and sends that earlier calls and writers may have left.
- Secrets.Next: a handler may take, stage, write or discard in any order under its lock, which covers the orders the tools use.
- Sessions.Next: ids are fresh, as random 64-bit ids are taken to be; a session that dies on its own stays registered.
- RemoteOutput.Next: replies are numbers in a state machine; their text, the reply's flags and parameters are left out.
- MCP session ids of the HTTP transport, batches, version negotiation, resize bounds, control-key tables, error classification.
- LogRotator.Rotator.Write: renames of existing files are taken to succeed.
- AuditToggle.ToggleAuditURL: file I/O errors and the scanner's limit of 64 KiB per line are left out.
- ConfigFile.ReadKVFile: missing files and the permission check are left out, as is the same line limit.
