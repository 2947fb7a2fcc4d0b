# ShellClaw: a verified model of its hardest parts

ShellClaw is an agent in C: it keeps chat sessions in SQLite, runs tools in a loop with a
language model, compacts long sessions, delivers scheduled messages, and talks to browsers
and other agents. This project models the parts whose correctness is not visible from one
function, each in the form the C code has, and proves what its comments, tests and formats
promise.

| file | what it models |
|---|---|
| Text.dfy | byte strings, `strcmp`, digits, blanks, well-formed UTF-8 (section 4 of RFC 3629) |
| Numbers.dfy | decimal numbers in text: `strtol`, `atoi`, `%d` |
| Compaction.dfy | replacing the oldest messages of a session by a summary |
| Anthropic.dfy | the message list sent to the Anthropic API |
| Session.dfy | one agent turn: load, compact, react, store; runs of turns |
| AgentMutex.dfy | main loop and HTTP threads interleaved over one session table |
| CronSchedule.dfy, CronOffers.dfy, CronRun.dfy | next-run search, the 16-slot re-offer table, whole runs of poll, handle, send and acknowledge |
| Jcs.dfy, JcsReader.dfy, JcsNumber.dfy | the RFC 8785 canonicalizer, a reader for its text, and its number layout |
| PathCollapse.dfy | lexical path collapse against kernel resolution with symlinks |
| ConfigPatch.dfy | patching a TOML file in place |
| WsQueue.dfy | WebSocket queues as linked lists, and the connection table |
| ManifestBackups.dfy, ManifestKeys.dfy | key rotation under write faults; sorting and pruning backups |
| Ulid.dfy | the identifier generator |
| RateLimit.dfy | the per-address request limiter |
| Chunks.dfy | cutting a reply into posts |

Loops and in-place updates are methods and classes; each is proved equal to a function of
its inputs or of the old state, and the theorems are about those functions and about runs
of them. A string is a sequence of bytes (one `char` per byte). cJSON values are datatypes,
SQLite tables are maps, and the clock, the random source, the provider, the tools, the
local-time conversion and the outcome of each file write are inputs.

## What turned out

Most promises hold. These hold only under the condition given, which is proved to be exact,
or fail on the inputs shown:

- Compaction consumes the oldest message exactly when its line fits or its role leaves room
  for a stub; a role just under the cap blocks its session (`Compaction.FirstMessageConsumed`,
  `Compaction.LongRoleBlocks`).
- A successful pass shrinks the session unless it stops at index 1 on an element without a
  string role (`Compaction.CountAfterPass`, `Compaction.RolelessMessageStalls`). Passes bring it
  within the limit unless one of them prints to more than its buffer
  (`Compaction.PassesReachLimit`, `Compaction.ControlSummaryFails`).
- Tool calls and results are paired exactly when every call carries an id
  (`Anthropic.RequestWellFormed`).
- Pieces of valid UTF-8 text are valid exactly for caps of at least four bytes
  (`Chunks.PiecesValidExactly`).
- The sleep before a re-offer ends early when a signal arrives, and its result is not looked at.
  The table is in step with the open offers exactly when every poll finds room for its job when
  the sleep is over (`CronRun.RunConsistentExactly`), which sleeps that are not cut short ensure.
  Two offers of one job are then more than `timeout - 1` ms apart less what was cut
  (`CronRun.RunOffersApart`); a cut sleep repeats the offer that much too soon
  (`CronRun.CutSleepRepeats`), and one that finds no room also spoils the next offer
  (`CronRun.LostOfferRepeats`).
- The milliseconds since an offer are rounded up when the nanoseconds borrow. Without a cut sleep
  two offers of one job are at least `timeout` apart when the deciding reading does not borrow,
  and for every timeout a run with two offers shows it missed when it does
  (`CronOffers.ElapsedShortExactly`, `CronRun.OffersApart`, `CronRun.OffersTooClose`).
- The minute search starts at the next whole minute exactly for instants since the epoch and
  whole minutes before it (`CronSchedule.SearchStart`).
- A weekday range that ends in 7, such as `5-7`, is parsed but matches no day, as 7 is rewritten
  to 0 after the split, so its schedule has no next run (`CronSchedule.RangeToSevenIsEmpty`,
  `CronSchedule.RangeToSevenHasNoRun`).
- A patched TOML key is read back exactly when its line is not spliced in behind a last line
  without a newline (`ConfigPatch.PatchIsReadBack`, `ConfigPatch.UnterminatedFileBreaks`), and in
  a new section exactly when the section's marker fits its buffer (`ConfigPatch.LongNameExactly`).
- Lexical collapse keeps the meaning of a path in all trees exactly when the path is absolute or
  never climbs above its start; a leading `..` of a relative path is dropped
  (`PathCollapse.MeaningKeptExactly`). It refuses a path that fits its buffer exactly when a `..`
  would take back a link; its other guards never strike (`PathCollapse.CollapseExactly`).
- Rotation tears the key pair exactly when the public key cannot be written and the secret key
  cannot be put back (`ManifestKeys.RotationTearsExactly`); its own backup is pruned exactly when
  five collected ones stand before it (`ManifestKeys.OwnBackupKept`, `ManifestKeys.SlowClockLosesBackup`).
- A ULID call falls back exactly when its clock reading is older than the last one used, which
  an unlocked reading can be, or the clock fails while a full counter waits for it
  (`Ulid.FallsBackExactly`).
- The limiter's answers are those of an unbounded one fed with every request exactly as long as
  every request finds a slot (`RateLimit.AgreesExactly`); fed only with those that do, it always
  agrees (`RateLimit.RunRefinesIdeal`). An address of 64 bytes or more is never limited but by a
  full table (`RateLimit.LongAddressIsUnlimited`).

The comment at src/core/agent.c:263-283 presents a stub of the first line as always possible
and the count as always shrinking; the code is followed, as above.

## Model
| member | source | states |
|---|---|---|
| Text.ValidSplit | src/core/agent.c:119-153 | cutting well-formed UTF-8 at a byte that is not a continuation byte leaves two well-formed pieces |
| Text.BoundaryWithinFour | src/channels/channel_common.c:34-49 | the backward scan for a character boundary moves at most three bytes in well-formed text |
| Chunks.OutboundChunkLen | src/channels/channel_common.c:34-49 | the backward scan yields the longest piece within the cap that ends on a boundary, the cap itself when there is none, 0 for no text or no cap |
| Chunks.SendChunked | src/channels/channel_common.c:51-101 | for any number of accepted posts: success exactly when all pieces were accepted; on failure the reported index and offset are the count and total length of the pieces posted, which are the first pieces in order |
| Chunks.PiecesLossless | src/channels/channel_common.c:51-101 | pieces are non-empty, at most the cap, and concatenate to the text |
| Chunks.PiecesValid | src/channels/channel_common.c:34-101 | for caps of at least 4 every piece of well-formed UTF-8 is well-formed |
| Chunks.FourByteCharTorn | src/channels/channel_common.c:34-49 | every smaller cap tears a four-byte character |
| Chunks.PiecesValidExactly | src/channels/channel_common.c:34-101 | all pieces of all well-formed texts are well-formed if and only if the cap is at least 4 |
| Compaction.BuildSource | src/core/agent.c:251-289 | the loop over the oldest messages stops at the first line that overflows, appends the lines before it, and decides to fold exactly when it stopped at index 1 on a message that is not the user's |
| Compaction.CopyTail | src/core/agent.c:316-348 | the new list is the summary followed by the kept tail, or the tail with the summary folded into its first message |
| Compaction.Compact | src/core/agent.c:233-362 | the whole pass with its failure exits, and the text the model was asked to summarize |
| Compaction.CompactionLosesNothing | src/core/agent.c:263-348 | after a pass that replaces the session every message is in the summarizer source as a whole line, or as a marked stub of the first line, or still stored in place, the first kept one possibly with the summary and a blank line before its content |
| Compaction.StopExactly | src/core/agent.c:251-289 | a pass stops at the first element whose line does not fit behind the ones before it and cannot be cut, at the latest where the kept tail begins |
| Compaction.SourceFits | src/core/agent.c:89-153 | what the summarizer is shown always fits its buffer |
| Compaction.PassExactly | src/core/agent.c:233-362 | exactly when a pass is not needed, fails or replaces the session, and the new session: the first kept message with the summary before its content, or a user message of the summary before the kept ones |
| Compaction.PrintedSizeExactly | src/core/agent.c:350-362 | the size is the length of the session printed as unformatted JSON, escapes included |
| Compaction.EntryShown | src/core/agent.c:89-153 | a consumed message stands in the source as its whole line, or at index 0 as a stub |
| Compaction.StubIsLongest | src/core/agent.c:119-153 | the stub keeps the longest prefix of the content that ends on a character boundary and fits the cap with role and marker |
| Compaction.FirstMessageConsumed | src/core/agent.c:107-153 | the oldest message is consumed if and only if its line fits the cap or its role leaves room for a stub |
| Compaction.LongRoleBlocks | src/core/agent.c:107-153 | a role just under the cap is neither shown nor cut, and every pass on its session fails |
| Compaction.CountAfterPass | src/core/agent.c:251-348 | a successful pass never grows the count, keeps it if and only if it stops at index 1 on an element without a string role, leaves at least max - 1, and at most max when no line overflows |
| Compaction.RolelessMessageStalls | src/core/agent.c:156-208 | a second message without a role and too long to show leaves the count as it was |
| Compaction.PassMakesProgress | src/core/agent.c:320-348 | with string roles shorter than the cap, a pass with a reply fails only when the result does not fit the buffer, and otherwise strictly shrinks the session, keeping the same condition |
| Compaction.PassesReachLimit | src/core/agent.c:233-362 | iterated passes, each with its size exit: with one reply per excess message they end at max or max - 1 messages, or stop at a pass whose printed result does not fit the buffer |
| Compaction.ControlSummaryFails | src/core/agent.c:350-362 | such a stop: on four messages that leave up to 24000 bytes of room, a reply of 4095 or more control bytes, six bytes each in JSON, makes the pass fail |
| Compaction.SourceValid | src/core/agent.c:89-153 | contents and roles that are well-formed UTF-8 make a well-formed summarizer source, stub included |
| Anthropic.AppendToolResults | src/providers/anthropic.c:311-332 | collects the whole run of tool results from the index into one user message and returns the index behind it |
| Anthropic.AppendMessages | src/providers/anthropic.c:369-398 | the loop with its jumping index encodes the transcript: system messages skipped, runs of results merged, calls as blocks |
| Anthropic.CallMessageIds | src/providers/anthropic.c:333-367 | an assistant message with calls asks for exactly their ids in order, with or without a text block |
| Anthropic.RoundWithIds | src/providers/anthropic.c:311-398 | a tool round whose calls carry ids becomes two messages, the second holding exactly the results of the first in order |
| Anthropic.RoundWithoutIds | src/providers/anthropic.c:311-398 | a round with a call that has no id is not paired |
| Anthropic.RoundsWellFormed | src/providers/anthropic.c:369-398 | for any number of rounds: paired if and only if all calls have ids, and then roles alternate from assistant to user |
| Anthropic.RequestWellFormed | src/providers/anthropic.c:295-398 | a request on any alternating history pairs every list of calls with exactly one message of its results if and only if all calls have ids, and then its roles alternate |
| Anthropic.EncodeLosesNothing | src/providers/anthropic.c:295-398 | read back, the API list says all the transcript does, in order: every text, every call with name and arguments, every result with its id |
| Anthropic.RequestLosesNothing | src/providers/anthropic.c:295-398 | a request is the system text, the history, the user's turn and the rounds, and the API list says all of it but the system text |
| Anthropic.TranscriptIs | src/core/agent.c:717-804 | per round, the calls with the text, then one message per output with its id |
| Session.RewrittenProper | src/core/agent.c:316-348 | a rewritten session alternates roles and ends on the assistant, in the fold and in the merge case |
| Session.ContentFitsPrinted | src/core/agent.c:452-487 | the contents of a session, with terminators, are never longer than its JSON text |
| Session.ParseSession | src/core/agent.c:452-487 | the copy loop with its two buffer checks yields the last messages up to the first that does not fit |
| Session.HistoryWhole | src/core/agent.c:452-487 | a stored session under the JSON cap always fits the history buffer, so its last messages arrive whole, with their roles and contents, and alternate |
| Session.ParseExactly | src/core/agent.c:452-487 | for sessions of any shape the copy holds the messages up to the first whose role or content does not fit |
| Session.RunCalls | src/core/agent.c:757-797 | one user message per call, in order, with the tool's output, or the error for an unknown tool, and the call's own id |
| Session.RunRound | src/core/agent.c:735-800 | one round extends the transcript by the calls, cut to sixteen, and their results |
| Session.ReactLoop | src/core/agent.c:717-804 | for any script of replies: the requests sent are the transcripts after each round, the loop ends on a plain reply, a failed chat or the iteration limit |
| Session.ReactExactly | src/core/agent.c:717-804 | the rounds a turn runs and its answer, for any script: one round per reply that calls tools, at most sixteen calls each, outputs of known tools and errors for others, until a plain reply, a failed chat or the limit |
| Session.Agent.Run | src/core/agent.c:620-714 | one turn: the requests sent, the answer, and the table, in which its own row alone changes, exactly when there is an answer, the row could be read and the result fits |
| Session.Agent.Delete | src/core/memory.c:290-303 | removes the row and says whether there was one |
| Session.PreparedExactly | src/core/agent.c:641-665 | a turn works with the stored session if it can be read, after the pass if that succeeds |
| Session.TurnStoresExactly | src/core/agent.c:519-547 | the row changes exactly when the provider answered, the stored session could be read and the result fits; it is then the session worked with, the user's text and the answer as far as it fits its buffer |
| Session.FirstTurnStored | src/core/agent.c:519-547 | the first turn of a session stores the question and the answer |
| Session.TurnKeepsProper | src/core/agent.c:519-547 | whatever provider, tools and configuration do, a row that alternates and ends on the assistant stays so |
| Session.TurnRequestsWellFormed | src/core/agent.c:673-804 | every request of a turn on such a row is paired if and only if its calls carry ids, and then alternates |
| Session.RunKeepsProper | src/core/agent.c:620-804 | over every run of turns and deletes every stored session alternates and ends on the assistant |
| Session.TurnCount | src/core/agent.c:620-714 | a turn changes nothing or adds two messages to the prepared session, which is within the limit when its pass summarizes everything before the kept tail |
| Session.RunKeepsShort | src/core/agent.c:620-714 | over every run of such turns with one limit, no stored session has more than limit + 2 messages |
| Session.RunRequestsWellFormed | src/core/agent.c:673-804 | every request of a turn after every run is paired if and only if its calls carry ids, and then alternates |
| AgentMutex.HandlersAreDisciplined | src/core/dispatch.c:46-87 | every handler, the dashboard routes and the configuration reload among them, touches the session table only between one lock and its unlock, and never locks twice |
| AgentMutex.HandlerDoesAsked | src/core/dispatch.c:46-87 | a handler does to the session table exactly what its request asks, once: a turn on its session, a delete, or nothing |
| AgentMutex.LocksTaken | src/core/dispatch.c:46-87 | how often a handler takes the lock, and that replies are sent outside of it |
| AgentMutex.StepAccounts | src/core/dispatch.c:46-87 | every step of every thread moves what it does to the table from what its request asks to the lock order, so nothing is lost or done twice |
| AgentMutex.NextKeepsSerial | src/core/agent.c:30-38 | every step of every thread keeps: the table is the sections before, or on its way through the section of the holder |
| AgentMutex.RunIsSerial | src/asap/server.c:180-186 | in every interleaving the invariant holds |
| AgentMutex.UnlockedTableIsSerial | src/core/dispatch.c:46-87 | whenever the lock is free the table equals the critical sections applied one after the other in lock order |
| AgentMutex.UnlockedTableIsProper | src/core/dispatch.c:46-87 | in every interleaving, whenever the lock is free every stored session alternates and ends on the assistant |
| AgentMutex.HolderNeverRelocks | src/asap/server.c:331-338 | the holder's next operation is never a lock and can always run, so the non-recursive mutex is never taken twice |
| AgentMutex.OnlyHolderWrites | src/core/agent.c:30-38 | only the holder of the lock changes the table |
| AgentMutex.DeleteStays | src/core/dispatch.c:46-56 | in every interleaving a deleted session stays out of the table until a turn takes the lock for it |
| AgentMutex.DeleteStaysInOrder | src/core/dispatch.c:46-56 | in the lock order: behind a delete and no later turn the session is absent |
| AgentMutex.NextTurnSeesExchange | src/core/agent.c:656-665 | in every interleaving the next save of a session works on exactly the row the last one stored, so no exchange is lost |
| AgentMutex.NextTurnInOrder | src/core/agent.c:656-665 | in the lock order: the row before the next turn is the one the last turn left |
| Numbers.WholeNumberExactly | src/tools/cron.c:30-45 | a field is a number exactly when it is blanks, a sign or none and digits to its end |
| Numbers.TrailingJunkRejected | src/tools/cron.c:30-64 | a number with anything behind it that is no digit is rejected |
| Numbers.PrintedIsRead | src/gateway/ws.c:267-303 | printing an `int` and reading it back gives it again, in at most eleven characters |
| CronSchedule.RangeMeans | src/tools/cron.c:30-79 | a range is accepted exactly when its parts are, and lets pass what they say; a star on the left lets all pass |
| CronSchedule.WordsAre | src/tools/cron.c:81-96 | the words of an expression are what stands between blanks |
| CronSchedule.ExprMeans | src/tools/cron.c:65-108 | an expression of at least five words is accepted exactly when its fields are, and matches a local time exactly when minute, hour, day, month and weekday are let pass, 7 being another Sunday |
| CronSchedule.RangeToSevenIsEmpty | src/tools/cron.c:97-108 | a range of days from 1..6 to 7 is accepted and matches no day |
| CronSchedule.RangeToSevenHasNoRun | src/tools/cron.c:97-135 | an expression with such a range has no next run |
| CronSchedule.SearchStart | src/tools/cron.c:110-132 | the first minute tried is a later whole minute, and the next one if and only if the instant is not before the epoch or is a whole minute |
| CronSchedule.SearchExact | src/tools/cron.c:110-132 | for any fields and any local-time function, failing ones too: the search yields an instant if and only if it is the least matching whole minute strictly after now within the window (after the first minute tried, for a broken minute before the epoch) |
| CronSchedule.SearchFailsExactly | src/tools/cron.c:110-132 | the search fails if and only if every matching minute of its window stands behind one whose local time cannot be read; with all of them readable, if and only if none matches |
| CronSchedule.NextFromExpr | src/tools/cron.c:110-132 | the minute loop computes that search, giving up where the local time is not available |
| CronSchedule.IntervalNext | src/tools/cron.c:138-151 | an accepted interval yields now + N, strictly later and within `long long` |
| CronSchedule.NextRunIsLater | src/tools/cron.c:153-176 | the next run of a repeating schedule is strictly later than now |
| CronSchedule.ScheduleExactly | src/tools/cron.c:138-176 | what each kind of schedule asks for, and exactly when it is rejected |
| CronSchedule.ParseNextRun | src/tools/cron.c:153-176 | the three kinds of schedule and their rejections |
| CronOffers.ElapsedExactly | src/tools/cron.c:219-223 | a span counts as so many milliseconds if and only if it is that long, or, when the nanoseconds borrow, more than one millisecond less |
| CronOffers.ElapsedShortExactly | src/tools/cron.c:219-223 | a span that counts as at least so many milliseconds is in truth shorter if and only if the nanoseconds borrow, the count is exactly that many, and the borrowed difference is not whole milliseconds |
| CronOffers.ElapsedMonotone | src/tools/cron.c:219-223 | rounding either way, the elapsed time never shrinks as the clock goes on |
| CronOffers.OfferTable.AgeMs | src/tools/cron.c:225-235 | the age of the first slot with the id, if there is one |
| CronOffers.OfferTable.HasRoomNow | src/tools/cron.c:248-256 | true exactly when some slot is free or past its timeout |
| CronOffers.OfferTable.MarkOffered | src/tools/cron.c:297-320 | the one-pass loop renews the id's slot, or takes the first reusable one, or changes nothing |
| CronOffers.OfferTable.Release | src/tools/cron.c:322-333 | frees the id's slot |
| CronOffers.OfferTable.IsReturnable | src/tools/cron.c:258-277 | a tracked job once its timeout is over, an untracked one while there is room |
| CronOffers.OfferTable.PickDueRow | src/tools/cron.c:346-383 | the scan of the due keys, with the job to wait for when none is returnable |
| CronOffers.FirstReturnableIsPicked | src/tools/cron.c:346-383 | when some scanned job is returnable and readable, the first such one in due order is returned at once |
| CronOffers.MarkedUnique | src/tools/cron.c:297-320 | marking keeps ids unique in the table |
| CronOffers.ReleasedUnique | src/tools/cron.c:322-333 | releasing keeps ids unique and forgets the id |
| CronOffers.MarkedOnRecord | src/tools/cron.c:297-320 | an offer is recorded whenever its job is tracked or a slot is reusable |
| CronOffers.TableCorners | src/tools/cron.c:236-320 | a poll without a timeout holds no job back, a job without an id is not marked, an id too long for a slot is stored cut |
| CronOffers.RoomAfterTimeout | src/tools/cron.c:279-295 | after a sleep of the timeout a full table has room |
| CronOffers.ReturnableTooEarly | src/tools/cron.c:219-277 | for every timeout there are two readings less than the timeout apart between which a job becomes returnable again |
| CronRun.ListDue | src/core/memory.c:500-520 | the due query returns the first due jobs in (next run, id) order, up to its limit |
| CronRun.AckedIsNotDue | src/tools/cron.c:413-446 | after an acknowledgement a one-shot job is gone and any other has its next run strictly later, rejected schedules included; other jobs are untouched |
| CronRun.AckedExactly | src/tools/cron.c:413-446 | what an acknowledgement leaves: nothing of a one-shot, otherwise the row with its next run at now + N or at the least matching minute, or a year on exactly when the schedule asks for nothing |
| CronRun.Scheduler.AckDelivery | src/tools/cron.c:413-446 | deletes or advances the job, and frees its slot only when that succeeded |
| CronRun.Scheduler.HandleMessage | src/core/dispatch.c:18-87 | the job is acknowledged exactly when the agent succeeded and the send succeeded |
| CronRun.CanAckExactly | src/tools/cron.c:413-424 | a job can be acknowledged exactly when its row is there and its texts fit the row buffer; otherwise nothing changes |
| CronRun.HandleExactly | src/core/dispatch.c:18-87 | a job is acknowledged, and its slot freed, exactly when the reply was sent and the agent succeeded or the text is a slash command |
| CronRun.Scheduler.Poll | src/tools/cron.c:279-411 | picks among the due jobs, says how long it sleeps, and records the offer with the clock after the sleep |
| CronRun.PollExactly | src/tools/cron.c:385-411 | a poll hands over the picked job's message, marks it and changes no row |
| CronRun.RecordedExactly | src/tools/cron.c:297-411 | a job a poll returns is on record afterwards if and only if it had a slot, or there was one for it, when the sleep was over |
| CronRun.PolledIsRecorded | src/tools/cron.c:385-411 | when the sleep is not cut short, every job a poll returns is on record afterwards, even when the table was full |
| CronRun.OffersApart | src/tools/cron.c:258-411 | with the sleep cut short or not: a job offered again without an acknowledgement is offered more than timeout - 1 ms later, and at least the timeout later when the reading that decides does not borrow nanoseconds, each less what was cut from the sleep; and, for an offer without a sleep and for a tracked job that slept no longer than asked, the timeout less the cut is missed exactly in the borrowed case |
| CronRun.StepKeepsConsistent | src/tools/cron.c:208-411 | every poll, delivery and edit keeps the table unique and in step with the open offers, if and only if a poll finds its job on record or room for it |
| CronRun.RunConsistentExactly | src/tools/cron.c:208-411 | over every run: the table is in step with the open offers in all states if and only if every poll finds its job on record or room for it |
| CronRun.FreshIsConsistent | src/tools/cron.c:208-217 | a scheduler with an empty table starts in step with its offers |
| CronRun.RunOffersApart | src/tools/cron.c:208-411 | over every run in which every poll finds room, sleeps cut short or not: both bounds, each less the cut, hold between an un-acknowledged offer and the next one of the job, and the first between any two |
| CronRun.WholeSleepsApart | src/tools/cron.c:208-411 | over every run without a sleep cut short: every poll finds room and the bounds hold without a cut, so offers within a shorter span are of different jobs |
| CronRun.OffersTooClose | src/tools/cron.c:219-411 | for every timeout a run of two polls in which a job is offered twice, not acknowledged, less than the timeout apart |
| CronRun.CutSleepRepeats | src/tools/cron.c:279-411 | for every timeout, clock and length of sleep a run in which a signal ends the sleep and the job is offered again just that much later |
| CronRun.LostOfferRepeats | src/tools/cron.c:258-411 | with more jobs than slots: a run in which the cut sleep leaves the job off the record, and it is offered again without any sleep less than the timeout later |
| CronRun.EditExactly | src/core/memory.c:412-476 | an edit replaces or removes its own row and touches nothing else |
| CronRun.OnlyDeliveryAdvances | src/core/dispatch.c:18-44 | a row changes only by an edit of it or by an acknowledgement of its own offer, handled and sent |
| CronRun.RunDelivers | src/core/dispatch.c:18-87 | over every run without edits of the job, its row can have been deleted or advanced only if its message was sent in that run |
| Jcs.Writer.AppendString | src/crypto/jcs.c:75-117 | the loop appends the quoted and escaped string |
| Jcs.Writer.Serialize | src/crypto/jcs.c:392-411 | appends the canonical text, and fails if and only if the tree has a node of a kind it does not support |
| Jcs.Writer.SerializeArray | src/crypto/jcs.c:370-390 | the items in order, separated by commas |
| Jcs.Writer.SerializeObject | src/crypto/jcs.c:308-368 | the members in byte order of their keys, each with the first value stored under its key |
| Jcs.EscapePrefix | src/crypto/jcs.c:75-117 | the escapes of two bytes are never prefixes of each other |
| Jcs.QuotedPrefix | src/crypto/jcs.c:75-117 | escaping is injective and a quoted string delimits itself |
| Jcs.CanonPrefix | src/crypto/jcs.c:308-411 | canonical texts are a prefix code: equal texts with anything behind them come from values equal up to member order |
| Jcs.SameCanon | src/crypto/jcs.c:308-368 | member order at any depth does not change the bytes |
| Jcs.CanonicalBytesDetermineValue | src/crypto/jcs.c:308-427 | for distinct keys and safe integers: equal bytes if and only if equal up to member order at every depth |
| JcsReader.CanonRoundTrip | src/crypto/jcs.c:308-427 | a reader written from the grammar of RFC 8259 makes of the canonical text the value, its members in order, with nothing behind |
| JcsReader.EscapesAreCanonical | src/crypto/jcs.c:75-117 | the escapes section 3.2.2.2 of RFC 8785 asks for, and no others |
| JcsNumber.LayoutValue | src/crypto/jcs.c:163-229 | for every non-empty digit string and point position the text, read back by an independent reader, denotes digits x 10^(n-k) |
| JcsNumber.LayoutForm | src/crypto/jcs.c:294-303 | an exponent is written if and only if n lies outside -6 < n <= 21 (section 3.2.2.3 of RFC 8785) |
| JcsNumber.RelaidKeepsValue | src/crypto/jcs.c:260-303 | re-laying a scientific rendering never changes the value it denotes, sign included |
| JcsNumber.AppendExponential | src/crypto/jcs.c:166-195 | first digit, point and rest if any, `e`, sign and exponent |
| JcsNumber.AppendDecimal | src/crypto/jcs.c:201-229 | the three cases with their padding loops |
| JcsNumber.DropPoint | src/crypto/jcs.c:275-288 | the digits of the mantissa without its point |
| JcsNumber.AppendNumber | src/crypto/jcs.c:231-304 | splitting, collapsing and choosing the layout |
| PathCollapse.LexicalCollapse | src/sandbox/allowlist_path.c:116-184 | the scan of an absolute or relative path, cutting segments and keeping the stack |
| PathCollapse.CollapseExactly | src/sandbox/allowlist_path.c:86-184 | a path is refused exactly when it is empty, too long, or has a `..` that would take back a link; otherwise the result is the names left, so the guards on the probe, the result and the stack never strike |
| PathCollapse.NoLinksNoRefusal | src/sandbox/allowlist_path.c:112-184 | in a tree without links every path that fits the buffer is accepted |
| PathCollapse.LinkIsFollowed | src/sandbox/allowlist_path.c:86-110 | the kernel walk the collapse is compared with follows a link from its directory or the root, a bounded number of times |
| PathCollapse.PushSegment | src/sandbox/allowlist_path.c:136-158 | one segment: dropped, popped, refused below a link, or pushed |
| PathCollapse.JoinParts | src/sandbox/allowlist_path.c:64-83 | the parts joined, `/` or `.` when there is none, refused when too long |
| PathCollapse.PopFollowsParent | src/sandbox/allowlist_path.c:86-110 | unless the top of the stack is a link, popping it leads where the kernel's `..` leads |
| PathCollapse.PushFollowsStep | src/sandbox/allowlist_path.c:136-158 | after each segment the stack leads to where the kernel is, unless a `..` meets an empty stack away from the root |
| PathCollapse.CollapsePreservesMeaning | src/sandbox/allowlist_path.c:112-184 | in any tree with symlinks, from any working directory: a path that resolves and collapses leads to the same node after collapsing, unless it is relative and climbs above its start |
| PathCollapse.ClimbingLosesMeaning | src/sandbox/allowlist_path.c:147-154 | for every relative path that climbs above its start, a tree in which it and its collapse lead to different directories |
| PathCollapse.MeaningKeptExactly | src/sandbox/allowlist_path.c:112-184 | a path the collapse accepts keeps its meaning in all trees and working directories if and only if it is absolute or never climbs above its start |
| PathCollapse.CollapsedIsPlain | src/sandbox/allowlist_path.c:116-184 | the result is absolute exactly when the path is, and is `/`, `.`, or has no empty, `.` or `..` segment |
| PathCollapse.CollapseIdempotent | src/sandbox/allowlist_path.c:116-184 | collapsing the result changes nothing, even elsewhere and in a changed tree |
| ConfigPatch.FindSection | src/core/config_patch.c:184-203 | the position of the first line that opens the section, by its marker as far as 127 bytes of it |
| ConfigPatch.SectionEnd | src/core/config_patch.c:205-218 | the first later line that begins with a bracket, or the end |
| ConfigPatch.FindKeyLine | src/core/config_patch.c:220-259 | the first line of the section that assigns the key |
| ConfigPatch.PatchKeyLine | src/core/config_patch.c:285-310 | replaces that line, or adds one at the section's end, or appends a section |
| ConfigPatch.PatchExactly | src/core/config_patch.c:98-310 | exactly when a patch fits its buffers, and the text it leaves in each of its three cases |
| ConfigPatch.AssignsOne | src/core/config_patch.c:220-259 | a line assigns at most one plain key |
| ConfigPatch.AssignsExactly | src/core/config_patch.c:220-259 | a line assigns a key exactly when it is blanks, the key, blanks, an equals sign and anything |
| ConfigPatch.OpensOne | src/core/config_patch.c:184-203 | a line opens at most one plain section |
| ConfigPatch.OpensExactly | src/core/config_patch.c:173-203 | a text opens a section exactly when it begins with the bracketed name, blanks, and a comment or the end of the line |
| ConfigPatch.PatchInSection | src/core/config_patch.c:261-310 | a patch of an existing section rewrites its body and nothing before or behind it |
| ConfigPatch.AppendedLookups | src/core/config_patch.c:98-114 | appending a section answers the new pair and leaves every other lookup as it was |
| ConfigPatch.PatchIsReadBack | src/core/config_patch.c:184-310 | for any file: the code's own lookup finds the new value if and only if the line is not spliced in behind a last line without a newline; then every other (section, key) is looked up as before and the same patch again changes nothing; otherwise the line is glued to the end |
| ConfigPatch.PatchAgain | src/core/config_patch.c:184-310 | a patch with the value already there changes nothing |
| ConfigPatch.LongNameExactly | src/core/config_patch.c:184-203 | in an absent section: the value is read back if and only if the section's marker fits its 128-byte buffer, and a longer name is never found |
| ConfigPatch.UnterminatedLineSwallows | src/core/config_patch.c:261-310 | behind any header and a last comment line without a newline the assignment becomes part of the comment and is not found |
| ConfigPatch.UnterminatedFileBreaks | src/core/config_patch.c:261-310 | the two-line file `[a]`, `# x`: patching `y` gives `# xy = 2`, in which `y` is not found |
| ConfigPatch.EscapeTomlString | src/core/config_patch.c:116-171 | the loop appends the escape of each byte |
| ConfigPatch.EscapeInverts | src/core/config_patch.c:116-171 | escaping is invertible, and an escaped string is one line without a bare quote |
| ConfigPatch.PatchStringField | src/core/config_patch.c:312-324 | after patching a string the line found holds its escaped form, on any content that is not glued to |
| WsQueue.MsgList.Enqueue | src/gateway/ws.c:212-221 | appends the node at the tail; list, tail and counter agree |
| WsQueue.MsgList.Dequeue | src/gateway/ws.c:313-332 | unlinks the connection's first node wherever it is, keeping the rest in order |
| WsQueue.MsgList.PopFront | src/gateway/ws.c:294-298 | unlinks the head and keeps tail and counter in agreement |
| WsQueue.MsgList.Drop | src/gateway/ws.c:177-199 | one pass unlinks exactly the connection's nodes |
| WsQueue.MsgList.HasPending | src/gateway/ws.c:349-358 | true exactly when the connection has a node |
| WsQueue.Gateway.RegisterConn | src/gateway/ws.c:135-149 | takes the first free slot of the table or fails |
| WsQueue.Gateway.UnregisterConn | src/gateway/ws.c:223-238 | frees the first slot with the id and drops its frames |
| WsQueue.TableExactly | src/gateway/ws.c:135-238 | opening takes the first free slot and closing frees the first slot of the connection; all other slots stay |
| WsQueue.QueuesExactly | src/gateway/ws.c:240-391 | what sending and pushing do and what a sender is told, with every condition |
| WsQueue.BroadcastExactly | src/gateway/ws.c:393-414 | a broadcast reaches the open connections in the order of the table, as many as there is room for |
| WsQueue.Gateway.Send | src/gateway/ws.c:360-391 | reads the connection from the session text; queues for an open connection while there is room; refused, dropped and accepted are told apart as in the code |
| WsQueue.Gateway.BroadcastText | src/gateway/ws.c:393-414 | one frame per open slot in order, until the queue is full |
| WsQueue.Gateway.DequeueOutgoing | src/gateway/ws.c:313-344 | returns the connection's oldest frame, clipped to the buffer, and leaves the others |
| WsQueue.Gateway.Push | src/gateway/ws.c:240-265 | queues an incoming text of allowed length while there is room |
| WsQueue.Gateway.Pop | src/gateway/ws.c:273-307 | waits for a frame, a timeout or a shutdown, and returns the oldest incoming frame with its session text |
| WsQueue.Gateway.Wait | src/gateway/ws.c:283-293 | the wait loop over wake-ups: other threads push or shut down, it wakes for nothing, or time runs out |
| WsQueue.FirstEventDecides | src/gateway/ws.c:273-307 | on an empty queue the first accepted text is what is taken, and a timeout or shutdown before it gives nothing |
| WsQueue.ReplyGoesBack | src/gateway/ws.c:267-303 | a reply to the session text of a popped message goes to the connection it came from, for every `int` id |
| WsQueue.SessionExactly | src/gateway/ws.c:267-271 | the connection a session text names, and that no other session names one |
| WsQueue.CloseDropsOnlyOwn | src/gateway/ws.c:177-199 | closing a connection removes its texts and leaves every other connection's queue as it was |
| WsQueue.DequeueTakesFirst | src/gateway/ws.c:313-344 | dequeueing takes the oldest text of its connection and nothing of the others |
| WsQueue.BroadcastBounded | src/gateway/ws.c:393-414 | a broadcast only appends frames of that text for open connections, within the bound |
| WsQueue.StepKeepsSound | src/gateway/ws.c:135-414 | every operation keeps both queues at most 64 long and every outgoing frame on an open connection |
| WsQueue.StepKeepsAccounts | src/gateway/ws.c:177-414 | every operation keeps: texts queued for a connection are those taken followed by those pending |
| WsQueue.RunKeepsQueues | src/gateway/ws.c:135-414 | both invariants over every run, for every connection |
| ManifestBackups.CollectBaks | src/asap/manifest_keys.c:308-336 | the listing loop with its insertion sort fills the array with the first collected entries, newest first |
| ManifestBackups.InsertEntry | src/asap/manifest_keys.c:328-332 | sliding the older entries puts the new one behind all that are not older |
| ManifestBackups.PrunePrefix | src/asap/manifest_keys.c:340-369 | unlinks the sorted entries from the sixth on |
| ManifestBackups.SortedIsNewest | src/asap/manifest_keys.c:308-336 | the result is a permutation, newest first |
| ManifestBackups.SortedAtRank | src/asap/manifest_keys.c:328-332 | the sort is stable: an entry ends behind the newer ones and the equally old ones listed before it |
| ManifestBackups.PruneKeepsFiveNewest | src/asap/manifest_keys.c:340-369 | a collected backup is removed if and only if five collected ones stand before it |
| ManifestBackups.StaleExactly | src/asap/manifest_keys.c:340-369 | a listed name is removed if and only if it is collected and five collected ones stand before it |
| ManifestBackups.PruneLeavesTheRest | src/asap/manifest_keys.c:282-369 | only collected entries are removed: names that do not read as a time and those past the cap stay |
| ManifestBackups.NewestIsKept | src/asap/manifest_keys.c:356-369 | a backup newer than all others is kept |
| ManifestKeys.KeyStore.CreateAndPersist | src/asap/manifest_keys.c:256-271 | writes the pair, and unlinks the secret key when the public one fails |
| ManifestKeys.KeyStore.Load | src/asap/manifest_keys.c:437-460 | loads, creates, or refuses |
| ManifestKeys.KeyStore.Rotate | src/asap/manifest_keys.c:480-571 | the sequence of writes with each failure exit, and the final prune |
| ManifestKeys.LoadsExactly | src/asap/manifest_keys.c:392-460 | exactly when loading succeeds, and what it leaves in memory and on disk |
| ManifestKeys.RotatesExactly | src/asap/manifest_keys.c:480-571 | exactly when a rotation succeeds, which keys are loaded after it and what the live files are |
| ManifestKeys.RotationBacksUpExactly | src/asap/manifest_keys.c:516-571 | the backups a rotation leaves, as its two writes went, pruned after success alone |
| ManifestKeys.LoadedAfter | src/asap/manifest_keys.c:392-571 | when keys are loaded after a load, a rotation or a reset, whatever the surroundings do |
| ManifestKeys.LoadKeepsConsistent | src/asap/manifest_keys.c:392-460 | loading or creating, with any write failing, leaves no key or a matching pair, loaded exactly on success |
| ManifestKeys.LoadRefusesMismatch | src/asap/manifest_keys.c:381-413 | whatever is on disk, keys that load are a private, matching pair from it |
| ManifestKeys.RotationTearsExactly | src/asap/manifest_keys.c:480-571 | over all fault combinations: the store is consistent afterwards if and only if not both the public write and the restore failed behind the backups |
| ManifestKeys.RotationIsOldOrNew | src/asap/manifest_keys.c:534-571 | otherwise the live files are the fresh pair, loaded, after success and the old files after failure |
| ManifestKeys.FailureLosesNothing | src/asap/manifest_keys.c:516-571 | after any failed rotation the old pair is live, or both halves are in backups |
| ManifestKeys.SuccessBacksUp | src/asap/manifest_keys.c:516-571 | after success each half of the old pair is in its backup if and only if pruning did not reach it |
| ManifestKeys.OwnBackupKept | src/asap/manifest_keys.c:340-369 | after a rotation with the listing of the backups on disk: each half of a backup, the fresh one included, is there if and only if it was there or is the fresh one, and is not behind five newer ones |
| ManifestKeys.SlowClockLosesBackup | src/asap/manifest_keys.c:308-369 | with five backups dated later a successful rotation removes both halves of its own |
| ManifestKeys.RunKeepsConsistent | src/asap/manifest_keys.c:437-571 | over every run of loads, rotations and resets with at most one failing write per rotation, the disk holds no key or a matching pair and loaded keys equal it |
| ManifestKeys.KeysChangeOnlyByRotation | src/asap/manifest_keys.c:437-571 | loaded keys change only where a rotation succeeds |
| Ulid.IncInPlace | src/asap/ulid.c:32-38 | plus one on the big-endian bytes, with the overflow flag exactly when they all go back to zero |
| Ulid.IncIsPlusOne | src/asap/ulid.c:32-38 | the carried increment is plus one modulo 256 to the number of bytes |
| Ulid.TimeToBytes | src/asap/ulid.c:41-45 | the six bytes by shifts |
| Ulid.TimeBytesValue | src/asap/ulid.c:41-45 | read as a number they are the 48-bit time |
| Ulid.EncodeBytes | src/asap/ulid.c:51-67 | the bit loops yield the 26 characters |
| Ulid.GroupsAreDigits | src/asap/ulid.c:51-67 | the characters are the base-32 digits of four times the 128-bit number |
| Ulid.EncodingKeepsOrder | src/asap/ulid.c:51-67 | texts are ordered as their bytes, both ways, and encoding is injective |
| Ulid.Generator.Spin | src/asap/ulid.c:94-99 | the first reading past the last time, unless the clock fails before |
| Ulid.Generator.Generate | src/asap/ulid.c:69-111 | one call with every branch and failure exit |
| Ulid.GenerateExactly | src/asap/ulid.c:69-111 | what every call does, wherever a wait ends: new bytes at a new time, the counter plus one in the same millisecond, and the two ways a full counter goes on |
| Ulid.TextIsState | src/asap/ulid.c:41-111 | the text is 48 bits of time and 80 of the counter in 26 digits of base 32 |
| Ulid.EmitsAhead | src/asap/ulid.c:69-111 | a call that emits moves ahead if and only if its reading is not older than the last time |
| Ulid.FallsBackExactly | src/asap/ulid.c:69-111 | a call, emitting or failing, falls back if and only if its reading is older or the clock fails behind a full counter |
| Ulid.RunIncreases | src/asap/ulid.c:69-111 | over every run without such a call identifiers strictly increase as strings |
| Ulid.SteadyClockIncreases | src/asap/ulid.c:69-111 | from the start, with a clock that never goes back and that moves on whenever a full counter waits for it, identifiers strictly increase |
| RateLimit.Limiter.Search | src/gateway/rate_limit.c:54-70 | the probe finds the address's slot, or the first free one of its order |
| RateLimit.Limiter.FindExpiredSlot | src/gateway/rate_limit.c:41-52 | the first slot whose window is over |
| RateLimit.Limiter.FindOrCreate | src/gateway/rate_limit.c:54-84 | own slot, free slot, expired slot, or none |
| RateLimit.Limiter.LimitAsap | src/gateway/rate_limit.c:86-106 | one request, with the probe started at the hash of the address: window renewal, count and answer |
| RateLimit.SlotIsFree | src/gateway/rate_limit.c:54-84 | the chosen slot is the address's own, or the address has none and this one holds no live window |
| RateLimit.SlotExactly | src/gateway/rate_limit.c:54-84 | which slot a request gets: its own, else the first free one from where the probe starts, else the first whose window is over |
| RateLimit.HashOfMore | src/gateway/rate_limit.c:25-31 | the hash takes in the bytes from the first to the last |
| RateLimit.MissingAddress | src/gateway/rate_limit.c:86-94 | requests without an address count as one address |
| RateLimit.FullExactly | src/gateway/rate_limit.c:54-84 | a request finds no slot if and only if it has none and every slot holds a live window |
| RateLimit.LiveWindowsStay | src/gateway/rate_limit.c:41-84 | no request touches another address's live window |
| RateLimit.StepRefines | src/gateway/rate_limit.c:86-106 | a request that finds a slot gets the answer of one window per address, and keeps the table in step with it, each address once |
| RateLimit.RunRefinesIdeal | src/gateway/rate_limit.c:25-106 | over every run in time order, wherever the probes start: a request is refused if and only if it finds no slot or the limiter with one window per address, fed with those that find one, refuses it |
| RateLimit.RunBoundsPasses | src/gateway/rate_limit.c:86-106 | over every such run at most 20 requests of an address pass in any 60 seconds, and since the start of its window exactly as many as its count says, at most 10 |
| RateLimit.SlotlessDiffers | src/gateway/rate_limit.c:54-106 | a request that finds no slot is refused where an unbounded limiter in step with the table lets it pass |
| RateLimit.AgreesExactly | src/gateway/rate_limit.c:54-106 | over every run in time order and up to any request: all answers are those of the unbounded limiter fed with every request if and only if every request found a slot |
| RateLimit.LongAddressIsUnlimited | src/gateway/rate_limit.c:33-84 | an address of 64 bytes or more is refused if and only if the table is full of live windows |
| RateLimit.FullTableForgets | src/gateway/rate_limit.c:54-106 | refusals for want of a slot are not counted, so once a slot frees up a request passes that the limiter fed with all of them refuses |

## Left out
- libcurl, libwebsockets, TweetNaCl, SQLite, the TOML library and cJSON: their results are inputs, maps and datatypes; allocation failure is not modelled.
- The sandbox, hardware tools, HTTP routes, dashboard, manifest builders and configuration getters: device plumbing or field copying.
- UTF-8 validity of the stored summary and the final reply: both are cut at a byte by the code.
- Compaction.CompactionLosesNothing: speaks of objects; an array element that is not an object is lost when it precedes the stop.
- Compaction.PassMakesProgress: the JSON size is a formula for cJSON's unformatted printing of role and content; other fields of a stored message are not modelled.
- Session.RunCalls: a tool's output and whether the tool is known are inputs; running the tool is not modelled.
- Session.Agent.Run: recalled memories, skills and the offline note are one system text, an input.
- AgentMutex.HandlersAreDisciplined: lists the operations of each handler on the lock and the session table; it is a transcription of the call order, and tool bodies count as work inside the lock that leaves sessions alone.
- CronSchedule.NextFromExpr: additions in the minute search are on unbounded integers.
- CronRun.RunOffersApart: `CLOCK_MONOTONIC` can always be read; job ids are at most 127 bytes, as creation makes them; the year added by the snooze does not overflow; edits that fall into the sleep of a poll are placed before or behind it.
- CronRun.RunDelivers: fairness when handling takes longer than the re-offer window is not promised by the code.
- Jcs.CanonicalBytesDetermineValue: for safe integers; key order is the code's byte order and not the UTF-16 order of section 3.2.3 of RFC 8785; the key sort is a function, as `qsort` is a library call.
- JcsNumber.AppendNumber: the shortest round-trip rendering of a double by `%g` and `strtod` is an input.
- PathCollapse.CollapsePreservesMeaning: targets that do not exist are not modelled.
- ConfigPatch.PatchIsReadBack: section names, keys and values are plain (no brackets, quotes or newlines where the code does not expect them); a section name whose marker is cut is covered by ConfigPatch.LongNameExactly for sections not in the file.
- WsQueue.Gateway.Send: the wake-up of the service thread is left out; `atoi` out of range is taken to saturate and then to keep its low 32 bits.
- WsQueue.Gateway.Pop: the clock of the timeout is left out: a timeout is one of the wake-ups, which are an input.
- ManifestKeys.KeyStore.Rotate: the directory listing that pruning reads is an input, which ManifestKeys.OwnBackupKept requires to list the backups on disk; `unlink` and `mkdir` outcomes other than a failed directory, and part-filled buffers after a failed read, are not modelled; a rename either happens or not.
- The permission check on keys that are already loaded (src/asap/manifest_keys.c:415-435): it would clear them.
- ManifestBackups.CollectBaks: what a name reads as is an input; `strtoll` is not modelled.
- Ulid.Generator.Generate: a spin whose readings end without a later one counts as a failed clock.
- RateLimit.RunRefinesIdeal: addresses under 64 bytes; longer ones are covered by RateLimit.LongAddressIsUnlimited.
- The pairing lockout, the shell-command blocklist and the workspace check behind the collapse: policy code.
