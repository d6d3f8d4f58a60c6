# Verified model of the Pares Agens core

This project models the stateful and text-processing core of Pares Agens in Dafny and proves what that code is for.

- **Log compression** (`Utf8`, `LogScanners`, `LogTemplates`, `LogFields`, `LogFieldLines`, `LogShapes`, `LogTokens`,
  `LogCompressor`, `LogRuns`). A line becomes a template by walking its bytes with seven hand-written scanners; adjacent
  lines with one template are collapsed. Rust strings are byte sequences that are valid UTF-8 (section 4 of RFC 3629); a
  byte is written as the character with the same code.
- **Message compression** (`Whitespace`, `HeadroomBridge`): white-space collapsing and the guards around all compressors.
  The leaf actors are arbitrary functions of the message position and the content.
- **Scheduler** (`Strings`, `Cron`, `Tasks`, `CronCommand`, `FailureAlerts`, `TickLoop`, `TaskHistory`,
  `SchedulerStore`, `TaskResults`): the cron matcher, the `/cron add` command with its tokenizer and quoter, the tick loop
  as a state machine, failure alerts, and the persistent copy of the task map. Here strings are sequences of Unicode
  scalar values.
- **Model picker** (`ModelPicker`, `PickerSessions`, `PickerLife`): callback data, rendering, and the registry of
  sessions, each of which lives until it is used or expires.
- **Audit log** (`AuditDigits`, `AuditTime`, `AuditLog`, `AuditBounds`, `AuditDatabase`, `AuditRetention`, `AuditExport`):
  timestamps compared as text, queries and their bounds, the two stores, retention, CSV.
- **Heartbeat** (`Heartbeat`): the daily budget of proactive check-ins.

Objects that the program updates in place are classes; loops are loops, proved against functions; pure code is functions.
The tick loop, which interleaves with spawned completions, is a transition system over its steps.

Results that are not what the program's own documentation says:

- A timestamp may have any number of fraction digits, not only nine; durations also take `KB`, `MB` and `GB`; an IPv4
  octet may be any number of up to three digits. The model follows the code.
- A key that consists of four or more hexadecimal letters and digits is masked as an id, so that lines with different
  such keys share a template (`LogShapes.HexKeysCollide`); all other keys keep lines apart
  (`LogShapes.SameTemplateIffSameKeys`).
- `compress_log` always returns a text, also when it is not smaller; the caller's guard decides.
- The safety net of `compress_messages` cannot see a larger total, only an equal one (`HeadroomBridge.OriginalsSentIff`).
- Keeping the first 500 bytes of a task's result panics exactly when they end inside a character
  (`TaskResults.TruncationIsValidIff`, `TaskResults.LongResultPanics`).
- The due check is right for intervals up to (2^63 - 1) / 1000 seconds only. Longer ones make it panic, except for the
  last (2^63 - 1) / 1000 values of 64 bits, which turn negative and make the task due at once (`Tasks.IntervalDue`).
  `/cron add` accepts them all (`CronCommand.AddedIntervalTask`). If an enabled task with an interval that panics is in
  the map at a due check, the loop is gone: nothing is dispatched any more, also when the task is removed afterwards
  (`TickLoop.OversizedCommandStopsAll`, `TickLoop.DeadForGood`).
- A cooldown of 2^63 seconds or more has no effect (`FailureAlerts.CooldownIsKeptIff`).
- Adding a task under the id of another one takes the last run it comes with. At any point of the loop, its dispatches
  then stay apart in every run if and only if one of these holds (`TickLoop.UpdateIsSafeIff`): it waits to be marked in
  the current tick; its last run is no earlier than the latest dispatch; the schedule asks for no more distance than
  there will be; no time that is too early matches its cron expression; it cannot be dispatched at all. In the last four
  cases, a due check whose clock is already read must permit the dispatch it causes, too. An enabled task that is added between ticks and is not
  safe can be dispatched too early in the next tick (`TickLoop.ReaddingFiresAgain`). A task added for the first time is
  always safe (`TickLoop.AddingOnceIsCareful`).
- `parse_callback` also accepts data the picker never emits (`ModelPicker.ForeignDataParses`); what it accepts can
  have been emitted if and only if it names a session id and its number is written plainly (`ModelPicker.EmittedIff`).
- Query bounds are compared as text. A bound written with `Z` fails within the unit of its last digit, be that a second
  or a part of one: a query since it loses the events of that unit, and a query until it keeps those after the bound
  (`AuditBounds.SinceZulu`, `AuditBounds.UntilZulu`). The offset of a bound is ignored, so that a query goes wrong for
  events between the time written and the time denoted (`AuditBounds.SinceShifted`, `AuditBounds.UntilShifted`).
- The store documentation promises chronological query results. The in-memory store gives them if and only if the
  events were stored in chronological order (`AuditLog.QueryInOrderIff`); the database store, for any order in which its
  database may list them, only if all events have one timestamp (`AuditDatabase.ListedQueryInOrderIff`). Insertion order
  is promised for all events; the database store sorts them by time, which is the same for every listing order if and
  only if they were stored in chronological order, no two at one time (`AuditDatabase.AllInInsertionOrderIff`).
- Retention panics for more days than the clock library can go back, to the year -262143
  (`AuditRetention.RetentionPanicsIff`).
- The daily budget is kept in all runs over a sequence of dates if and only if no date comes back in it
  (`Heartbeat.BudgetHoldsIff`); one that does starts with a fresh budget (`Heartbeat.ReturningDateResetsBudget`).
- Loading persisted tasks makes memory and store agree if and only if every record has its task's own key
  (`SchedulerStore.Scheduler.LoadPersisted`).

## Model

| member | source | states |
|---|---|---|
| Utf8.ValidSplit | crates/core/src/headroom_bridge.rs:573-588 | cutting a valid string at a character boundary gives two valid strings, so `&line[start..end]` at boundaries cannot panic |
| Utf8.BoundaryAfterAscii | crates/core/src/headroom_bridge.rs:521-569 | a scanner that ends after an ASCII byte ends at a character boundary |
| LogScanners.TakeTimestamp | crates/core/src/headroom_bridge.rs:597-650 | finds exactly the date-time skeleton with optional fraction and zone that starts at the position |
| LogScanners.TakeUuid | crates/core/src/headroom_bridge.rs:653-677 | the nested group loops find exactly 36 characters of the 8-4-4-4-12 shape, guarded on both sides |
| LogScanners.TakeIpv4 | crates/core/src/headroom_bridge.rs:680-721 | finds exactly four dotted octets with optional port, no fifth group, guarded on both sides |
| LogScanners.TakeDuration | crates/core/src/headroom_bridge.rs:724-766 | finds exactly a number with optional fraction and the longest unit, guarded on both sides |
| LogScanners.LongestUnit | crates/core/src/headroom_bridge.rs:742-759 | the longest-match loop over the unit list picks two letters before one, and `B` last |
| LogScanners.TakeHex | crates/core/src/headroom_bridge.rs:777-813 | finds exactly a `0x` number or a run of four or more hexadecimal digits with a letter in it, guarded on both sides |
| LogScanners.AlphaInRun | crates/core/src/headroom_bridge.rs:797-809 | the letter flag of the loop means that the hexadecimal run goes on past its leading decimal digits |
| LogScanners.TakeInt | crates/core/src/headroom_bridge.rs:817-834 | finds exactly a maximal digit run not next to a word byte or a dot |
| LogScanners.TakeKvValue | crates/core/src/headroom_bridge.rs:840-865 | finds exactly the quoted value or the run up to a separator; nothing for an empty value |
| LogTemplates.MaskedIsWhole | crates/core/src/headroom_bridge.rs:652-834 | no placeholder but a timestamp begins or ends inside a word: the over-masking defence |
| LogTemplates.ValueEndsAtBoundary | crates/core/src/headroom_bridge.rs:840-865 | a value of arbitrary bytes ends at a character boundary |
| LogTemplates.PieceIsValid | crates/core/src/headroom_bridge.rs:521-588 | after every step the index is at a character boundary and what was written is valid UTF-8 |
| LogTemplates.TemplateFromIsValid | crates/core/src/headroom_bridge.rs:521-569 | the template of a valid line is valid UTF-8 |
| LogTemplates.CopyNextUtf8Char | crates/core/src/headroom_bridge.rs:573-588 | copies exactly one character and stops at the next boundary |
| LogTemplates.LogTemplate | crates/core/src/headroom_bridge.rs:521-569 | terminates without a slice off a boundary and appends the template, fields taken in the fixed order |
| LogFields.FoundIff | crates/core/src/headroom_bridge.rs:597-834 | a scanner finds a field of its kind exactly where a text of the kind stands between the required neighbours; the kinds are described by their texts |
| LogFields.ValueIff | crates/core/src/headroom_bridge.rs:840-865 | a value is found exactly where a closed quotation or a non-empty text up to a separator stands |
| LogFields.FieldIsMasked | crates/core/src/headroom_bridge.rs:524-569 | a field becomes the placeholder of its kind unless a kind looked for earlier begins at the same place |
| LogFields.OtherwiseCopied | crates/core/src/headroom_bridge.rs:549-568 | where no field begins, an equals sign masks its value, and any other character is copied |
| LogFieldLines.FieldLine | crates/core/src/headroom_bridge.rs:521-834 | a digit run, dotted address, UUID, number with a unit, timestamp or hexadecimal id followed by the end or a space becomes `<INT>`, `<IP>`, `<UUID>`, `<DUR>`, `<TS>` or `<HEX>`, and the rest after the space is masked as a line of its own |
| LogShapes.LeftIrrelevant | crates/core/src/headroom_bridge.rs:653-834 | scanning a suffix depends on the byte before it only through being a word byte or a dot |
| LogShapes.StampIsScanned | crates/core/src/headroom_bridge.rs:597-650 | every well-formed timestamp, with any fraction and zone shape, is taken whole before a space or the end |
| LogShapes.TimestampedLine | crates/core/src/headroom_bridge.rs:521-569 | timestamp, space and rest become `<TS> ` and the template of the rest as a line of its own |
| LogShapes.PairLineTemplate | crates/core/src/headroom_bridge.rs:550-561 | a line of `key=value` pairs keeps its keys and loses its values, quoted or not |
| LogShapes.KeyLineInjective | crates/core/src/headroom_bridge.rs:550-551 | the template of such a line determines the shown keys |
| LogShapes.SameTemplateIffSameKeys | crates/core/src/headroom_bridge.rs:550-561 | two such lines share a template exactly when they show the same keys in order, whatever the values |
| LogShapes.HexKeysCollide | crates/core/src/headroom_bridge.rs:768-813 | two different hexadecimal keys give one template |
| LogTokens.TimestampStopsAtSpace | crates/core/src/headroom_bridge.rs:609-613 | what is scanned as a timestamp does not depend on what follows a space, unless a date comes before the space |
| LogTokens.TokenAndRest | crates/core/src/headroom_bridge.rs:521-569 | the template of a token, a space and any rest is put together from the two templates |
| LogTokens.DateAndTimeAreOne | crates/core/src/headroom_bridge.rs:609-613 | a date and a time with a space between are one timestamp, unlike the two on their own |
| LogTokens.TokenLine | crates/core/src/headroom_bridge.rs:521-569 | the template of a line of tokens is the line of their templates |
| LogTokens.SameShapeLinesCollapse | crates/core/src/headroom_bridge.rs:453-513 | a log of two or more lines with token by token equal templates becomes `line  [xN ~ template]`, or `line  [xN]` if the template is the line |
| LogTokens.TokenLinesAreLines | crates/core/src/headroom_bridge.rs:488 | a log whose token lines end with a line feed each has just these lines |
| LogCompressor.LinesAreValid | crates/core/src/headroom_bridge.rs:488 | the lines of a valid text are valid |
| LogCompressor.BlocksAreMaximal | crates/core/src/headroom_bridge.rs:453-456 | the runs concatenate to all lines, have one template each, and neighbours differ |
| LogCompressor.MaximalSplitUnique | crates/core/src/headroom_bridge.rs:453-456 | there is only one split into maximal runs |
| LogCompressor.Flush | crates/core/src/headroom_bridge.rs:467-486 | writes the first line, the count for two lines or more, and the template only if it differs from the line |
| LogCompressor.NextLine | crates/core/src/headroom_bridge.rs:488-507 | the next line extends the current run or starts another, and the split stays maximal |
| LogCompressor.CompressLogImpl | crates/core/src/headroom_bridge.rs:460-513 | the streaming loop renders the unique maximal runs of the text, trimmed at the end |
| LogRuns.CompressedLogIsValid | crates/core/src/headroom_bridge.rs:460-513 | the result is valid UTF-8 |
| LogRuns.SingletonsOnly | crates/core/src/headroom_bridge.rs:488-507 | there are as many runs as lines exactly when no neighbours share a template |
| LogRuns.DistinctLinesPassThrough | crates/core/src/headroom_bridge.rs:453-456 | a log without equal neighbours comes back line by line |
| LogRuns.FinalNewlineOptional | crates/core/src/headroom_bridge.rs:488 | a final line feed makes no difference to the lines exactly when the text before it ends in another character than a line end |
| LogRuns.TimestampedRunCollapses | crates/core/src/headroom_bridge.rs:460-513 | two or more lines that differ in their timestamp only become the first line, the count and the template |
| LogRuns.IdenticalLinesCollapse | crates/core/src/headroom_bridge.rs:460-513 | two or more copies of any line become `line  [xN ~ template]`, or `line  [xN]` if the template is the line |
| LogRuns.RunsFollow | crates/core/src/headroom_bridge.rs:467-486 | in a log of many runs, each is written as its first line with its own number and template, before the next |
| Whitespace.CollapseWhitespace | crates/core/src/headroom_bridge.rs:422-437 | the flag-driven loop gives the words of the text joined by single spaces |
| Whitespace.CollapseKeepsVisible | crates/core/src/headroom_bridge.rs:419-421 | the characters other than white space stay, in order |
| Whitespace.WordsOfJoined | crates/core/src/headroom_bridge.rs:422-437 | joining and splitting again gives the same words |
| Whitespace.CollapsedText | crates/core/src/headroom_bridge.rs:422-437 | the result is valid, not longer, has the same visible characters and collapses to itself |
| Whitespace.SameWhitespace | crates/core/src/headroom_bridge.rs:427-428 | white space of encoded text is white space of the characters it encodes |
| HeadroomBridge.TrimmedAway | crates/core/src/headroom_bridge.rs:238 | trimming leaves nothing exactly when there is no visible character |
| HeadroomBridge.HeadroomHook.Compressed | crates/core/src/headroom_bridge.rs:212-241 | a content never grows; a rewrite is strictly smaller, not blank, and only made from 200 bytes on |
| HeadroomBridge.HeadroomHook.CompressOne | crates/core/src/headroom_bridge.rs:212-241 | picks the compressor by detected type and applies the guards, for every behaviour of the actors |
| HeadroomBridge.CompressorOfType | crates/core/src/headroom_bridge.rs:212-241 | which compressor each content type gets, with the fallback to white space collapsing, and the limit of 200 bytes |
| HeadroomBridge.TokensAreQuarters | crates/core/src/headroom_bridge.rs:66-73 | the token estimate is the sum of the quarters of the byte lengths |
| HeadroomBridge.HeadroomHook.CompressMessages | crates/core/src/headroom_bridge.rs:146-206 | as many messages, everything but the content unchanged, no content longer, and either the originals or a strictly smaller token total |
| HeadroomBridge.OriginalsSentIff | crates/core/src/headroom_bridge.rs:182-193 | the total never grows, and the originals are sent exactly when the gate is closed or no message saves a whole token |
| Strings.SplitJoin | crates/agenda/src/scheduler.rs:550-552 | splitting undoes joining when no part contains the separator |
| Strings.ParseDecimal | crates/agenda/src/scheduler.rs:561 | a printed number parses to itself unless it does not fit |
| Cron.BaseMatches | crates/agenda/src/scheduler.rs:573-587 | the text of a star, a value or a range admits exactly the values it denotes within the limits |
| Cron.ItemMatches | crates/agenda/src/scheduler.rs:555-606 | the text of an item with optional step matches exactly its set, without underflow; a bad step matches nothing |
| Cron.FieldMatches | crates/agenda/src/scheduler.rs:545-553 | the text of a list matches exactly the union, for any value, `*` alone being unchecked |
| Cron.FieldDenotesSet | crates/agenda/src/scheduler.rs:545-606 | for a value within the limits, matching is membership in the denoted set |
| Cron.MalformedPart | crates/agenda/src/scheduler.rs:555-606 | a part with a character outside the cron alphabet matches nothing |
| Tasks.CronDue | crates/agenda/src/scheduler.rs:511-541 | a cron task is due exactly when all five sets contain the moment and 60 seconds have passed since its last run |
| Tasks.IntervalDue | crates/agenda/src/scheduler.rs:503-509 | the check is right for every moment exactly for intervals up to (2^63 - 1) / 1000 seconds; which intervals make it panic, and which make the task due at once |
| Tasks.CheckPanicsIff | crates/agenda/src/scheduler.rs:501-543 | the check panics for an interval out of range and for no other task |
| Tasks.FiveFieldsOnly | crates/agenda/src/scheduler.rs:513-517 | a cron expression of any other number of fields is never due |
| CronCommand.TokenizeQuoted | crates/agenda/src/scheduler.rs:653-683 | the loop computes the fold of the quoting rules over the input, and rejects an open quote |
| CronCommand.FeedQuoted | crates/agenda/src/self_update.rs:16-18 | a quoted value adds exactly the value to the current token |
| CronCommand.TokenizeInvertsQuote | crates/agenda/src/scheduler.rs:653-683 | tokenizing quoted values joined by spaces gives back exactly the non-empty ones |
| CronCommand.ParseQuotedCronAdd | crates/agenda/src/scheduler.rs:613-651 | for any quoted schedule and command: both trimmed, or the error for a missing or blank one |
| CronCommand.OpenQuoteIsError | crates/agenda/src/scheduler.rs:653-683 | an open quote after any complete text is a syntax error, and closing it mends the text |
| CronCommand.WrongTokens | crates/agenda/src/scheduler.rs:613-617 | anything but `/cron`, `add` and two more tokens is a syntax error |
| CronCommand.CronFieldCount | crates/agenda/src/scheduler.rs:624-641 | any five words are accepted as a schedule; any other number, the first not being `every`, is an invalid schedule |
| CronCommand.BadInterval | crates/agenda/src/scheduler.rs:685-701 | an interval without a number, or with another unit, is rejected |
| CronCommand.PlainTextIsSplit | crates/agenda/src/scheduler.rs:653-683 | text without quotes is tokenized at white space of any kind and amount |
| CronCommand.IntervalValue | crates/agenda/src/scheduler.rs:685-701 | a number and a unit give their product exactly when it is positive and fits 64 bits |
| CronCommand.EveryMeansInterval | crates/agenda/src/scheduler.rs:625-628 | `every Nh` is an interval of 3600 N seconds exactly when that is positive and fits 64 bits; `m` and `s` alike |
| CronCommand.AddedCronTaskIsDue | crates/agenda/src/scheduler.rs:501-651 | a quoted cron schedule added by command gives a task due exactly at the moments in its five sets |
| CronCommand.AddedIntervalTask | crates/agenda/src/scheduler.rs:501-651 | every interval within 64 bits is accepted by command; its task is due at once or makes the check panic |
| FailureAlerts.TaskCell.RecordFailure | crates/agenda/src/scheduler.rs:77-102 | the new task and the event, for every policy and time |
| FailureAlerts.TaskCell.RecordSuccess | crates/agenda/src/scheduler.rs:105-107 | resets the streak and nothing else |
| FailureAlerts.StreakIsTrailing | crates/agenda/src/scheduler.rs:77-107 | after any history, from any stored task, the streak is the number of trailing failures, saturated |
| FailureAlerts.LastAlertIsLatest | crates/agenda/src/scheduler.rs:88-95 | the stored alert time is that of the latest alert, the one the task came with included |
| FailureAlerts.ResultIsLatest | crates/agenda/src/scheduler.rs:82 | the stored result is the text of the latest outcome |
| FailureAlerts.AlertIff | crates/agenda/src/scheduler.rs:77-102 | an alert is raised exactly by a failure at the threshold when every earlier alert is at least the cooldown old |
| FailureAlerts.AlertsAreSpaced | crates/agenda/src/scheduler.rs:58-67 | two alerts are never closer than the cooldown, whatever successes come between |
| FailureAlerts.CooldownIsKeptIff | crates/agenda/src/scheduler.rs:88-91 | the cooldown is kept exactly when it is below 2^63 seconds |
| TickLoop.DuePermits | crates/agenda/src/scheduler.rs:501-543 | a due check permits a dispatch of every task that is safe at the time read for it |
| TickLoop.StepKeepsInv | crates/agenda/src/scheduler.rs:402-497 | every step of the loop, with the clock read before the lock is taken, of a completion or of an API call keeps the invariant |
| TickLoop.LastRunCoversDispatches | crates/agenda/src/scheduler.rs:492-495 | at a due check the last run is never before the latest dispatch, unless an added task brought an earlier one |
| TickLoop.DispatchesAreSpaced | crates/agenda/src/scheduler.rs:393-543 | in every run with safe additions, dispatches are at least the interval or 60 seconds apart, and a one-time task is dispatched at most once |
| TickLoop.CronOncePerMinute | crates/agenda/src/scheduler.rs:529-533 | a cron task is dispatched at most once per clock minute |
| TickLoop.OnceNotEarly | crates/agenda/src/scheduler.rs:510 | a one-time task is not dispatched before its time |
| TickLoop.AddingOnceIsCareful | crates/agenda/src/scheduler.rs:335-347 | a task added once, at any point of a run, is added safely, so that the results above hold for it |
| TickLoop.UpdateIsSafeIff | crates/agenda/src/scheduler.rs:334-541 | adding a task, at any point of a tick or between ticks, keeps its dispatches apart in every run that follows exactly when it is safe or about to be marked |
| TickLoop.ReaddingFiresAgain | crates/agenda/src/scheduler.rs:334-541 | an enabled task added between ticks that is not safe can be dispatched too early in the next tick, whatever else is due |
| TickLoop.TickDispatchesExactlyDue | crates/agenda/src/scheduler.rs:405-496 | a tick dispatches exactly the tasks its due check found, each once, whatever happens between |
| TickLoop.DeadForGood | crates/agenda/src/scheduler.rs:402-418 | once a due check has panicked, nothing is checked or dispatched, whatever happens to the tasks |
| TickLoop.OversizedIntervalStopsAll | crates/agenda/src/scheduler.rs:402-418 | with an enabled task in the map whose interval is out of range, nothing is dispatched beyond a tick already under way, unless the task is touched before the next due check |
| TickLoop.OversizedCommandStopsAll | crates/agenda/src/scheduler.rs:402-651 | one accepted command is enough for that; removing its task after the due check does not help |
| TaskHistory.RecordIsHistory | crates/agenda/src/scheduler.rs:433-484 | in every run that neither adds nor removes a task, its streak, alert time and result are those of its completions, in order, as in the history theorems above |
| TaskHistory.LastWriteWins | crates/agenda/src/scheduler.rs:371-497 | its last run is the time of its latest dispatch mark or completion, and its flag the one set last |
| TaskHistory.RemovedIsGone | crates/agenda/src/scheduler.rs:350-358 | a removed task is gone in every run until it is added again, whatever completions arrive |
| TaskHistory.DispatchedIffTime | crates/agenda/src/scheduler.rs:405-496 | a tick dispatches a task exactly when it is enabled and its time has come, said without the due check |
| TaskHistory.DispatchedWasDue | crates/agenda/src/scheduler.rs:402-497 | in every run, whatever was dispatched was enabled and its time had come at the check |
| TaskResults.TruncationIsValidIff | crates/agenda/src/scheduler.rs:435-439 | keeping 500 bytes succeeds exactly when they do not end inside a character, and then gives these bytes and three dots, a valid text; shorter results stay |
| TaskResults.LongResultPanics | crates/agenda/src/scheduler.rs:435-439 | a valid result for which the slice panics |
| SchedulerStore.CallKeepsAgreement | crates/agenda/src/scheduler.rs:335-388 | each API call keeps memory and store equal and leaves other records alone |
| SchedulerStore.CallsKeepAgreement | crates/agenda/src/scheduler.rs:335-388 | so does every sequence of calls |
| SchedulerStore.EachTaskHasItsFate | crates/agenda/src/scheduler.rs:335-388 | after every sequence of calls, the task under an id is the one added last with the flag set last, unless removed, in memory and in the store |
| SchedulerStore.AgreementNeedsOwnKeys | crates/agenda/src/scheduler.rs:239-255 | memory and store can be equal only if every task is stored under its own id |
| SchedulerStore.TaskStore.All | crates/agenda/src/scheduler.rs:239-255 | lists the task of each record under the prefix once and nothing else, whatever its key |
| SchedulerStore.Scheduler.Add | crates/agenda/src/scheduler.rs:335-347 | the new task map and records; agreement is kept |
| SchedulerStore.Scheduler.Remove | crates/agenda/src/scheduler.rs:350-358 | the new task map and records, and whether the task existed; agreement is kept |
| SchedulerStore.Scheduler.SetEnabled | crates/agenda/src/scheduler.rs:371-388 | the new task map and records, and whether the task was found; agreement is kept |
| SchedulerStore.Scheduler.LoadPersisted | crates/agenda/src/scheduler.rs:321-332 | inserts and counts the listed tasks; into an empty scheduler it establishes agreement exactly when every record has its own key |
| SchedulerStore.LastInsertedStays | crates/agenda/src/scheduler.rs:321-332 | of several listed tasks with one id, the last one stays |
| SchedulerStore.Restart | crates/agenda/src/scheduler.rs:316-332 | a fresh scheduler on the same store ends up with the same tasks |
| ModelPicker.SplitCallbackIff | crates/channels/src/model_picker.rs:147-155 | the four parts are found exactly in data printed from them |
| ModelPicker.CallbackRoundTrip | crates/channels/src/model_picker.rs:130-168 | every printed callback parses back to its action |
| ModelPicker.ForeignDataParses | crates/channels/src/model_picker.rs:144-168 | for every session some data that is never printed parses too |
| ModelPicker.ParsedIsPrintedIff | crates/channels/src/model_picker.rs:144-168 | parsed data was printed for its action exactly when its number has no plus sign and no leading zeros, or is the 0 of a cancel |
| ModelPicker.EmittedIff | crates/channels/src/model_picker.rs:130-168 | of all strings, exactly those that parse, name an id of the generated form and have such a number can be printed |
| ModelPicker.CallbackDataFits | crates/channels/src/model_picker.rs:127-142 | callback data is at most 64 bytes for every 64-bit index |
| ModelPicker.CallbackText | crates/channels/src/model_picker.rs:127-142 | the texts of the three callbacks |
| PickerSessions.RenderSession | crates/channels/src/model_picker.rs:338-377 | one row per entry of the page, then Prev and Next where there is such a page, and Cancel |
| PickerSessions.PageBounds | crates/channels/src/model_picker.rs:80-84 | the page start lies within the list and no index computation overflows |
| PickerSessions.EntryButtonSelects | crates/channels/src/model_picker.rs:270-287 | the button on a row, pressed by the owner in place and in time, selects exactly the entry shown |
| PickerSessions.NavButtonsTurn | crates/channels/src/model_picker.rs:262-269 | each navigation button turns to the neighbouring page, which exists |
| PickerSessions.CancelButtonCancels | crates/channels/src/model_picker.rs:280-287 | the cancel button cancels and removes the session |
| PickerSessions.PagesShowEverything | crates/channels/src/model_picker.rs:72-84 | the pages one after the other are the list, each entry once and in order |
| PickerSessions.NextLeadsOn | crates/channels/src/model_picker.rs:262-269 | pressing Next again and again moves one page on each time, up to the last page, and each press is what the button shown sends |
| PickerSessions.BrowsingShowsEveryEntry | crates/channels/src/model_picker.rs:262-377 | the rows rendered on the way from the first page to the last are one row for each entry of the list, in order, with the button that selects it |
| PickerSessions.ModelPickerStore.Open | crates/channels/src/model_picker.rs:206-233 | drops expired sessions, stores the new one at page 0 and renders it; sessions stay well-formed |
| PickerSessions.ModelPickerStore.Handle | crates/channels/src/model_picker.rs:239-289 | the new sessions and the outcome for every callback; no consumed session stays, pages stay in range |
| PickerSessions.ModelPickerStore.SetLocation | crates/channels/src/model_picker.rs:294-299 | moves that session and nothing else |
| PickerSessions.ModelPickerStore.SweepExpired | crates/channels/src/model_picker.rs:311-315 | drops exactly the expired sessions |
| PickerSessions.OneEvent | crates/channels/src/model_picker.rs:204-315 | an event cannot bring a session back or change its list, owner or page size; a final outcome removes it |
| PickerSessions.FinalOutcomeIsLast | crates/channels/src/model_picker.rs:239-289 | in every run, after a selection or cancellation every callback for the session gets nothing |
| PickerSessions.SnapshotIsFixed | crates/channels/src/model_picker.rs:54-58 | in every run, a living session has the list it was opened with |
| PickerSessions.ForeignCallbackIsInert | crates/channels/src/model_picker.rs:255-261 | a callback from another user or message changes nothing but drops expired sessions |
| PickerLife.SweepKeepsRecent | crates/channels/src/model_picker.rs:67-69 | a sweep keeps exactly the sessions active within the last 300 seconds, unchanged |
| PickerLife.ExpiredForGood | crates/channels/src/model_picker.rs:239-289 | in every run, a session older than that at a sweep is gone until its id is opened again, and every callback for it is answered with nothing |
| PickerLife.SessionStep | crates/channels/src/model_picker.rs:204-315 | what each event makes of a session, field by field: expiry, page turn, selection, cancellation, move |
| PickerLife.CallbackOutcome | crates/channels/src/model_picker.rs:239-289 | what the caller of each callback is told, with the page number clamped to the last page |
| PickerLife.OpenedSession | crates/channels/src/model_picker.rs:206-233 | the fields of a new session, with a page size of at least one, and what becomes of the others |
| PickerLife.OpenThenSelect | crates/channels/src/model_picker.rs:206-289 | within 300 seconds of opening, the owner selects any entry by its number, and the session is gone |
| PickerLife.HeaderShows | crates/channels/src/model_picker.rs:338-355 | the text above the buttons: page, number of pages and of models, and the hint for an empty list |
| AuditTime.FractionOrder | crates/audit/src/event.rs:102 | fractions of different length compare as text like the numbers they show, thanks to plus before dot before digits |
| AuditTime.TextOrder | crates/audit/src/query.rs:92-101 | text order of timestamps is the order of their fields |
| AuditTime.TextOrderIsTimeOrder | crates/audit/src/store.rs:112 | text order of timestamps is the order of the points in time |
| AuditLog.MatchesWindow | crates/audit/src/query.rs:91-123 | an event matches exactly when its time lies in the window and every other filter agrees |
| AuditBounds.ZuluOrder | crates/audit/src/query.rs:92-101 | a timestamp comes before a bound with `Z` exactly when it is before the end of the unit of its last digit |
| AuditBounds.ShiftOrder | crates/audit/src/query.rs:92-101 | a timestamp and a bound with an offset compare by the time written, then by digits and offset |
| AuditBounds.SinceZulu | crates/audit/src/query.rs:92-96 | a since bound with `Z` and any number of digits is right exactly for events outside the unit of its last digit |
| AuditBounds.UntilZulu | crates/audit/src/query.rs:97-101 | an until bound with `Z` is right exactly for events that are not later within that unit |
| AuditBounds.SinceShifted | crates/audit/src/query.rs:92-96 | a since bound with an offset is right exactly for events not between the time written and the time denoted; the exact case of equal times |
| AuditBounds.UntilShifted | crates/audit/src/query.rs:97-101 | the same for an until bound |
| AuditLog.InMemoryAuditStore.Append | crates/audit/src/store.rs:88-90 | adds the event at the end |
| AuditLog.InMemoryAuditStore.Query | crates/audit/src/store.rs:92-100 | the matching events, in insertion order |
| AuditLog.InMemoryAuditStore.PurgeBefore | crates/audit/src/store.rs:110-113 | keeps the events not before the cutoff, in order |
| AuditLog.QuerySelectsWindow | crates/audit/src/store.rs:92-100 | a query by time selects, in order, exactly the events within the window |
| AuditLog.PurgeSelectsRecent | crates/audit/src/store.rs:110-113 | purging selects, in order, exactly the events at or after the cutoff |
| AuditLog.InOrderIsChronological | crates/audit/src/store.rs:210-212 | text order of a list of events is chronological order |
| AuditLog.QueryInOrderIff | crates/audit/src/store.rs:92-100 | all query results are chronological exactly when the stored list is |
| AuditDatabase.SortIsOrdered | crates/audit/src/store.rs:211 | the sort gives the same events in text order |
| AuditDatabase.AllInInsertionOrderIff | crates/audit/src/store.rs:199-213 | all events come back in insertion order, for every listing order, exactly when they were stored in chronological order, no two at one time |
| AuditDatabase.ListedQueryInOrderIff | crates/audit/src/store.rs:186-197 | query results are chronological for every listing order and query exactly when all events have one timestamp |
| AuditDatabase.PluresDbAuditStore.Append | crates/audit/src/store.rs:174-184 | stores the event under its own id, as the other operations need |
| AuditDatabase.PluresDbAuditStore.Query | crates/audit/src/store.rs:186-197 | the matching events in listing order, each once |
| AuditDatabase.PluresDbAuditStore.All | crates/audit/src/store.rs:199-213 | every stored event once, in text order |
| AuditDatabase.PluresDbAuditStore.PurgeBefore | crates/audit/src/store.rs:219-238 | deletes the records under the ids of the events before the cutoff, and no other |
| AuditDatabase.PurgeDeletesOutdated | crates/audit/src/store.rs:219-238 | with every event under its own id, these are exactly the events before the cutoff |
| AuditDatabase.PurgeDeletesById | crates/audit/src/store.rs:219-238 | in general, a record stays exactly when no event before the cutoff has its key as id |
| AuditRetention.ApplyRetention | crates/audit/src/retention.rs:82-88 | either store is purged before the cutoff, or nothing happens when events are kept forever or the clock library panics |
| AuditRetention.RetentionPanicsIff | crates/audit/src/retention.rs:86 | it panics exactly for more days than there are since the first day of the clock library |
| AuditRetention.CutoffOrder | crates/audit/src/retention.rs:82-88 | the timestamps before the cutoff text are those of times more than the given days ago |
| AuditRetention.RetentionKeepsWindow | crates/audit/src/retention.rs:77-88 | in memory, retention removes exactly the events older than the given days, in order |
| AuditRetention.DurableRetentionKeepsWindow | crates/audit/src/retention.rs:77-88 | in the database, it deletes exactly those, and no other record |
| AuditExport.ExportCsv | crates/audit/src/export.rs:57-73 | the header and one escaped row per event, in order |
| AuditExport.ReadField | crates/audit/src/export.rs:76-82 | an escaped field reads as the field, whatever it contains |
| AuditExport.PlainIffUnquoted | crates/audit/src/export.rs:76-82 | exactly the fields without comma, quote and line end are written as they are |
| AuditExport.ExportReadsBack | crates/audit/src/export.rs:57-82 | a reader after section 2 of RFC 4180 gets exactly the header and the seven values of each event |
| Heartbeat.QuietHoursAreAnArc | crates/core/src/heartbeat.rs:55-67 | quiet hours are the hours reached going forward from the start before the end, also across midnight, and for configured hours above 23 |
| Heartbeat.HeartbeatRunner.NextTick | crates/core/src/heartbeat.rs:99-102 | returns the counter and advances it, wrapping at 64 bits |
| Heartbeat.HeartbeatRunner.GatherWork | crates/core/src/heartbeat.rs:241-291 | collects the work items in order |
| Heartbeat.WorkItemsIffWork | crates/core/src/heartbeat.rs:294-297 | there are work items exactly when something is pending, enabled, unfulfilled or evaluable |
| Heartbeat.ItemsListed | crates/core/src/heartbeat.rs:241-291 | which texts are work items |
| Heartbeat.ItemsInOrder | crates/core/src/heartbeat.rs:241-291 | pending tasks come before checklist entries, promises and evaluable tasks, each kind in the order of its list |
| Heartbeat.HeartbeatRunner.Tick | crates/core/src/heartbeat.rs:232-354 | spends one unit exactly when enabled, outside quiet hours, with work and within the budget, else changes nothing; emits the tick or, with an event spine, the message |
| Heartbeat.TickSpelledOut | crates/core/src/heartbeat.rs:232-354 | from any state, a tick changes it exactly when enabled, not in quiet hours, with work in some list and the stored count of the day below the budget; what is emitted then, and nothing otherwise |
| Heartbeat.TickInRun | crates/core/src/heartbeat.rs:232-354 | in every run, the same with what was spent on the day; nothing is emitted without all of these |
| Heartbeat.CounterWraps | crates/core/src/heartbeat.rs:99-102 | the successor of a tick number, at the greatest 64-bit number the least one |
| Heartbeat.BudgetInvariant | crates/core/src/heartbeat.rs:299-311 | what was spent on a day is all counted by the store, until another day comes |
| Heartbeat.DailyBudgetHolds | crates/core/src/heartbeat.rs:232-379 | in every run no day sees more emissions than the budget, as long as no date comes back |
| Heartbeat.BudgetHoldsIff | crates/core/src/heartbeat.rs:299-311 | all runs over a sequence of dates keep every day within the budget exactly when no date comes back |
| Heartbeat.ReturningDateResetsBudget | crates/core/src/heartbeat.rs:300-302 | any date that comes back after another one gets a second budget |
| Heartbeat.TickNumbersConsecutive | crates/core/src/heartbeat.rs:99-102 | the numbers of emitted tick events count up from the stored counter without gaps, wrapping at 64 bits |
| Heartbeat.NumbersFollow | crates/core/src/heartbeat.rs:328-340 | until the counter wraps, the k-th number is the first plus k |

## Left out

- Adapters and plumbing: Telegram, HTTP, stdio and Tauri channels, CLI wiring, model clients, bitnet FFI, SQLite and file migration.
- The steer/remove/drain turn protocol and pending responses: their delivery depends on an async runtime that is not part of this model.
- `compress_prose`, `compress_code` and `compress_json_array`: they rest on actors outside the modelled files and are arbitrary functions here.
- Observability writes of the message compressor: best-effort I/O without effect on the result.
- Concurrent agreement of scheduler memory and store: completions write to the store after releasing the lock, and the dispatch mark is not written, so agreement is stated for API calls one after the other.
- A store that fails: the agreement of memory and store is stated for one that does not.
- Calendar arithmetic, id generation, JSON encoding and locks: the calendar is any function from points in time to fields, ids are fresh parameters, records hold decoded values.
- Leap seconds and years after 9999 in timestamps: the clock does not produce them. Bounds in lower-case letters or with another separator than `T`: RFC 3339 allows them, the program compares them as they are.
- Texts of task errors and of the heartbeat message: the loop stores whatever text a completion brings, and the message carries its list of items; the fixed words around them are constants.
- Widths of counts and lengths: numbers that count lines, messages or bytes in memory are unbounded; the 32-bit streak, the 64-bit casts, the parsed integers and the page index computations are modelled at their width.
- Idempotence of log compression: not intended, since a marker changes its line.
- Accessors and builders (`list`, `get`, `len`, `location`, the query and retention builders, JSON export): single expressions.
- Issue status transitions, prompt building, model chain selection and the group ring buffer: they touch none of the state modelled here.
