# ecFlow time scheduling, text and HTTP cores in Dafny

This project models the parts of ecFlow in which most can go wrong, and proves what they are
for. `dafny verify dfyconfig.toml` checks all of it.

| files | what they model |
|---|---|
| `TimeSlot.dfy`, `Grid.dfy`, `Calendar.dfy`, `CalendarLaws.dfy`, `TimeSeries.dfy` | hour/minute slots, the slot grid, the suite calendar with its three update paths and two clocks and what it shows after any history, and the time series with its mutable state |
| `TimeSeriesLaws.dfy`, `Scheduler.dfy`, `SchedulerLimits.dfy`, `SchedulerSteps.dfy`, `NodeTimes.dfy`, `NodeRuns.dfy`, `NodeSteps.dfy` | the laws of one series, the protocol of a time attribute over whole runs (ticks, submissions, completions, requeues, missed slots, forced freeing, suite begin), what each step does, which updates it depends on, and a node with several attributes: its requeue decision, its runs, and how its steps are those of its attributes |
| `TimeSeriesText.dfy`, `TimeTexts.dfy`, `Decimal.dfy` | the definition and state text of a series, written and read, and which texts say what |
| `Cal.dfy` | yyyymmdd to Julian day and back |
| `Splitters.dfy` | the rival splitters and token getters |
| `CommandLine.dfy`, `CommandErrors.dfy` | the quote-aware command line tokenizer, the lines it accepts and the lines it refuses, and the printer beside it |
| `ByteSearch.dfy`, `Multipart.dfy`, `HeaderBlocks.dfy`, `MultipartStreams.dfy`, `MultipartLaws.dfy`, `MultipartCuts.dfy`, `MultipartOutcomes.dfy`, `MultipartForm.dfy` | the streaming multipart parser, what it makes of every header block and of every stream, and of every way to cut a stream, and the serializer |
| `SocketStream.dfy`, `Chunked.dfy`, `SizeLines.dfy`, `ChunkedBodies.dfy`, `ChunkedWriters.dfy` | the buffered socket reader, the line reader, the chunked-transfer reader and writer, what a size line says, what the reader makes of every stream, and what every provider sends |
| `ThreadPool.dfy` | the thread pool as interleaved steps |
| `Base64.dfy`, `Base64Laws.dfy` | the streaming base64 encoder |

Code that changes state step by step is a class or a method with loops, proved against a
function on values; the laws are lemmas about those functions. Times of the calendar are whole
seconds, times of a series are whole minutes, days are integers. The current time, the receipts
of a socket and the writes of a content provider are inputs.

## What holds, and what does not

Where a promise does not hold of the code, the exact condition under which it does is proved.

- No slot is used twice between two resets (`Scheduler.NoSlotIsUsedTwice`), over every run in which
  no update takes the clock of the series back over one of its slots without starting a new period.
  That is the exact condition: for every series, calendar and update, slots stay in order whatever
  happens before and after it if and only if it is not such an update
  (`SchedulerLimits.StepBackIsExact`). For absolute series it means that the minute of the day goes
  back while the day-changed flag is unset (`SchedulerLimits.UnseenStepBack`), as it does in an update
  of six days and 23 hours (`Scheduler.HiddenWeekRepeatsASlot`) but not in one of whole weeks
  (`SchedulerLimits.WholeWeeksAreHarmless`); for relative series, that the increment is negative and
  takes a minute back (`SchedulerLimits.NegativeIncrement`). For a node with several attributes on one
  clock the same holds of the minutes for which it is submitted (`NodeRuns.NoMinuteIsUsedTwice`).
- A series allowed to requeue always has a slot left to wait for, and can be submitted again once
  updates of at most a minute have brought the clock to or past it (`Scheduler.NeverStuckInQueue`).
  Sixty seconds is the sharp bound (`Scheduler.SixtySecondsIsSharp`): a longer update can step over
  the last slot, and then the node waits for the next day (`Scheduler.SteppedOver`).
- A node with several time attributes, requeued because one of them asks, has something to wait for
  if and only if some attribute has its last slot still to come, expired ones counting only if slots
  are rewound (`NodeTimes.RequeuedNodeWaits`); with the single slots 12:00 and 10:00, in this order, the first
  missed by a command, it is left in the queue with nothing (`NodeTimes.NodeCanBeStuck`).
- "The day changed exactly when midnight was crossed" is decided by comparing days of the week.
  It fails exactly when a non-zero multiple of seven midnights was crossed. An increment under
  seven days is not enough: from 23:30, six days and 23 hours cross seven
  (`Calendars.DayChangedIsExact`, `Calendars.UnderSevenDaysIsNotEnough`); the time of day plus
  the increment must be under seven days (`Calendars.WithinAWeek`).
- A job that ran past midnight is meant not to be requeued. The code compares times of day alone: on
  completion, however many updates and midnights after its last requeue, a job asks to be requeued if
  and only if its series is valid, the time of day is in range and, unless that requeue left the
  series expired, not before the time of day of the requeue (`Scheduler.RequeueComparesTimeOfDay`). So
  a job requeued at 10:00, submitted for 11:00 and completing at 11:00 the next day is requeued
  (`Scheduler.OverMidnightIsRequeued`), and so is one requeued at 13:00, after its last slot, submitted
  for 10:00 the next day and completing at 11:00 the day after
  (`Scheduler.ExpiredComparesNothing`).
- A series with an increment asks for a requeue on completion if and only if it is valid, a slot is
  still to come, outside a command its start has been reached, and, unless it is relative, the time of
  day is not before the remembered one (`TimeSeriesLaws.SeriesAsks`).
- A real calendar that follows the wall clock is in phase with it, and after any mixture of update
  paths suite time, duration and increment are told by the history of updates alone
  (`CalendarLaws.RealTimeline`, `CalendarLaws.InPhaseWithWallClock`).
- The slots listed for users are the free minutes exactly when the increment divides the range
  (`TimeSeriesLaws.ListedSlotsAreFreeSlots`), and the `requeueable` query is right except between
  the last slot and finish (`TimeSeriesLaws.RequeueableIsExact`).
- The date conversions are inverse exactly from 0000-03-01 on; in January and February of year 0
  they are not, and 0000-02-29 and 0000-03-01 get Julian days that are not consecutive
  (`GregorianDates.DateRoundTrip`, `GregorianDates.SuccessorIsOneMore`).
- For every header block, the part announced has the name and file name of the last disposition line
  and the value of the last type line, and any other line changes nothing
  (`HeaderBlocks.HeadersEnd`, `HeaderBlocks.OtherLinesAreIgnored`). In one piece every stream is parsed
  as a grammar of streams says: all its parts, and where and how it stops (`MultipartStreams.EveryStream`).
- The content of a multipart part does not depend on how the stream is cut, whatever follows it
  (`MultipartLaws.ContentEndsAtDelimiter`). From the opening delimiter on, the outcome of the parse, the
  verdict, the state, validity and the parts, is the same for every cutting if and only if either every header line is
  shorter than 8192 bytes and no CRLF occurs after the closing delimiter, or the first line that is
  not shorter is the first of its header block and longer than 8192, so that the stream is refused
  however it arrives (`MultipartOutcomes.CuttingsAgree`). In one piece the limit is tested on the
  first line of each header block only (`MultipartCuts.OnePieceIsExact`), so a stream can be accepted
  whole and refused in pieces. From the start of the stream, the outcome is the same for every cutting
  if and only if the opening delimiter does not occur in it at all, since a chunk that holds only a
  part of it is thrown away (`MultipartOutcomes.FromTheStart`).
- For names, file names and content types that the header lines can carry, the form round trip holds in
  one piece if and only if no disposition line is longer than 8192 bytes and no content holds the
  delimiter, and in every cutting that leaves the opening delimiter in the first chunk if and only if
  all header lines are shorter than 8192 bytes and no content holds the delimiter; an empty form is
  never valid (`MultipartForm.FormRoundTrip`, `MultipartForm.FormRoundTripInChunks`).
- The chunked reader accepts a body that ends with a chunk not followed by an empty line as it does
  one that ends with the last chunk, and nothing else (`ChunkedBodies.AcceptedBodies`); for every
  stream, accepted or refused, the data that arrived is delivered (`ChunkedBodies.EveryStream`). A size
  line says what a grammar of numerals says: hexadecimal digits in either case after blanks, a sign and
  `0x`, whatever follows them (`SizeLines.SizeLineSays`). What a provider sends is accepted if and only
  if it says that it is done in a call that the writer still makes, and what it sends afterwards is left
  unread (`ChunkedWriters.EveryProvider`); so for a provider that is done at the end of its last call, if
  and only if no call but that one ends with an empty write (`Chunked.WriterIsHeardOut`).
- A pool that is shut down and goes on until it can go on no more has notified and joined all its
  workers (`ThreadPools.ShutdownJoinsAll`).
- When all workers of a pool have exited, every job has been run if and only if none was enqueued
  after the last worker had exited (`ThreadPools.PoolSafety`); a pool without workers has none to
  begin with.
- Splitting a printed command line gives the tokens back if and only if no token has a double
  quotation mark or a backslash, the first is non-empty without single marks and separators, and the
  last, if another, has a character other than a single mark (`CommandLines.PrintSplitRoundTrip`). The
  tokenizer drops a last word in which no unescaped character other than a quotation mark occurs,
  unless a separator follows it, although the comment above it lists an empty token among the
  expected ones (`CommandLines.TrailingSeparatorMatters`). Each of its errors is thrown exactly for the
  lines that break off in its way (`CommandErrors.ErrorsAreExact`).

## Model

| member | source | states |
|---|---|---|
| `TimeSlots.OrderIsByDuration` | ACore/src/TimeSlot.cpp:31-59 | on slots with minutes in range, the field-by-field operators are the order of the durations, past 24 hours too |
| `TimeSlots.SlotOf` | ACore/src/TimeSlot.hpp:37-41 | the slot of a duration has minutes in range and that duration, with hours not reduced |
| `Calendars.Calendar.constructor` | ACore/src/Calendar.cpp:122-125 | a calendar initialised with a clock and a time is in the begun state |
| `Calendars.Calendar.Begin` | ACore/src/Calendar.cpp:128-140 | the whole state after begin: zero duration, one-minute increment, suite and initial time equal, no day change |
| `Calendars.Calendar.Update` | ACore/src/Calendar.cpp:142-229 | the three update paths and the hybrid date restore give the value the calendar laws are about |
| `Calendars.Calendar.UpdateDurationOnly` | ACore/src/Calendar.cpp:231-240 | only the duration changes, and only upwards |
| `Calendars.Calendar.UpdateCache` | ACore/src/Calendar.cpp:242-252 | the cache is taken from the day of the suite time |
| `Calendars.HybridSimulatesReal` | ACore/src/Calendar.cpp:128-240 | over every sequence of updates, a hybrid and a real calendar begun together agree on time of day, duration, increment and day change, and the hybrid date is the begin date |
| `Calendars.StepKeepsClockFace` | ACore/src/Calendar.cpp:142-240 | one update keeps that agreement |
| `Calendars.CacheStaysFresh` | ACore/src/Calendar.cpp:221-252 | over every sequence of updates the cached day is the day of the suite time |
| `Calendars.DayChangedIsExact` | ACore/src/Calendar.cpp:194-200 | the day-changed flag equals "midnight was crossed" if and only if the number of midnights crossed is zero or no multiple of seven |
| `Calendars.WithinAWeek` | ACore/src/Calendar.cpp:194-200 | for increments up to seven days that condition is: time of day plus increment under seven days |
| `Calendars.UnderSevenDaysIsNotEnough` | ACore/src/Calendar.cpp:194-200 | an increment under seven days that crosses seven midnights leaves the flag unset |
| `Calendars.SameDayMovesForward` | ACore/src/Calendar.cpp:194-219 | without a day change a forward update moves the time of day forward by the increment, on both clocks |
| `CalendarLaws.RealTimeline` | ACore/src/Calendar.cpp:142-240 | over every mixture of updates from a begin, a real calendar shows the time of the begin and the sum of the moves since: the poll period in a test, a minute for a poll period under a minute, the wall-clock time since it was last followed otherwise; duration and increment likewise |
| `CalendarLaws.HybridTimeline` | ACore/src/Calendar.cpp:142-240 | a hybrid calendar shows that time of day on the day of the begin |
| `CalendarLaws.InPhaseWithWallClock` | ACore/src/Calendar.cpp:163-178 | if all updates follow the wall clock, suite time and duration have moved by the wall-clock time since the begin, and the increment is the difference of the last two times |
| `CalendarLaws.HistoryTells` | ACore/src/Calendar.cpp:128-240 | after every history the time last followed, the duration and the increment are those the history tells, on both clocks |
| `Grids.OnGridMeaning` | ACore/src/TimeSeries.cpp:355-404 | the points of the stepping loops are the numbers start + k * incr |
| `Grids.OnGridDivides` | ACore/src/TimeSeries.cpp:355-404 | at or above start, those are the minutes whose distance the increment divides |
| `Grids.FirstAfterIsFirst` | ACore/src/TimeSeries.cpp:191-195 | the advancing loop stops at the least grid point strictly after now |
| `Grids.LastBeforeFirstAfter` | ACore/src/TimeSeries.cpp:124-131 | the point one step before the first one past finish is the largest grid point not past finish |
| `Grids.SlotStillToCome` | ACore/src/TimeSeries.cpp:212-280 | before the last slot, the next slot after now is not past the last slot |
| `TimeSeriesModel.CheckSlots` | ACore/src/TimeSeries.cpp:76-111 | the constructor's checks pass if and only if all slots are inside a day, the increment is positive and fits between start and finish |
| `TimeSeriesModel.TestTimeSlot` | ACore/src/TimeSeries.cpp:43-56 | a slot passes the range test if and only if it lies inside a day |
| `TimeSeriesModel.TimeSeries.CreateSingle` | ACore/src/TimeSeries.cpp:60-74 | a single slot or the error of the range test; the state invariant holds |
| `TimeSeriesModel.TimeSeries.CreateSeries` | ACore/src/TimeSeries.cpp:76-118 | a series or the first failing check's error; the state invariant holds |
| `TimeSeriesModel.TimeSeries.ComputeLastTimeSlot` | ACore/src/TimeSeries.cpp:124-131 | the loop leaves one increment before the first slot past finish |
| `TimeSeriesModel.TimeSeries.CalendarChange` | ACore/src/TimeSeries.cpp:133-147 | relative series age by the increment, absolute ones are reset at midnight, and the change is reported |
| `TimeSeriesModel.TimeSeries.ResetRelativeDuration` | ACore/src/TimeSeries.cpp:149-163 | a relative duration, and only that, is zeroed |
| `TimeSeriesModel.TimeSeries.DoResetOnly` | ACore/src/TimeSeries.cpp:165-169 | valid again, at the start slot, relative duration zero |
| `TimeSeriesModel.TimeSeries.AdvancePast` | ACore/src/TimeSeries.cpp:191-195 | the loop over 60-minute arithmetic reaches the first slot after the given minute |
| `TimeSeriesModel.TimeSeries.DoReset` | ACore/src/TimeSeries.cpp:171-210 | the whole state after a reset, proved of the loop and the branches |
| `TimeSeriesModel.TimeSeries.DoRequeue` | ACore/src/TimeSeries.cpp:212-280 | the whole state after a requeue, with and without rewinding |
| `TimeSeriesModel.TimeSeries.ComputeNextTimeSlot` | ACore/src/TimeSeries.cpp:282-303 | the loop finds the first slot after now, or NULL if it is past finish |
| `TimeSeriesModel.TimeSeries.Free` | ACore/src/TimeSeries.cpp:317-353 | free if and only if valid and the current minute is one of the slots from the next one on |
| `TimeSeriesModel.TimeSeries.MatchDurationWithTimeSeries` | ACore/src/TimeSeries.cpp:355-404 | the loop comparing hours and minutes succeeds if and only if the minute is on the grid from the next slot to finish |
| `TimeSeriesModel.TimeSeries.MissNextTimeSlot` | ACore/src/TimeSeries.cpp:406-420 | one slot further, expired if that is past finish |
| `TimeSeriesModel.TimeSeries.CheckRequeue` | ACore/src/TimeSeries.cpp:422-547 | the answer on every branch, and the requeue time it forgets |
| `TimeSeriesModel.TimeSeries.Duration` | ACore/src/TimeSeries.cpp:577-588 | the series' clock in whole minutes |
| `TimeSeriesModel.TimeSeries.FreeSlots` | ACore/src/TimeSeries.cpp:590-605 | the grid points before finish, in order, and finish itself |
| `TimeSeriesModel.GridBefore` | ACore/src/TimeSeries.cpp:593-599 | the listing loop gives exactly the grid points before the end, strictly increasing |
| `TimeSeriesLaws.FreshKeepsInv` | ACore/src/TimeSeries.cpp:60-118 | a constructed series satisfies the state invariant |
| `TimeSeriesLaws.OperationsKeepInv` | ACore/src/TimeSeries.cpp:133-280 | every operation keeps it: the next slot is start + k * incr, and the series is valid exactly while that is not past finish; a single slot stays next |
| `TimeSeriesLaws.MissedKeepsInv` | ACore/src/TimeSeries.cpp:406-420 | so does missing a slot, which moves on by one increment |
| `TimeSeriesLaws.LastIsLastSlot` | ACore/src/TimeSeries.cpp:124-131 | the remembered last slot is the largest slot not past finish, also off the grid |
| `TimeSeriesLaws.FreeMeansSlot` | ACore/src/TimeSeries.cpp:317-404 | free if and only if valid, the minute is a slot of the definition, and it is not before the next slot |
| `TimeSeriesLaws.ListedSlotsAreFreeSlots` | ACore/src/TimeSeries.cpp:590-605 | the listed slots are the possible free minutes if and only if the increment divides finish - start |
| `TimeSeriesLaws.RequeueIsForetold` | ACore/src/TimeSeries.cpp:212-303 | requeue with rewinding is valid if and only if compute_next_time_slot is not NULL, both then give the least slot strictly after now, and the series is not free |
| `TimeSeriesLaws.RequeueMovesPast` | ACore/src/TimeSeries.cpp:212-280 | requeue leaves the series strictly after now, never gives a slot back without rewinding, and not free |
| `TimeSeriesLaws.ResetAllowsCurrentMinute` | ACore/src/TimeSeries.cpp:171-210 | after a reset the series is free exactly when the current minute is a slot, and waits for the first slot not before now |
| `TimeSeriesLaws.ResetTells` | ACore/src/TimeSeries.cpp:171-210 | after a reset a relative clock is at zero, and the series is valid if and only if a slot is not before now; then it waits for a slot not before now |
| `TimeSeriesLaws.ResetRemembers` | ACore/src/TimeSeries.cpp:171-280 | which time of day a reset and a requeue remember for the midnight test, and when none |
| `TimeSeriesLaws.RequeueableIsExact` | ACore/src/TimeSeries.cpp:305-315 | the query agrees with the computed next slot if and only if now is not between the last slot and finish |
| `TimeSeriesLaws.RequeuedIsNeverStuck` | ACore/src/TimeSeries.cpp:447-505 | if checkForRequeue is true, requeue leaves the series valid with the next slot in (now, last], and free when its clock shows that slot |
| `TimeSeriesLaws.LastSlotNeverRequeues` | ACore/src/TimeSeries.cpp:454-505 | at or after the last slot the answer is false in every context |
| `TimeSeriesLaws.CheckComparesTimeOfDay` | ACore/src/TimeSeries.cpp:438-505 | an absolute series asks for a requeue if and only if it is valid, the time of day is in range, and not before the remembered requeue time, if there is one |
| `TimeSeriesLaws.SeriesAsks` | ACore/src/TimeSeries.cpp:422-547 | a series with an increment, relative or not, asks if and only if it is valid, some slot is after its clock, outside a command its start is not, and, if absolute, the remembered requeue time is not after the time of day |
| `TimeSeriesLaws.AskedForgets` | ACore/src/TimeSeries.cpp:464-484 | once asked at or after the remembered time, it is no longer compared |
| `TimeSeriesLaws.AskingIsQuiet` | ACore/src/TimeSeries.cpp:422-547 | asking changes nothing but the remembered time |
| `TimeSeriesLaws.NowCountsMinutes` | ACore/src/TimeSeries.cpp:577-588 | the clock of a series in whole minutes, that of a relative one by its age |
| `TimeSeriesLaws.FreshIsAsked` | ACore/src/TimeSeries.cpp:60-118 | a series constructed from slots is valid, waits for its start and has the definition asked for |
| `TimeSeriesLaws.MissedSlotIsSkipped` | ACore/src/TimeSeries.cpp:406-420 | after a missed slot the series is free at just the later slots |
| `TimeSeriesLaws.CalendarBrings` | ACore/src/TimeSeries.cpp:133-147 | a tick makes a relative clock older by the increment, and a day change makes an absolute series wait for its start again |
| `TimeSeriesLaws.SlotError` | ACore/src/TimeSeries.cpp:43-56 | which error the range test of a slot gives |
| `TimeSeriesLaws.RangeError` | ACore/src/TimeSeries.cpp:76-111 | which error the constructor gives for a range that is too short |
| `TimeSeriesLaws.OrderError` | ACore/src/TimeSeries.cpp:76-111 | and for slots in the wrong order |
| `TimeSeriesLaws.RelativeClockResets` | ACore/src/TimeSeries.cpp:149-163 | the relative reset zeroes a relative clock and leaves an absolute series as it is |
| `Scheduler.NoSlotIsUsedTwice` | ANattr/src/TimeAttr.cpp:45-61 | over every run of ticks, submissions, completions, requeues, missed and forced slots and suite begins in which no tick goes back over a slot unseen, the slots for which the node is submitted, flagged by a tick or free at that very minute, are slots of the definition and strictly increasing between two resets |
| `SchedulerLimits.StepBackIsExact` | ACore/src/Calendar.cpp:142-229 | for every series, calendar and update, slots stay in order in everything that can happen before and after the update if and only if it does not take the clock of the series back over a slot without starting a new period |
| `SchedulerLimits.StepBackRepeatsASlot` | ACore/src/TimeSeries.cpp:212-280 | whenever an update does, that slot can be used a second time after a requeue |
| `SchedulerLimits.FreshSlotRepeats` | ACore/src/TimeSeries.cpp:212-280 | so can the slot for which a fresh node with a single slot was submitted, absolute or relative |
| `SchedulerLimits.UnseenStepBack` | ACore/src/Calendar.cpp:194-219 | some absolute series is harmed by an update if and only if it takes the minute of the day back without the day-changed flag |
| `SchedulerLimits.NegativeIncrement` | ACore/src/TimeSeries.cpp:133-147 | some relative series of a given age is harmed if and only if the update takes its clock back over a minute of the first day |
| `SchedulerLimits.WholeWeeksAreHarmless` | ACore/src/Calendar.cpp:194-219 | an update of whole weeks harms no absolute series |
| `Scheduler.AdvancingKeepsSlotsBehind` | ACore/src/Calendar.cpp:142-229 | a clock that moves forward and hides no whole weeks goes back over no slot |
| `Scheduler.StepKeepsUses` | ACore/src/TimeSeries.hpp:38-56 | every action of the usage protocol keeps the inductive invariant behind it |
| `Scheduler.TickKeepsUses` | ANattr/src/TimeAttr.cpp:45-61 | a calendar tick keeps it, with a slot due when the attribute turns free |
| `Scheduler.SubmitKeepsUses` | ANattr/src/TimeAttr.cpp:122-132 | so does a submission, for the slot due or for the current minute |
| `Scheduler.CompleteKeepsUses` | ANode/src/Node.cpp:630-650 | so does a completion, requeued or not |
| `Scheduler.RequeueNodeKeepsUses` | ANode/src/NodeTime.cpp:29-57 | so does a requeue of the node, with or without a relative-duration reset |
| `Scheduler.MissKeepsUses` | ANode/src/NodeTime.cpp:473-540 | so do a missed slot and a forced freeing of the dependency |
| `SchedulerSteps.TickTells` | ANattr/src/TimeAttr.cpp:45-61 | an update starts a new period for an absolute series at midnight and for nothing else, and frees an attribute if and only if this minute is a slot it waits for, which is then due |
| `SchedulerSteps.SubmissionTells` | ANattr/src/TimeAttr.cpp:122-132 | a queued node leaves the queue if and only if its attribute lets it, and one use is recorded if and only if a slot does: the slot due or the slot of this minute |
| `SchedulerSteps.CompletionTells` | ANode/src/Node.cpp:630-650 | the node is queued again if and only if the attribute asks, and then not free; otherwise flag and series are kept |
| `SchedulerSteps.RequeueTells` | ANode/src/NodeTime.cpp:29-57 | a requeue by command queues the node with the attribute not free, and restarts a relative clock from zero if that is asked for |
| `SchedulerSteps.ForcedFreeingTells` | ANode/src/NodeTime.cpp:473-540 | forced freeing lets the node be submitted for no slot and lets the attribute miss one, and leaves an attribute that is free anyway as it is |
| `SchedulerSteps.BeginTells` | ACore/src/TimeSeries.cpp:171-210 | after a suite begin the node can be submitted at once if and only if the minute is a slot |
| `SchedulerSteps.MissTells` | ANode/src/NodeTime.cpp:473-540 | a missed slot changes only the series, takes away only that slot, and does nothing once it has expired |
| `Scheduler.RunKeepsUses` | ACore/src/TimeSeries.hpp:38-56 | so does every run |
| `Scheduler.NowGrows` | ACore/src/Calendar.cpp:142-229 | between two resets the clock of a series never runs backwards |
| `Scheduler.FreeStaysFree` | ANattr/src/TimeAttr.hpp:76-92 | once free, the attribute stays free until it is requeued or reset: over ticks and midnights, submissions, missed slots, forced freeing and completions that are not requeued |
| `Scheduler.WaitingEnds` | ANattr/src/TimeAttr.cpp:45-61 | a valid series is free, and the node still queued, once updates of at most a minute have brought its clock to or past the slot it waits for |
| `Scheduler.WaitedSlotIsUsed` | ANattr/src/TimeAttr.cpp:45-61 | the queued node is then submitted for the very slot it waited for |
| `Scheduler.SteppedOver` | ACore/src/TimeSeries.cpp:317-404 | a series or single slot whose clock is past its last slot without being free stays so for the rest of the period |
| `Scheduler.SixtySecondsIsSharp` | ACore/src/Calendar.cpp:181-187 | every run of updates of at most a given length that brings a valid series from before its slot to or past it ends free if and only if that length is at most sixty seconds |
| `Scheduler.NeverStuckInQueue` | ANode/src/Node.cpp:630-650 | an attribute requeued on completion is not free, waits for a slot in (now, last], and is free with the node queued once updates of at most a minute have reached or passed that slot |
| `Scheduler.RequeueComparesTimeOfDay` | ACore/src/TimeSeries.cpp:464-505 | a job requeued by command or on completion, and completing after any updates, submission, missed and forced slots, asks for a requeue if and only if its series is valid, the time of day is in range and, unless the requeue left the series expired, not before that of the requeue, whatever the dates |
| `Scheduler.BeginComparesTimeOfDay` | ACore/src/TimeSeries.cpp:171-204 | after a suite begin the time of the begin is compared, expired or not |
| `Scheduler.RequeueRecordsTime` | ACore/src/TimeSeries.cpp:212-280 | a requeue remembers the time of day if it leaves the series valid, and forgets it if it leaves it expired |
| `Scheduler.OverMidnightIsRequeued` | ACore/src/TimeSeries.cpp:464-484 | requeued at 10:00, submitted for 11:00 and completing at 11:00 the next day, a job asks to be requeued |
| `Scheduler.ExpiredComparesNothing` | ACore/src/TimeSeries.cpp:464-484 | requeued at 13:00 after the last slot, submitted for 10:00 the next day and completing at 11:00 the day after, a job asks to be requeued although 11:00 is before 13:00 |
| `Scheduler.HiddenWeekRepeatsASlot` | ACore/src/Calendar.cpp:194-200 | an update that hides a week lets a slot be used twice in what counts as one period |
| `NodeTimes.MinMaxTimeSlots` | ACore/src/TimeSeries.cpp:549-560 | the earlier start and the later end, with the NULL slots of an empty beginning |
| `NodeTimes.NodeBounds` | ANode/src/NodeTime.cpp:389-392 | over all attributes, the earliest start and the latest end, each attained |
| `NodeTimes.TestForRequeue` | ANode/src/NodeTime.cpp:388-403 | the loop answers whether some attribute asks, and asks those up to the first that does, or all, and no others |
| `NodeTimes.RequeueValidExactly` | ACore/src/TimeSeries.cpp:212-280 | a requeued series is valid if and only if it was, or is rewound, and its last slot is still to come |
| `NodeTimes.RequeuedNodeWaits` | ANode/src/NodeTime.cpp:363-403 | a requeued node has an attribute waiting in (now, latest end] if and only if some attribute, expired ones only if rewound, has its last slot still to come |
| `NodeTimes.AskedBySeries` | ANode/src/NodeTime.cpp:393-402 | that is so whenever the attribute that asks is a series |
| `NodeTimes.SingleAsks` | ACore/src/TimeSeries.cpp:507-545 | a single slot asks if and only if it is valid, the attributes do not all name one minute, some end is still to come and, outside a command, some start has been reached |
| `NodeTimes.AskedAndRewound` | ANode/src/Node.cpp:324-338 | and when slots are rewound and the latest end is a slot on the same clock |
| `NodeTimes.MissNextTimeSlot` | ANode/src/NodeTime.cpp:519-526 | the loop lets the first valid attribute in list order miss its slot |
| `NodeTimes.MissFirstAt` | ANode/src/NodeTime.cpp:519-526 | and changes no other |
| `NodeTimes.NodeCanBeStuck` | ANode/src/NodeTime.cpp:393-402 | from the fresh single slots 12:00 and 10:00, the first missed by a command, a node asks to be requeued at 10:30 with nothing left to wait for |
| `NodeRuns.NoMinuteIsUsedTwice` | ANode/src/NodeTime.cpp:29-57 | over every run of a node with several time attributes on one clock, the minutes for which it is submitted, from whichever free attribute, are slots of an attribute and strictly increasing between two resets |
| `NodeRuns.NodeStepKeepsOk` | ANode/src/NodeTime.cpp:29-57 | every action of the node keeps the invariant behind it |
| `NodeRuns.RequeueKeepsNode` | ANode/src/NodeTime.cpp:43-56 | one requeue clears every flag and moves every attribute past now |
| `NodeRuns.TickKeepsNode` | ANattr/src/TimeAttr.cpp:45-61 | a tick over all attributes keeps it |
| `NodeRuns.SubmitKeepsNode` | ANattr/src/TimeAttr.cpp:122-132 | a submission for any free attribute keeps it |
| `NodeSteps.EachAttributeAlone` | ANode/src/NodeTime.cpp:29-57 | every step of a node is, for each attribute, the steps that attribute takes in the protocol of a single one, but for what the attributes share when another one lets the node be submitted |
| `NodeSteps.CompletedIsQueued` | ANode/src/NodeTime.cpp:388-403 | a completed node is queued again if and only if one of its attributes asks for it |
| `NodeSteps.NodeWaitingEnds` | ANattr/src/TimeAttr.cpp:45-61 | once updates of at most a minute have brought the clock to or past the slot for which an attribute of the queued node waits, that attribute is free and the node is submitted for that slot |
| `NodeSteps.TicksAlone` | ANattr/src/TimeAttr.cpp:45-61 | over every run of updates each attribute goes the way it would go alone |
| `TimeSeriesText.Write` | ACore/src/TimeSeries.cpp:660-670 | the definition text is appended, word by word |
| `TimeSeriesText.WriteState` | ACore/src/TimeSeries.cpp:757-780 | the state text is appended: free, isValid:false, the changed next slot and the changed relative duration |
| `TimeSeriesText.ParseState` | ACore/src/TimeSeries.cpp:802-845 | the token loop reads the words after the first comment word as the reading function does |
| `TimeSeriesText.SlotRoundTrip` | ACore/src/TimeSlot.cpp:67-81 | every slot text is read back by getTime, past 24 hours when unchecked |
| `TimeSeriesText.DurationRoundTrip` | ACore/src/TimeSeries.cpp:757-780 | every whole-second duration text, negative ones too, is read back |
| `TimeSeriesText.LineSplits` | ACore/src/TimeSeries.cpp:757-780 | the printed line splits into exactly the words written |
| `TimeSeriesText.StateReadsBack` | ACore/src/TimeSeries.cpp:802-845 | the state words restore validity, next slot and relative duration, whatever the free flag |
| `TimeSeriesText.PrintParseRoundTrip` | ACore/src/TimeSeries.cpp:847-930 | for every series in a reachable state, create on the tokens of write and write_state gives a series equal under operator== |
| `TimeTexts.IntegerMeans` | ACore/src/TimeSeries.cpp:924-925 | the number conversion accepts exactly an optional sign and decimal digits, for their value |
| `TimeTexts.TimeMeans` | ACore/src/TimeSeries.cpp:901-945 | getTime accepts exactly the texts of a grammar of times, for the slot they say; checked, only times of day |
| `TimeTexts.DurationMeans` | ACore/src/TimeSeries.cpp:832-836 | a text is read as a duration exactly if it is an optional minus sign and three numbers between colons |
| `TimeTexts.TokenMeans` | ACore/src/TimeSeries.cpp:813-843 | what one state token does, and which are refused |
| `TimeTexts.StateMeans` | ACore/src/TimeSeries.cpp:802-845 | the state is that after all tokens behind the first comment mark, one after the other, and nothing without a mark |
| `TimeTexts.CreateMeans` | ACore/src/TimeSeries.cpp:847-930 | create gives a series exactly for the tokens of a grammar of definitions, and the one they say |
| `TimeTexts.SlotIsPrinted` | ACore/src/TimeSlot.cpp:67-81 | a slot has one printed form: hours and minutes of two digits at least, without a zero too many |
| `TimeTexts.NoSlotIsPrinted` | ACore/src/TimeSlot.cpp:67-81 | the NULL slot is printed as 00:00 |
| `TimeTexts.DurationIsPrinted` | ACore/src/TimeSeries.cpp:775-778 | so has a duration, with a minus sign exactly if it is negative |
| `TimeTexts.StateIsTold` | ACore/src/TimeSeries.cpp:757-780 | the state is printed if and only if it differs from the definition, with a token for each thing that differs and no other |
| `TimeTexts.StateInOrder` | ACore/src/TimeSeries.cpp:757-780 | those tokens stand in one order, each once |
| `TimeTexts.DefinitionIsTold` | ACore/src/TimeSeries.cpp:660-670 | the definition is printed as its start, with a plus sign if it is relative, and its end and increment, if it has one |
| `TimeTexts.LineIsTight` | ACore/src/TimeSeries.cpp:757-780 | the printed line is its tokens with one space between them and nothing else |
| `Decimals.TwoDigitsRoundTrip` | ACore/src/TimeSlot.cpp:67-81 | the zero-padded number of any size is read back |
| `GregorianDates.DateRoundTrip` | ACore/src/Cal.cpp:19-74 | for every valid Gregorian date, date to Julian to date is the identity if and only if the date is 0000-03-01 or later |
| `GregorianDates.JulianRoundTrip` | ACore/src/Cal.cpp:19-74 | for every Julian day from 1721120 on, the date is valid and converts back |
| `GregorianDates.SuccessorIsOneMore` | ACore/src/Cal.cpp:49-74 | the calendar successor of a valid date has one Julian day more if and only if the date is not 0000-02-29 |
| `GregorianDates.CountingDays` | ACore/src/Cal.cpp:49-74 | n successors later is n more |
| `GregorianDates.JulianCountsDays` | ACore/src/Cal.cpp:19-47 | adding n to a Julian day gives the date n calendar days later |
| `GregorianDates.BeforeFirst` | ACore/src/Cal.cpp:49-74 | in January and February of year 0 the conversions disagree, and by which values |
| `GregorianDates.DateToJulianCounts` | ACore/src/Cal.cpp:49-74 | the division formula counts the days of whole centuries, years and months from March |
| `GregorianDates.JulianToDateSplits` | ACore/src/Cal.cpp:19-47 | the inverse formula splits a day number into century, year, month and day |
| `Splitters.TokensAreTheMaximalRuns` | ACore/src/Str.cpp:302-365 | the token list is the list of all maximal delimiter-free stretches, left to right |
| `Splitters.SplitOrig` | ACore/src/Str.cpp:302-314 | returns that list |
| `Splitters.SplitOrig1` | ACore/src/Str.cpp:316-331 | returns that list |
| `Splitters.SplitUsingStringView` | ACore/src/Str.cpp:333-344 | returns that list |
| `Splitters.SplitUsingStringView2` | ACore/src/Str.cpp:346-365 | returns that list |
| `Splitters.Split2` | ACore/src/StringSplitter.cpp:65-89 | returns that list |
| `Splitters.StringSplitter.constructor` | ACore/src/StringSplitter.hpp:44-49 | all tokens remain |
| `Splitters.StringSplitter.Finished` | ACore/src/StringSplitter.cpp:20-29 | true if and only if no token remains; loses none |
| `Splitters.StringSplitter.NextView` | ACore/src/StringSplitter.cpp:31-49 | takes the first remaining token |
| `Splitters.StringSplitter.Reset` | ACore/src/StringSplitter.cpp:51-54 | all tokens remain again |
| `Splitters.SplitWithObject` | ACore/src/StringSplitter.cpp:91-99 | returns that list |
| `Splitters.GetToken` | ACore/src/Str.cpp:367-395 | succeeds if and only if pos is in range, with that list's element |
| `Splitters.GetToken2` | ACore/src/Str.cpp:397-418 | the same |
| `Splitters.GetToken3` | ACore/src/Str.cpp:420-435 | the same |
| `Splitters.GetTokenWithObject` | ACore/src/StringSplitter.cpp:101-115 | the same |
| `CommandLines.UnixStyleSeparator.AdvanceSeparators` | ACore/src/CommandLine.cpp:47-56 | stops at the first non-separator, and reports the end exactly there |
| `CommandLines.UnixStyleSeparator.DoEscape` | ACore/src/CommandLine.cpp:58-74 | succeeds if and only if a character that may be escaped follows, appends what it stands for, and throws the right error otherwise |
| `CommandLines.UnixStyleSeparator.Next` | ACore/src/CommandLine.cpp:83-165 | one call reads one token of the remaining text, ends, or throws, and leaves no quotation open |
| `CommandLines.SplitUnix` | ACore/src/CommandLine.cpp:187-198 | the iteration collects the tokens of the whole line, or the error |
| `CommandLines.GrammarIsExact` | ACore/src/CommandLine.cpp:18-30 | the tokenizer accepts exactly the lines of a grammar of bare, escaped and quoted pieces, and every reading of a line in the grammar has the tokens returned |
| `CommandLines.LineIsRead` | ACore/src/CommandLine.cpp:83-165 | every line of the grammar is read as the tokens it means |
| `CommandLines.AcceptedIsALine` | ACore/src/CommandLine.cpp:83-165 | every accepted text is a line of the grammar |
| `CommandErrors.ErrorsAreExact` | ACore/src/CommandLine.cpp:58-142 | each of the three errors is thrown exactly for the lines of a grammar of broken lines: an open quotation, a backslash at the end, a backslash before a character that cannot be escaped |
| `CommandErrors.BrokenIsRefused` | ACore/src/CommandLine.cpp:83-165 | whatever complete words stand before the fault |
| `CommandErrors.CollectionBreaks` | ACore/src/CommandLine.cpp:83-165 | a collection that fails has read units, pieces and quotations up to the fault |
| `CommandLines.TrailingSeparatorMatters` | ACore/src/CommandLine.cpp:149-159 | a last word in which nothing shows is a token exactly when a separator follows |
| `CommandLines.ReconstructCommandLine` | ACore/src/CommandLine.cpp:168-177 | the printed line: the first token bare, each other one quoted behind the separator |
| `CommandLines.PrintedTokenByToken` | ACore/src/CommandLine.cpp:168-177 | what one more token adds to the line: one separator and the token between double quotation marks |
| `CommandLines.PrintSplitRoundTrip` | ACore/src/CommandLine.cpp:168-198 | for every list of tokens, splitting the printed line gives the tokens back if and only if no token has a double quotation mark or a backslash, the first is non-empty without single marks and separators, and the last, if another, has a character other than a single mark |
| `CommandLines.ReadBackIsUnmarked` | ACore/src/CommandLine.cpp:168-198 | tokens that are read back hold no mark the printer would have had to escape |
| `CommandLines.CountLine` | ACore/src/CommandLine.cpp:58-142 | every mark of a token, and every mark that only escapes or quotes, takes a mark of its own in the line |
| `ByteSearch.FindKeepsTail` | cpp-httplib/httplib.h:4001-4022 | searching the kept tail and what follows it finds the same occurrence as searching everything |
| `ByteSearch.FindAfterText` | cpp-httplib/httplib.h:4001-4022 | a pattern whose first byte does not recur in it, put after a text, is first found there if and only if it does not occur in the text |
| `Multipart.MultipartParser.constructor` | cpp-httplib/httplib.h:3843-3847 | the initial state for a boundary |
| `Multipart.MultipartParser.BufAppend` | cpp-httplib/httplib.h:4024-4040 | moving, growing and filling the buffer gives the unread bytes followed by the new ones |
| `Multipart.MultipartParser.BufFind` | cpp-httplib/httplib.h:4001-4022 | the first occurrence in the unread bytes, or their number |
| `Multipart.MultipartParser.StartWith` | cpp-httplib/httplib.h:3982-3989 | true if and only if the bytes stand at the position |
| `Multipart.MultipartParser.BufHead` | cpp-httplib/httplib.h:3995-3995 | the first unread bytes |
| `Multipart.MultipartParser.BufErase` | cpp-httplib/httplib.h:4042-4042 | drops the first unread bytes |
| `Multipart.MultipartParser.InitialBoundary` | cpp-httplib/httplib.h:3863-3870 | state 0: drops the bytes before the opening delimiter and consumes it, or drops everything and waits |
| `Multipart.MultipartParser.NewEntry` | cpp-httplib/httplib.h:3871-3875 | state 1: forgets the last part's header values and goes on to the headers |
| `Multipart.MultipartParser.HeaderLines` | cpp-httplib/httplib.h:3876-3907 | state 2, with its length limit on the first line |
| `Multipart.MultipartParser.ReadLines` | cpp-httplib/httplib.h:3879-3904 | the inner loop reads the complete header lines up to the empty one |
| `HeaderBlocks.HeadersEnd` | cpp-httplib/httplib.h:3876-3907 | the header lines are read up to the empty one if and only if the window is a block of lines, an empty line and the rest; the name and file name are those of the last disposition line, the content type that of the last type line |
| `HeaderBlocks.HeadersGoOn` | cpp-httplib/httplib.h:3876-3907 | otherwise the complete lines are read, with the same fields |
| `HeaderBlocks.OtherLinesAreIgnored` | cpp-httplib/httplib.h:3892-3901 | a line that is neither changes nothing, wherever it stands in the block |
| `HeaderBlocks.DispositionMeans` | cpp-httplib/httplib.h:3854-3857 | the matcher finds what a grammar of disposition lines says, letters in either case: the shortest name, and for it a file name rather than none and the shortest; it finds nothing exactly in other lines |
| `HeaderBlocks.TypeMeans` | cpp-httplib/httplib.h:3891-3894 | a type line, in either case, is read for its value without blanks at the ends, and no other line is |
| `HeaderBlocks.LineMeans` | cpp-httplib/httplib.h:3891-3901 | what one line does to the fields |
| `HeaderBlocks.PartIsAnnounced` | cpp-httplib/httplib.h:3871-3907 | a new entry is announced with the fields of its block, from empty ones, or refused if its first line is longer than 8192 bytes |
| `Multipart.MultipartParser.Body` | cpp-httplib/httplib.h:3908-3930 | state 3: content up to the delimiter, or all but the bytes that may begin it |
| `Multipart.MultipartParser.Boundary` | cpp-httplib/httplib.h:3931-3947 | state 4: CRLF starts another part, --CRLF closes the form and drops what follows, anything else waits |
| `Multipart.MultipartParser.Parse` | cpp-httplib/httplib.h:3851-3952 | one call is the drained parser fed with the chunk |
| `MultipartStreams.EveryStream` | cpp-httplib/httplib.h:3851-3952 | in one piece every stream is parsed as its grammar says: without an opening delimiter it is thrown away, and otherwise the parts, their contents, the verdict, the state, validity and the bytes held back are those of the entries behind it |
| `MultipartStreams.EveryReading` | cpp-httplib/httplib.h:3851-3952 | every reading of a stream by that grammar tells its outcome |
| `MultipartStreams.EntriesParse` | cpp-httplib/httplib.h:3871-3952 | the same from any new entry |
| `MultipartLaws.ContentEndsAtDelimiter` | cpp-httplib/httplib.h:3908-3930 | for every stream and every cutting of it, the content delivered is exactly the bytes before the first delimiter, and the program goes on in state 4 with exactly the bytes after it, whatever they are |
| `MultipartLaws.NoByteLost` | cpp-httplib/httplib.h:3908-3930 | until the delimiter is complete, the bytes delivered followed by the bytes held back are the bytes received |
| `MultipartLaws.BodyAppend` | cpp-httplib/httplib.h:3918-3928 | delivering what is safe and then more is the same as delivering everything at once |
| `MultipartLaws.HeadersAppend` | cpp-httplib/httplib.h:3876-3907 | reading the header lines that have arrived and then the rest is reading them all |
| `MultipartLaws.DrainAppend` | cpp-httplib/httplib.h:3851-3952 | without the length limit and reopening, draining and feeding more is draining everything |
| `MultipartLaws.IdealChunks` | cpp-httplib/httplib.h:3851-3952 | that parser ends, for every cutting of the stream, where one piece would take it |
| `MultipartLaws.ProgramIsIdeal` | cpp-httplib/httplib.h:3851-3952 | while header lines are short the program is that parser |
| `MultipartLaws.ChunkIndependence` | cpp-httplib/httplib.h:3851-3952 | after the opening delimiter, with short header lines and nothing after the closing delimiter, every cutting gives the same final state and parts, from any window |
| `MultipartOutcomes.CuttingsAgree` | cpp-httplib/httplib.h:3851-3952 | after the opening delimiter, every cutting of a stream has the outcome of the program on one piece, in verdict, state, validity and parts, if and only if every header line is under the limit and no CRLF occurs after the closing delimiter, or the stream is hopeless |
| `MultipartOutcomes.DoomedInChunks` | cpp-httplib/httplib.h:3876-3878 | a stream whose first long line begins its header block and exceeds the limit is refused in every cutting, with the same parts |
| `MultipartOutcomes.RefusedLater` | cpp-httplib/httplib.h:3876-3907 | a stream whose first long line is another one passes that block in one piece |
| `MultipartCuts.CuttingsAreIdeal` | cpp-httplib/httplib.h:3851-3952 | every cutting has the outcome of the parser without limit on the whole if and only if every header line is under the limit and no CRLF occurs after the closing delimiter |
| `MultipartCuts.CuttingsAreEqual` | cpp-httplib/httplib.h:3851-3952 | with nothing after the closing delimiter, every cutting ends in the very state of the parser without limit on the whole if and only if every header line is under the limit |
| `MultipartCuts.OnePieceIsExact` | cpp-httplib/httplib.h:3876-3878 | in one piece a stream is refused if and only if some header block begins with a line over the limit |
| `MultipartCuts.RefusedOrIdeal` | cpp-httplib/httplib.h:3851-3952 | before the closing delimiter a call refuses or does what the parser without limit does |
| `MultipartCuts.LongLinesRefused` | cpp-httplib/httplib.h:3876-3907 | a stream with a header line of maximal length or more is refused in some cutting, before the part that line belongs to |
| `MultipartCuts.EpilogueReopens` | cpp-httplib/httplib.h:3931-3947 | a CRLF after the closing delimiter changes the outcome of some cutting |
| `MultipartCuts.ChunksStayBeside` | cpp-httplib/httplib.h:3931-3947 | without either, every cutting keeps the program beside the parser without limit, holding back only bytes after the closing delimiter |
| `MultipartLaws.OpeningNeedsOneChunk` | cpp-httplib/httplib.h:3863-3870 | a first chunk that does not hold the whole opening delimiter is thrown away |
| `MultipartOutcomes.FromTheStart` | cpp-httplib/httplib.h:3863-3870 | from the start of the stream, every cutting has the outcome of one piece if and only if the opening delimiter does not occur in it |
| `MultipartForm.IsBoundaryCharsValid` | cpp-httplib/httplib.h:4081-4091 | true if and only if every character is a letter, a digit, a hyphen or an underscore |
| `MultipartForm.BoundaryAlphabet` | cpp-httplib/httplib.h:4081-4091 | the characters of an accepted boundary, listed |
| `MultipartForm.Serialize` | cpp-httplib/httplib.h:4093-4117 | the loop writes the form that the parser is proved to read, and the content type |
| `MultipartForm.FormIsWritten` | cpp-httplib/httplib.h:4093-4117 | for every item a delimiter line, the item and a line end, and then the closing delimiter |
| `MultipartForm.ItemIsWritten` | cpp-httplib/httplib.h:4099-4111 | the header lines of an item as they are sent |
| `MultipartForm.SerializeItem` | cpp-httplib/httplib.h:4099-4111 | one item: delimiter line, headers, empty line, content |
| `MultipartForm.DispositionRead` | cpp-httplib/httplib.h:3854-3857 | the printed disposition line gives back name and file name |
| `MultipartForm.TypeHeader` | cpp-httplib/httplib.h:3891-3894 | the printed type line gives back the content type |
| `MultipartForm.DelimiterHasOneCr` | cpp-httplib/httplib.h:3843-3847 | the delimiter cannot overlap itself: CR occurs only at its start |
| `MultipartForm.ItemParses` | cpp-httplib/httplib.h:3851-3952 | one serialized item is parsed into that item |
| `MultipartForm.FormRoundTrip` | cpp-httplib/httplib.h:4093-4117 | for header values the lines can carry, a serialized form in one piece is accepted and gives the same parts in order if and only if no disposition line is over the limit and no content holds the delimiter; it is then valid if and only if it has an item |
| `MultipartForm.DirtyItems` | cpp-httplib/httplib.h:3908-3947 | if a content holds the delimiter, the items do not come back: that part is cut off there for good |
| `MultipartForm.FormRoundTripInChunks` | cpp-httplib/httplib.h:4093-4117 | for such header values, every cutting that leaves the opening delimiter in the first chunk gives the items back if and only if all header lines are under the limit and no content holds the delimiter |
| `SocketStreams.SocketStream.Read` | cpp-httplib/httplib.h:4729-4773 | the bytes delivered followed by the pending ones are the bytes pending before; at most the size asked for; an error only from a failing socket |
| `SocketStreams.SocketStream.TakeBuffered` | cpp-httplib/httplib.h:4738-4749 | takes the front of the unread buffer window |
| `SocketStreams.SocketStream.Refill` | cpp-httplib/httplib.h:4756-4769 | a small read through the buffer loses and repeats nothing |
| `SocketStreams.SocketStream.ReadMany` | cpp-httplib/httplib.h:4729-4773 | over every sequence of read sizes and short receipts, everything delivered followed by the pending bytes is the stream |
| `Chunked.FromIToHex` | cpp-httplib/httplib.h:1940-1948 | the loop writes the hexadecimal number |
| `Chunked.HexRoundTrip` | cpp-httplib/httplib.h:1940-1948 | which is read back, and has no leading zero |
| `SizeLines.PrintedSize` | cpp-httplib/httplib.h:1940-1948 | the one numeral of the number in lower-case digits without a zero too many |
| `Chunked.SizeLineReads` | cpp-httplib/httplib.h:3428-3431 | strtoul on a printed size line gives the size |
| `SizeLines.SizeLineSays` | cpp-httplib/httplib.h:3426-3433 | for every line, strtoul gives a number if and only if the line says it by a grammar: blanks, an optional sign and 0x, hexadecimal digits in either case, and anything that does not go on with them; out of range is the largest number, and there is none without a digit |
| `SizeLines.LineReads` | cpp-httplib/httplib.h:3428-3431 | every numeral in such a line is read as its value |
| `SizeLines.NumeralMeans` | cpp-httplib/httplib.h:3428-3431 | the value of a numeral, digit by digit |
| `Chunked.LineReader.Append` | cpp-httplib/httplib.h:2259-2270 | the line grows by the character, across the switch from the fixed to the growable buffer |
| `Chunked.LineReader.GetLine` | cpp-httplib/httplib.h:2233-2257 | the line is the first line of the pending bytes, or what is left at the end; nothing is lost |
| `Chunked.ReadContentWithLength` | cpp-httplib/httplib.h:3363-3383 | delivers exactly the bytes asked for, or all there are and fails |
| `Chunked.ReadChunk` | cpp-httplib/httplib.h:3435-3443 | the data of a chunk, the line after it and the next size line |
| `Chunked.ReadTerminator` | cpp-httplib/httplib.h:3446-3450 | the empty line after the last chunk is required |
| `Chunked.ReadOneChunk` | cpp-httplib/httplib.h:3425-3444 | one turn of the loop brings the reader nearer to the same result |
| `Chunked.ReadContentChunked` | cpp-httplib/httplib.h:3415-3453 | verdict, payload and unread bytes are those of the reading function on the pending bytes, however they arrive |
| `Chunked.ChunkedSink.DoWrite` | cpp-httplib/httplib.h:3645-3667 | sends a chunk for a non-empty write, and asks to go on exactly then |
| `Chunked.ChunkedSink.DoDone` | cpp-httplib/httplib.h:3669-3697 | sends the last chunk and stops |
| `Chunked.WriteContentChunked` | cpp-httplib/httplib.h:3638-3714 | the loop over provider calls sends what they write until data is no longer available |
| `Chunked.ChunkedRoundTrip` | cpp-httplib/httplib.h:3415-3453 | for every sequence of writes, the reader accepts the chunks and delivers the concatenated payload, leaving what follows unread |
| `Chunked.CallsSend` | cpp-httplib/httplib.h:3701-3710 | provider calls that keep the writer asking and end with done send every chunk once, in order |
| `Chunked.WriterReaderRoundTrip` | cpp-httplib/httplib.h:3638-3714 | what the writer sends, in every division of the writes among provider calls, is read back whole |
| `Chunked.WriterIsHeardOut` | cpp-httplib/httplib.h:3638-3714 | what the writer sends is accepted if and only if no provider call but the last one ends with an empty write; otherwise what was written up to there is delivered and refused |
| `Chunked.StoppedCallsSend` | cpp-httplib/httplib.h:3645-3648 | after an empty write at the end of a call nothing more is sent, the last chunk included |
| `Chunked.UnfinishedIsRefused` | cpp-httplib/httplib.h:3415-3453 | chunks without the last chunk are delivered and refused |
| `ChunkedWriters.EveryProvider` | cpp-httplib/httplib.h:3638-3714 | whatever a provider calls on the sink, the body is accepted if and only if it was ended in a call the writer still made; it is what was written before, and what is sent later is left unread; otherwise all that was written is delivered and refused |
| `ChunkedWriters.ChunkIsWritten` | cpp-httplib/httplib.h:3656-3660 | how a write goes out: its size as that numeral, the data, and a line end after each |
| `ChunkedWriters.ProvidedIsPerformed` | cpp-httplib/httplib.h:3701-3710 | the calls are made up to the first that leaves nothing available, and the offset is the number of bytes written |
| `ChunkedBodies.EveryStream` | cpp-httplib/httplib.h:3415-3453 | for every stream, verdict, data delivered and bytes left unread are those its shape says: chunks with the sizes their lines say, and then one of two ends that are accepted or one of six that are refused |
| `ChunkedBodies.AcceptedBodies` | cpp-httplib/httplib.h:3415-3453 | the reader accepts exactly size lines with their data, closed by a zero line and an empty line or by a chunk not followed by an empty line, and delivers their data and leaves what follows |
| `ChunkedBodies.BodyReads` | cpp-httplib/httplib.h:3425-3452 | every stream of that grammar is read as it says |
| `ChunkedBodies.BodyOf` | cpp-httplib/httplib.h:3425-3452 | and every stream is one of that grammar |
| `ThreadPools.StepKeepsInv` | cpp-httplib/httplib.h:551-592 | every step of every thread keeps the invariant behind the safety of the pool |
| `ThreadPools.RunKeepsInv` | cpp-httplib/httplib.h:538-606 | so does every interleaving |
| `ThreadPools.PoolSafety` | cpp-httplib/httplib.h:538-606 | over every interleaving and for every number of workers, jobs are taken once each in FIFO order, no worker sleeps unless the idle ones are at least as many as the queued jobs, and when all workers have exited, the queue is empty and every job was run if and only if none was enqueued after the last had exited |
| `ThreadPools.LeftBehind` | cpp-httplib/httplib.h:551-592 | from any state in which exited workers leave no job, the queue of exited workers is empty if and only if no job was enqueued when all had exited |
| `ThreadPools.OnlyLateJobsAreOrphans` | cpp-httplib/httplib.h:551-571 | in a pool that has workers, no job enqueued before shutdown is left behind |
| `ThreadPools.WorkDecreases` | cpp-httplib/httplib.h:557-571 | after the notification every step but an enqueue decreases a measure |
| `ThreadPools.WorkerCanStep` | cpp-httplib/httplib.h:576-597 | after the notification every remaining worker has a step it can take |
| `ThreadPools.ShutdownCompletes` | cpp-httplib/httplib.h:557-571 | so every interleaving is finite, and one that cannot go on has joined all workers with every job run |
| `ThreadPools.FlagsTell` | cpp-httplib/httplib.h:557-567 | over every run, the shutdown flag is set exactly by the shutdown step, and all are notified exactly by that step |
| `ThreadPools.HistoriesTell` | cpp-httplib/httplib.h:538-606 | over every run, all jobs handed in have been enqueued in order, as many taken and run as workers took and finished, and no worker comes or goes |
| `ThreadPools.QueueTells` | cpp-httplib/httplib.h:538-606 | from the start, the queue holds the jobs handed in and not taken, in order, and there are as many workers as asked for |
| `ThreadPools.ShutdownJoinsAll` | cpp-httplib/httplib.h:557-571 | from the start, every run with a shutdown that cannot go on without an enqueue has notified all and joined all workers, with every job run if there are workers and none was enqueued late; until then the notification can be taken |
| `ThreadPools.EveryoneCanGoOn` | cpp-httplib/httplib.h:551-597 | in every state a job can be enqueued, an idle worker has exactly one of taking, sleeping and exiting to do, and every other one can wake up or finish |
| `ThreadPools.ShutdownIsPossible` | cpp-httplib/httplib.h:557-567 | the pool can be shut down in every state until it has been |
| `ThreadPools.OneWorkerMoves` | cpp-httplib/httplib.h:576-597 | a step of a worker moves that worker, and no other, as it says |
| `Base64.Base64Encode` | cpp-httplib/httplib.h:1984-2010 | the streaming loop with its 32-bit accumulator gives the encoding by three-byte blocks of section 4 of RFC 4648 |
| `Base64.EncodeByte` | cpp-httplib/httplib.h:1994-2001 | one turn of the outer loop prolongs or completes a block |
| `Base64.ByteStep` | cpp-httplib/httplib.h:1995-2000 | the characters the inner loop writes, whatever wrap-around did to the high bits |
| `Base64.FinishBlock` | cpp-httplib/httplib.h:2003-2007 | the bits held back and the padding complete the last block |
| `Base64.EncodedLength` | cpp-httplib/httplib.h:1984-2010 | four characters for every three bytes begun |
| `Base64.DecodeEncode` | cpp-httplib/httplib.h:1984-2010 | a reference decoder recovers every byte string |
| `Base64Laws.EncodingIsExact` | cpp-httplib/httplib.h:1984-2010 | a text is the encoding of the bytes if and only if it decodes to them and its unused bits are zero, as section 3.5 of RFC 4648 asks |
| `Base64Laws.DecodedIsEncoded` | cpp-httplib/httplib.h:1984-2010 | such a text is the one the encoder writes |

## Left out

- Integer widths: `int`, `long`, `size_t` and `ssize_t` are unbounded here, except for the wrapping accumulator of the base64 encoder and the overflow value of `strtoul`.
- `ThreadPools`: the pool is modelled on values as steps taken under the mutex; condition variables, spurious wake-ups included, are steps, and threads as objects are not modelled.
- `Scheduler`, `NodeTimes`, `NodeRuns`, `NodeSteps`: the time attribute and the node operations around it are modelled on values; the other kinds of attributes of a node, its triggers and its children are not, and whether slots are rewound at a requeue is an input.
- Scheduler.NoSlotIsUsedTwice: an aborted task with tries left is submitted again for the same slot without a requeue; the runs have no such action.
- MultipartLaws.ChunkIndependence: gives one direction, from any window; `MultipartCuts` gives both, from an empty one.
- MultipartForm.FormRoundTrip: names and file names hold no quotation mark or line end, and content types are one line without blanks at the ends; other values are not read back in general.
- Multipart.MultipartParser.Parse: the header and content receivers always accept; a receiver that refuses ends the parse at once.
- Multipart.MultipartParser.HeaderLines: the regular expression for the disposition header is a hand-written backtracking matcher of the same pattern on ASCII text.
- Chunked.WriteContentChunked: the identity compressor only; write failures, cancelled providers and shutting down, which end the loop early, are not modelled.
- Chunked.ReadContentWithLength: the progress callback is not modelled and the receiver always accepts.
- CommandLines.PrintSplitRoundTrip: printed with the default separator.
- CommandLines.UnixStyleSeparator.AdvanceSeparators: the end is tested before the character is read, the other way round than in the program.
- TimeSeriesText: durations have whole seconds and the text HH:MM:SS with a leading minus; fractional seconds and the special values of Boost are not modelled.
- Calendars.Calendar.UpdateCache: the five cached fields are represented by the day they are computed from.
- `Calendar::read_state`, `write_state` and the cache after reading are not modelled.
- `TimeSeries::why`, `write_state_for_gui`, `checkInvariants` and `dump` would only add easy members; the test-only setters break the invariant.
- `CronAttr`, `TodayAttr`, date and day attributes: not modelled.
- Sockets, TLS, compression, HTTP headers and routing, JSON serialization, files, logging and the client and server commands: not modelled.
