# Verified model of the EEBUS common library

This project models the parts of `src/common` that everything else builds on, and proves what they
are for. `dafny verify dfyconfig.toml` checks all of it.

- **The data tree** (`DataModel`, `Overlay`, `Elements`, `Partial`, `Identifiers`, `Upsert`, `Selectors`, `DataList`,
  `ListData`, `Container`, `HeapTree`, `HeapList`, `HeapMerge`, `Json`, `JsonReading`). A table of configuration
  records describes a tree of C structures, lists, leaves and tags, and generic operations walk table
  and tree together: copying, overlaying, keyed merging, selecting, projecting and deleting, comparing,
  and JSON in both directions. They are modelled three times over. As functions on values, where the
  laws are proved; as list methods that replace a buffer and its size in counted loops (`DataList`);
  and as methods on memory blocks behind pointers (`HeapTree`, `HeapList`, `HeapMerge`), with the blocks each tree owns,
  so that sharing, leaks and double frees are part of the statement. The methods are proved to compute
  the functions.
- **Durations, dates and times** (`Durations`, `Calendar`, `DateTimes`, `Text`, `DurationText`,
  `DurationGrammar`, `DateTimeText`). Adding a duration to a date-time in place with 32-bit fields and
  C's truncating division, against the number of the second on the proleptic Gregorian calendar; the
  parsers and printers of section 4.4.3.2 (durations) and section 4.3.2 (date-times) of ISO 8601:2004,
  the texts that are accepted, all of them, and the round trips.
- **The blocking queue** (`RingBuffer`, `Queue`, `QueueProtocol`). Once as an object that one thread
  uses, proved to be a bounded FIFO, and once as a step system of any number of senders and receivers
  around one mutex and two condition variables, in which every run is a bounded FIFO, also as its
  callers see it, that loses no wakeup. One stretch of code under the mutex is one step; signals, spurious wakeups, timeouts, and a
  timeout that uses up a signal (which POSIX allows) are separate steps.
- **The Linux timer thread** (`Timer`) as a step system of a controlling thread and the loop.
- **String helpers** (`StringUtil`): in-place token removal and tokenising, grouping, hexadecimal text.

`Errors`, `CInt` (C's 32-bit integers) and `Sequences` hold what the others share.

Several promises turn out to hold only under a condition. Each is stated as an if-and-only-if, with the
condition on the input: `Queue.ClearReleasesEverything`, `QueueProtocol.ClearKeepsWakeupsIff`,
`QueueProtocol.TimeoutTakingSignalKeepsWakeupsIff`, `QueueProtocol.CloseWakesAllIff`,
`Timer.CallbackIsEarlyIff`,
`DurationText.PrintThenParseIff`, `DateTimes.AddingMonthsStaysOnCalendarIff`,
`DateTimes.SumAddsSecondsIff`, `Partial.ListIsUndefinedIff`, `ListData.IteratorAgreesIff`,
`ListData.Remove`, `Json.NumberRoundTripIff`, `Json.EnumRoundTripIff`, `Json.RoundTripIff`,
`Json.MessageRoundTripIff`, `StringUtil.UngroupIff` and `StringUtil.TokenIsGoneIff`. Where one fails
there is a concrete input or a reachable state beside it.

Where code and comments differ, the model follows the code: the header of the date-time printer
announces `YYYY-MM-DDTHH:MM:SS` while a `Z` is printed at the end; the time parser accepts any text
after the `Z`; the number fields of a date or time accept leading spaces and a sign; the duration
parser takes a fraction of a second without a `T` in front; and the read-only flag has both identifier
bits, so a read-only field counts as an identifier.

## Model

| member | source | states |
|---|---|---|
| RingBuffer.PutAppends | src/common/eebus_queue/eebus_queue.c:257-263 | storing at the head and moving it on appends to the pending messages, also when the head wraps round or meets the tail |
| RingBuffer.TakeRemovesOldest | src/common/eebus_queue/eebus_queue.c:300-306 | moving the tail on removes exactly the oldest pending message |
| RingBuffer.FlagsAgreeWithPending | src/common/eebus_queue/eebus_queue.c:326-332 | the two flags, which tell a full from an empty buffer when the indices meet, say exactly that nothing or the whole capacity is pending |
| Queue.EebusQueue.SendInternal | src/common/eebus_queue/eebus_queue.c:246-267 | the message is appended to the pending ones and Ok returned, or the queue is closed, nothing changes and NoChange is returned |
| Queue.EebusQueue.ReceiveInternal | src/common/eebus_queue/eebus_queue.c:289-310 | the oldest pending message is returned and removed, or the queue is closed and nothing changes |
| Queue.EebusQueue.Send | src/common/eebus_queue/eebus_queue.c:269-282 | for one thread: a full open queue times out unchanged, otherwise as above |
| Queue.EebusQueue.Receive | src/common/eebus_queue/eebus_queue.c:312-324 | for one thread: an empty open queue times out unchanged, otherwise as above |
| Queue.EebusQueue.ClearInternal | src/common/eebus_queue/eebus_queue.c:334-349 | nothing is pending afterwards; the deallocator has got every pending message once, oldest first, unless the buffer was full: then it got none |
| Queue.ClearReleasesEverything | src/common/eebus_queue/eebus_queue.c:334-357 | clearing hands every pending message to the deallocator exactly when the buffer is not full |
| QueueProtocol.RunIsBoundedFifo | src/common/eebus_queue/eebus_queue.c:171-357 | over every interleaving, with clears and close, the k-th message sent with Ok is the k-th to leave the buffer or is still pending, and pending never exceeds the capacity |
| QueueProtocol.DeliveriesKeepSendOrder | src/common/eebus_queue/eebus_queue.c:289-310 | the messages that receivers got are sent messages at strictly increasing places in the send order, so each is received at most once and in order |
| QueueProtocol.RunDeliversPrefix | src/common/eebus_queue/eebus_queue.c:246-324 | without clear and close, sent messages are the received ones followed by the pending ones |
| QueueProtocol.OkMeansTransferred | src/common/eebus_queue/eebus_queue.c:246-310 | a send returns Ok exactly when its message entered the buffer, a receive that returns Ok hands out the oldest pending message, and one that does not leaves the buffer alone |
| QueueProtocol.NothingSucceedsAfterClose | src/common/eebus_queue/eebus_queue.c:171-310 | after close no call returns Ok in any continuation, and no message enters or leaves |
| QueueProtocol.SentIsWhatSendersPassed | src/common/eebus_queue/eebus_queue.c:246-282 | over every run the messages sent are, in order, those that the senders passed in the calls answered Ok, also when the sender had to wait in between; the messages are taken from the calls, not from the state |
| QueueProtocol.DeliveredIsWhatReceiversGot | src/common/eebus_queue/eebus_queue.c:289-324 | over every run the messages delivered are, in order, those that the answers handed to receivers |
| QueueProtocol.QueueIsFifoForCallers | src/common/eebus_queue/eebus_queue.c:246-324 | seen from calls and answers alone, without clear and close: what was passed with Ok is what was handed out, in the same order, followed by what is pending |
| QueueProtocol.AnswerIff | src/common/eebus_queue/eebus_queue.c:246-310 | a caller, and a thread that comes back from its wait, is answered NoChange exactly on a closed queue, waits exactly on an open one that is full or empty respectively, and gets Ok otherwise |
| QueueProtocol.ClosedSendsAway | src/common/eebus_queue/eebus_queue.c:246-310 | on a closed queue every call and every resumed wait is answered NoChange at once, leaves all wait sets, and changes nothing else |
| QueueProtocol.TimeIff | src/common/eebus_queue/eebus_queue.c:221-239 | Time is answered exactly by the steps in which a wait times out, to the thread that waited, which had called with a timeout |
| QueueProtocol.NobodyIsHeldUp | src/common/eebus_queue/eebus_queue.c:221-324 | a thread that calls and a thread that has been woken can always take their next step |
| QueueProtocol.CloseWakesAllIff | src/common/eebus_queue/eebus_queue.c:171-219 | close with its clear signals two senders and one receiver: it wakes everybody exactly when no more than that sleep |
| QueueProtocol.RunLosesNoWakeup | src/common/eebus_queue/eebus_queue.c:221-310 | in every run without clear, close and timeouts that use up a signal, spurious wakeups and all other timeouts included: while a sender sleeps unsignalled the free slots do not exceed the senders on their way, dually for receivers; so senders and receivers never all sleep with nobody on the way |
| QueueProtocol.InitialIsLive | src/common/eebus_queue/eebus_queue.c:108-154 | the constructed queue satisfies all the invariants the runs start from |
| QueueProtocol.ClearKeepsWakeupsIff | src/common/eebus_queue/eebus_queue.c:334-349 | clear signals one sender only: it keeps that guarantee exactly when one sender sleeps or enough are already on their way |
| QueueProtocol.TwoBlockedIsReachable | src/common/eebus_queue/eebus_queue.c:221-267 | a full queue with two senders asleep is reached from the constructed one |
| QueueProtocol.ClearCanStrandASender | src/common/eebus_queue/eebus_queue.c:348-348 | the reachable state and the two steps after which a sender sleeps beside a free slot with nobody on the way to wake it |
| QueueProtocol.TimeoutTakingSignalKeepsWakeupsIff | src/common/eebus_queue/eebus_queue.c:221-239 | a timed wait that ends in a timeout although it was signalled keeps the guarantee exactly when, for a sender, no other sender sleeps or a woken one remains for every free slot, and for a receiver, no other receiver sleeps or a woken one remains for every pending message |
| QueueProtocol.TimeoutCanStrandASender | src/common/eebus_queue/eebus_queue.c:221-239 | the constructed queue reaches a state in which such a timeout has left a sender asleep beside a free slot with nobody on the way |
| QueueProtocol.TimeoutCanStrandAReceiver | src/common/eebus_queue/eebus_queue.c:221-239 | and one in which it has left a receiver asleep beside a pending message |
| Timer.RunKeepsInv | src/common/eebus_timer/eebus_timer_linux.c:151-233 | in every reachable state a cancelled loop is neither asleep nor in the callback while Stop waits for it, so Stop's signal cannot be missed |
| Timer.CancelSilences | src/common/eebus_timer/eebus_timer_linux.c:214-233 | setting the flag in Stop leads to a state in which, as the next row says, nothing may call back |
| Timer.NoCallbackAfterCancel | src/common/eebus_timer/eebus_timer_linux.c:151-233 | once Stop has set the cancel flag no callback begins in any continuation before the next Start that creates a thread, in particular none after Stop has returned |
| Timer.OneShotFiresAtMostOnce | src/common/eebus_timer/eebus_timer_linux.c:151-212 | a Start without autoreload yields at most one callback, whatever happens until the next Start that creates a thread |
| Timer.JoinMakesProgress | src/common/eebus_timer/eebus_timer_linux.c:214-233 | while Stop joins, the only steps possible are the loop's own, one is always possible until it has exited, and each brings it nearer to its exit |
| Timer.JoinReturnsWithinThreeSteps | src/common/eebus_timer/eebus_timer_linux.c:214-233 | no schedule keeps Stop waiting for more than three steps of the loop |
| Timer.StopJoinsTheLoop | src/common/eebus_timer/eebus_timer_linux.c:214-233 | in every run a Stop that met a thread does not return before the loop has exited, after which there is no thread; before it sets the flag it waits for the mutex alone, which the loop gives back |
| Timer.EveryFifthStepCallsBack | src/common/eebus_timer/eebus_timer_linux.c:151-181 | in every run in which Stop does not cancel, each five steps of the loop itself begin one callback, with autoreload without end |
| Timer.AutoreloadGoesOn | src/common/eebus_timer/eebus_timer_linux.c:151-212 | after a Start with autoreload, in every run in which Stop does not cancel, the loop never exits and can always go on, and after n waits that ended n callbacks are begun or due |
| Timer.OneShotRunsOut | src/common/eebus_timer/eebus_timer_linux.c:151-181 | after a one-shot Start the loop goes on until it exits with its sixth step, right after its only callback |
| Timer.CallbackIsEarlyIff | src/common/eebus_timer/eebus_timer_linux.c:151-172 | over every run: the next step begins a callback early, after a wait that did not end by its timeout, exactly when that wait ended in a spurious wakeup and the cancel flag is still clear at the decision; after a wait that ended by its timeout the decision begins a callback exactly when the flag is clear |
| Timer.CallbacksMatchWaits | src/common/eebus_timer/eebus_timer_linux.c:151-212 | until the next Start that creates a thread, callbacks begun or due never outnumber the waits that timed out or ended spuriously, and equal them in a run in which Stop does not cancel |
| Timer.TimeoutsAccountForCallbacks | src/common/eebus_timer/eebus_timer_linux.c:151-212 | without spurious wakeups every callback has a timeout of its own |
| Timer.SpuriousWakeupFiresEarly | src/common/eebus_timer/eebus_timer_linux.c:157-172 | a run in which a callback begins before its timeout: the result of the timed wait is not looked at, so a spurious wakeup is enough |
| Durations.CompareIsTotalOrder | src/common/eebus_date_time/eebus_duration.c:357-392 | on valid durations the comparison is antisymmetric and transitive, and zero exactly on equal ones |
| Durations.ValidIff | src/common/eebus_date_time/eebus_duration.c:194-229 | a duration is valid exactly when no two components have opposite signs, and negative when valid with a negative component |
| Durations.CompareAgreesWithSeconds | src/common/eebus_date_time/eebus_duration.c:339-392 | on durations whose components stay below the next larger unit, a shorter length in seconds compares less, and equal lengths differ in milliseconds at most |
| Durations.ToSecondsIsSafeAndOdd | src/common/eebus_date_time/eebus_duration.c:339-355 | the 64-bit sum never overflows, and inverting the sign keeps validity, negates the length and undoes itself when no component is INT32_MIN |
| Durations.LengthInDays | src/common/eebus_date_time/eebus_duration.c:339-355 | the length counts a year as 365 days and a month as 30 days, and cuts the milliseconds down to whole seconds |
| Calendar.MonthStartIsGregorian | src/common/eebus_date_time/eebus_date.c:36-50 | counting days month by month with the code's month lengths gives the closed Gregorian rule with its 4, 100 and 400 year cycles, also before year 0 |
| Calendar.LeapByRemainder | src/common/eebus_date_time/eebus_date.c:36-38 | the C remainder decides leap years correctly for negative years too |
| Calendar.YearIsValidIff | src/common/eebus_date_time/eebus_date.c:52-72 | the years from 0 to 2100 have valid dates, and no others |
| Calendar.TimeIsValidIff | src/common/eebus_date_time/eebus_time.c:34-55 | the valid times are the seconds of a day, each once |
| Calendar.CompareIsChronological | src/common/eebus_date_time/eebus_date_time.c:195-204 | the field-wise comparison has the sign of the difference in absolute seconds |
| DateTimes.Normalize | src/common/eebus_date_time/eebus_date_time.c:97-111 | one carry with C's truncating division leaves the field in range and keeps the value of the pair, without overflow |
| DateTimes.EebusDateTime.NormalizeDays | src/common/eebus_date_time/eebus_date_time.c:119-139 | the walk over the months terminates, leaves the time alone and keeps the absolute day, with month and day on the calendar |
| DateTimes.EebusDateTime.AddDuration | src/common/eebus_date_time/eebus_date_time.c:141-162 | invalid arguments are refused unchanged; otherwise the result is the date-time plus the day and time part on the second line, moved on by the months with the day left alone, whenever no 32-bit sum on the way overflows |
| DateTimes.LimitFits | src/common/eebus_date_time/eebus_date_time.c:141-162 | no sum overflows when every component is at most 2,000,000,000 in magnitude |
| DateTimes.CarryIsFloor | src/common/eebus_date_time/eebus_date_time.c:97-111 | the three branches of the carry with truncating division and remainder are floor division, negative fields included |
| DateTimes.SumIsUnique | src/common/eebus_date_time/eebus_date_time.c:141-162 | that description leaves exactly one result |
| DateTimes.SumAddsSecondsIff | src/common/eebus_date_time/eebus_date_time.c:141-162 | without months the result is a calendar date-time, and its second number is the old one plus the length of the duration exactly when years are zero and milliseconds are below a second, the components the addition ignores |
| DateTimes.AddingPositiveMovesForward | src/common/eebus_date_time/eebus_date_time.c:141-204 | adding a positive duration of days and time moves strictly forward in the comparison order exactly when it has a whole second, and never backward |
| DateTimes.AddingKeepsOrder | src/common/eebus_date_time/eebus_date_time.c:141-204 | adding one duration to two date-times keeps their order |
| DateTimes.InverseRestores | src/common/eebus_date_time/eebus_date_time.c:141-162 | adding a duration without months and then its inverse gives back the original date-time, whatever the carries in between |
| DateTimes.AddThenSubtract | src/common/eebus_date_time/eebus_date_time.c:141-162 | the same for two calls on one object, whenever the second accepts the intermediate value |
| DateTimes.AddingMonthsStaysOnCalendarIff | src/common/eebus_date_time/eebus_date_time.c:150-159 | the day is not clamped: adding months alone stays on the calendar exactly when the target month has the day |
| DateTimes.JanuaryPlusAMonth | src/common/eebus_date_time/eebus_date_time.c:150-159 | 31 January plus one month is 31 February |
| Text.StrtolReadsDigits | src/common/eebus_date_time/eebus_duration.c:142-142 | strtol reads back a run of digits that something other than a digit follows, with its length and value |
| Text.StrtolReads | src/common/eebus_date_time/eebus_duration.c:142-142 | strtol reads spaces, a sign and digits up to the first other character, clipped to the range of a long |
| Text.StrtolIff | src/common/eebus_date_time/eebus_duration.c:142-142 | and it reads the first k characters of a text exactly when they are such a numeral and no digit follows |
| DurationText.EebusDuration.ParseMs | src/common/eebus_date_time/eebus_duration.c:61-93 | the cursor version of the fraction parser computes the parser function and stays inside the text |
| DurationText.EebusDuration.ParseDuration | src/common/eebus_date_time/eebus_duration.c:117-182 | on any text the cursor terminates without passing the terminator and yields the result of the parser function, including what a failed parse leaves in the structure |
| DurationText.StringLengthIsExact | src/common/eebus_date_time/eebus_duration.c:245-279 | the length pass is the printed length plus one for every non-zero valid duration, so no piece is cut off |
| DurationText.ToString | src/common/eebus_date_time/eebus_duration.c:281-321 | the printer, piece by piece into a buffer of the computed size, writes exactly the text and its terminator; invalid durations give no text |
| DurationText.PrintThenParseIff | src/common/eebus_date_time/eebus_duration.c:117-321 | parsing the printed text gives the duration back exactly when milliseconds are zero, or at most 999 beside a non-zero number of seconds; otherwise the parser rejects the text |
| DurationText.DesignatorsAcceptedIff | src/common/eebus_date_time/eebus_duration.c:95-115 | a number is accepted exactly with the designators Y, M and D in front of a T and H, M and S behind it |
| DurationText.FractionAcceptedIff | src/common/eebus_date_time/eebus_duration.c:61-93 | a number with a fraction is accepted exactly when an S follows at most three digits, in front of a T as well as behind it |
| DurationText.FractionNeedsNoTime | src/common/eebus_date_time/eebus_duration.c:144-160 | so a second and a half may be written P1.500S |
| DurationGrammar.DurationTextIff | src/common/eebus_date_time/eebus_duration.c:61-182 | the texts that are accepted, all of them: an optional plus or minus, a P and pieces, of which one at most is a T, years, months and days stand in front of it, hours, minutes and seconds behind it, and seconds with up to three decimals anywhere; each text is read as what its pieces set, inverted by a minus |
| DurationGrammar.PrintIsPieces | src/common/eebus_date_time/eebus_duration.c:281-321 | a printed duration has one piece for each component that is not zero, in order, and a T only in front of time pieces |
| DateTimeText.ParseTimeText | src/common/eebus_date_time/eebus_time.c:57-106 | the cursor version of the time parser with its digit-skipping loop computes the parser function on any text; which function that is, say the next two rows |
| DateTimeText.TimeTextIff | src/common/eebus_date_time/eebus_time.c:57-106 | the texts that are read as a time, all of them: three numerals and then the end, or a Z and anything, at once or after a point and any number of digits, which are ignored |
| DateTimeText.TimeAcceptedIff | src/common/eebus_date_time/eebus_time.c:81-99 | for the padded numbers of a valid time what follows them decides acceptance alone: with or without a fraction, with or without a Z they are that time, and any other continuation is rejected |
| DateTimeText.DateTextIff | src/common/eebus_date_time/eebus_date.c:73-112 | the texts that are read as a date, all of them |
| DateTimeText.DateTimeTextIff | src/common/eebus_date_time/eebus_date_time.c:39-66 | the texts that are read as a date-time, all of them: a date of at most ten characters, a T and a time |
| DateTimeText.ParsedIsValid | src/common/eebus_date_time/eebus_date_time.c:39-66 | every text that is accepted gives a valid date-time |
| DateTimeText.DateRoundTrip | src/common/eebus_date_time/eebus_date.c:73-128 | parsing the printed text of a valid date gives the date |
| DateTimeText.TimeRoundTrip | src/common/eebus_date_time/eebus_time.c:57-125 | the same for a valid time, whatever follows the Z |
| DateTimeText.DateTimeRoundTrip | src/common/eebus_date_time/eebus_date_time.c:39-95 | the same for a valid date-time |
| DateTimeText.PrintedLayout | src/common/eebus_date_time/eebus_date_time.c:68-95 | what is printed has the layout YYYY-MM-DDTHH:MM:SSZ |
| DateTimeText.AbsoluteOrRelativeRoundTripIff | src/common/eebus_data/eebus_data_date_time.c:68-98 | the parser that first tries a duration recovers the right variant of what was printed: always for a date-time, which is never taken for a duration, and for a duration exactly when its own text can be read back |
| DataModel.CompareIsEquality | src/common/eebus_data/eebus_data_sequence.c:104-134 | for one configuration the recursive comparison is equality of trees, so an equivalence relation |
| DataModel.CompareIff | src/common/eebus_data/eebus_data_sequence.c:104-134 | over two configurations the comparison is equality of trees where the configurations correspond, whatever their names and flags |
| Overlay.OverlayIsAction | src/common/eebus_data/eebus_data_sequence.c:332-356 | overlaying two sources in turn is overlaying the overlay of the two once |
| Overlay.OverlayOntoNull | src/common/eebus_data/eebus_data_base.c:166-172 | overlaying onto nothing gives the source |
| Overlay.OverlayIsIdempotent | src/common/eebus_data/eebus_data_sequence.c:332-356 | overlaying the same source again changes nothing, and a tree overlaid with itself is itself |
| Overlay.OverlayAtPath | src/common/eebus_data/eebus_data_sequence.c:332-356 | at every path the overlay holds the source's leaf where the source has one and the destination's elsewhere |
| Elements.ReadAndDeleteAreComplementary | src/common/eebus_data/eebus_data_sequence.c:258-425 | what a mask reads, overlaid on what deleting with it leaves, is the original tree, whenever the read succeeds |
| Elements.ReadAndDeleteAtPath | src/common/eebus_data/eebus_data_sequence.c:258-425 | path by path, reading keeps exactly the leaves the mask selects and deleting keeps exactly the others |
| Elements.ReadWithMaskSucceeds | src/common/eebus_data/eebus_data_sequence.c:258-304 | reading succeeds whenever the mask has a structure wherever the data has one |
| Elements.ReadFailsIff | src/common/eebus_data/eebus_data_sequence.c:258-304 | reading fails exactly when the walk meets a structure of the data for which the mask has something else, and with no other error |
| Partial.PartialIsOverlay | src/common/eebus_data/eebus_data_sequence.c:358-388 | without lists a partial write is an overlay and cannot fail |
| Identifiers.HasIdentifiersIff | src/common/eebus_data/eebus_data_base.c:127-141 | with flags on leaves and tags, as in all configuration tables, an item has identifiers exactly when one of its fields flagged as identifier, sub-identifier or read-only is set |
| Identifiers.OtherKeyKeepsApart | src/common/eebus_data/eebus_data_sequence.c:233-256 | an old item that differs from a source item in a set field with one of the three flags does not match it, wherever else flags are |
| Identifiers.IdentifiersMatchIff | src/common/eebus_data/eebus_data_sequence.c:233-256 | a source item matches an old item exactly when they differ in none of the flagged fields that the source item has, whatever the unflagged ones hold |
| Identifiers.StepLeavesOthers | src/common/eebus_data/eebus_data_list.c:498-513 | a source item is not written to an old item that differs from it in such a field, and is appended when every old item does |
| Identifiers.FindMatchIsFirstAlike | src/common/eebus_data/eebus_data_list.c:460-468 | the item it is written to is the first that differs in none |
| Identifiers.MergeByIdentifiers | src/common/eebus_data/eebus_data_list.c:470-524 | through a whole merge the old items that differ from every source item stay as they were, and behind the old items come exactly the source items that differ from every old one, in order |
| Partial.PartialKeepsMatches | src/common/eebus_data/eebus_data_sequence.c:233-256 | writing a source item to an item that it matches does not change which other source items that item matches |
| Partial.StepAgrees | src/common/eebus_data/eebus_data_list.c:498-513 | one turn of the second pass appends exactly when the first pass counted, and leaves the rest of the count as it was |
| Partial.PassesAgree | src/common/eebus_data/eebus_data_list.c:479-513 | the two passes of a merge agree for every source, duplicates, partial keys and empty lists included: the second appends exactly the items the first counted, in source order, so every new slot is written once |
| Partial.MergeFailsIffTooLong | src/common/eebus_data/eebus_data_list.c:486-496 | merging items without lists fails exactly when the list would have to grow beyond the bound, and then changes nothing |
| Partial.ListIsUndefinedIff | src/common/eebus_data/eebus_data_list.c:437-453 | a source list without items is read at its first item exactly when the destination list has one |
| Partial.ErrorIsObstacle | src/common/eebus_data/eebus_data_sequence.c:358-388 | for structures of lists without further lists, the error of a partial write is that of the first field with an obstacle: a merge that would grow beyond the bound, or an empty source list over a list with items |
| Partial.DefinedWithoutEmptyLists | src/common/eebus_data/eebus_data_sequence.c:358-394 | lists inside merged items included, no item is read out of bounds when no list of the source that is not a simple one is empty |
| Upsert.MatchIsSameKey | src/common/eebus_data/eebus_data_sequence.c:233-256 | on items with complete keys, matching identifiers is having the same key, the key being the fields with one of the three flags |
| Upsert.PartialKeepsKey | src/common/eebus_data/eebus_data_sequence.c:358-388 | a partial write of a matching item keeps the key |
| Upsert.MergeIsMerge | src/common/eebus_data/eebus_data_list.c:470-524 | with complete, distinct keys on both sides the merged list is the old items in their places, each overlaid by the source item with its key, then the unmatched source items in source order |
| Upsert.MergeKeepsKeys | src/common/eebus_data/eebus_data_list.c:470-524 | keys stay complete and distinct |
| Upsert.MergeIsUpsert | src/common/eebus_data/eebus_data_list.c:470-524 | seen as maps from keys to items a merge is insert-or-update: a key of both sides leads to the old item with the source item written to it, a key of one side to its item, and there are no other keys |
| Upsert.MergeAgainChangesNothing | src/common/eebus_data/eebus_data_list.c:470-524 | merging the same source again changes nothing |
| Selectors.SelectorsMatchIff | src/common/eebus_data/eebus_data_sequence.c:196-231 | for any two configurations, an item matches a selector exactly when the selector is unset, or the item is set and holds, for every set selector field, an equal tree in its first field of that name, if it has one |
| Selectors.LeafSelectorIff | src/common/eebus_data/eebus_data_sequence.c:196-231 | for a selector of leaves, whatever its flags, and distinct names: an item matches exactly when it is set and equals the selector in every set selector field whose name it has |
| Selectors.PickIsOrdered | src/common/eebus_data/eebus_data_list.c:764-844 | the positions a selector picks are exactly the matching ones, each once, in increasing order |
| Selectors.ChosenAtPositions | src/common/eebus_data/eebus_data_list.c:274-286 | the items taken out are those at the picked positions, in the same order |
| Selectors.ChosenPartition | src/common/eebus_data/eebus_data_list.c:590-598 | matching and other items partition the list: nothing is lost and nothing is in both |
| DataList.CreateListBuffer | src/common/eebus_data/eebus_data_list.c:148-160 | a buffer of NULL slots, or none exactly above the bound |
| DataList.FindItem | src/common/eebus_data/eebus_data_list.c:460-468 | the search returns the first matching item |
| DataList.MoveSurvivors | src/common/eebus_data/eebus_data_list.c:590-598 | every item is deleted or moved but never both: the deleted positions are the picked ones in order, the new buffer is the others in order |
| DataList.DataList.Write | src/common/eebus_data/eebus_data_list.c:366-402 | the destination becomes equal to the source in a buffer of its own, which is reused exactly when its length fits; above the bound it ends up empty |
| DataList.DataList.Compare | src/common/eebus_data/eebus_data_list.c:291-316 | the comparison loop decides equality of the two lists |
| DataList.DataList.CountMatching | src/common/eebus_data/eebus_data_list.c:256-262 | the first pass counts the picked positions |
| DataList.DataList.CopyMatching | src/common/eebus_data/eebus_data_list.c:233-289 | the destination becomes exactly the items that meet the selector, in order, whatever it held; meeting is equality of trees, field by field |
| DataList.DataList.CopyToSelectedData | src/common/eebus_data/eebus_data_list.c:404-435 | the first source item is overlaid on exactly the items that meet the selector, the others are unchanged |
| DataList.DataList.DeleteListItems | src/common/eebus_data/eebus_data_list.c:557-605 | the list becomes the items that do not meet the selector, in order; deleting every item leaves an empty list, and a refused buffer leaves everything unchanged |
| DataList.DataList.CountMerged | src/common/eebus_data/eebus_data_list.c:479-484 | the first pass computes the size of the merged list |
| DataList.DataList.MergeInto | src/common/eebus_data/eebus_data_list.c:500-513 | the in-place second pass computes the value-level merge and never runs past the buffer the first pass measured |
| DataList.DataList.MergeData | src/common/eebus_data/eebus_data_list.c:470-524 | the whole merge, buffer and size, computes the value-level merge; refused above the bound, with nothing changed |
| DataList.DataList.WritePartial | src/common/eebus_data/eebus_data_list.c:526-541 | without selectors the list method has the outcome of the recursive partial write |
| DataList.DataList.CopyToAllData | src/common/eebus_data/eebus_data_list.c:437-458 | the first source item is partially written to every item, stopping at the first error with the later items untouched; a source or destination without items changes nothing |
| DataList.DataList.DeleteListItemsElements | src/common/eebus_data/eebus_data_list.c:607-628 | the masked parts are deleted from exactly the items that meet the selector |
| DataList.DataList.DeletePartial | src/common/eebus_data/eebus_data_list.c:630-662 | selectors alone delete items, a mask deletes parts of the selected items, neither changes nothing |
| DataList.EmptiedListAsSource | src/common/eebus_data/eebus_data_list.c:557-605 | deleting every item leaves a buffer without items; as the source of a partial write such a list is read out of bounds exactly when the destination has an item |
| ListData.VisitAll | src/common/eebus_data/eebus_data_list.c:783-844 | walking with the match iterator to its end visits exactly the picked positions in order, and none without a filter |
| ListData.IteratorAgreesIff | src/common/eebus_data/eebus_data_list.c:783-844 | the iterator visits exactly the positions that the copying and deleting loops select if and only if there is a filter or the list is empty |
| ListData.NoFilterVisitsNothing | src/common/eebus_data/eebus_data_list.c:800-802 | one item and no filter: the iterator ends at once, the copying loop takes the item |
| ListData.Append | src/common/eebus_data/eebus_data_list.c:683-702 | a new buffer with the pointer at the end, refused above the bound |
| ListData.Remove | src/common/eebus_data/eebus_data_list.c:704-734 | every occurrence of the pointer is dropped, but the size goes down by one: it is the length of the buffer exactly when the pointer occurred once |
| Container.Container.WritePartial | src/common/eebus_data/eebus_data_container.c:99-124 | a missing source is refused and changes nothing; otherwise the missing list structure is created and the list operation decides |
| Container.Container.DeletePartial | src/common/eebus_data/eebus_data_container.c:126-144 | a missing structure stays missing; otherwise the list operation decides |
| Container.Container.CopyMatching | src/common/eebus_data/eebus_data_container.c:67-88 | a missing source is refused; otherwise the destination list becomes exactly the matching items |
| Container.TakeOut | src/common/eebus_data/eebus_data_container.c:67-144 | copying what a selector matches and then deleting it puts every item on exactly one side, each side in its old order |
| HeapTree.Frame | src/common/eebus_data/eebus_data_sequence.c:306-330 | a tree in memory means the same in every memory that agrees on the blocks it owns |
| HeapTree.Lift | src/common/eebus_data/eebus_data_sequence.c:321-327 | rewriting one slot of a block is rewriting the slot that holds the block: what is freed, allocated and unchanged carries over from field to structure |
| HeapTree.CopyIsSource | src/common/eebus_data/eebus_data_list.c:366-402 | a copy that succeeds is the source whatever the destination held; without over-long lists it succeeds, and into an empty slot with one it fails |
| HeapTree.OverlayIsOverlay | src/common/eebus_data/eebus_data_sequence.c:332-356 | an overlay in memory that succeeds gives the overlay of the two trees |
| HeapTree.ReadIsRead | src/common/eebus_data/eebus_data_sequence.c:258-304 | a read in memory that succeeds, or in which no list is over the bound, is the projection of the two trees |
| HeapTree.SourceKept | src/common/eebus_data/eebus_data_sequence.c:306-330 | whatever is done to the destination, a source that shares no block with it keeps its tree and its blocks |
| HeapTree.WriteIsDeepCopy | src/common/eebus_data/eebus_data_sequence.c:306-330 | after a successful write source and destination compare equal and share no block, and the source is untouched |
| HeapTree.NothingLeaks | src/common/eebus_data/eebus_data_sequence.c:427-440 | deleting a slot that was empty before some operations filled it gives back exactly the memory there was, also after a failed operation: every block was freed, once |
| HeapTree.Memory.Delete | src/common/eebus_data/eebus_data_sequence.c:427-440 | frees exactly the blocks of the tree, each once, sets the slot to NULL and changes nothing else |
| HeapTree.Memory.WriteLeaf | src/common/eebus_data/eebus_data_string.c:120-148 | the bytes are overwritten in place, a string of another length gets another block, the old one being freed |
| HeapTree.Memory.Write | src/common/eebus_data/eebus_data_sequence.c:306-330 | the slot becomes a copy of the source, or what the first failing list left; the blocks it lost were freed, it shares none with the source, and all other memory is unchanged |
| HeapTree.Memory.WriteElements | src/common/eebus_data/eebus_data_sequence.c:332-356 | the same for the overlay |
| HeapTree.Memory.DeleteElements | src/common/eebus_data/eebus_data_sequence.c:396-425 | the slot becomes the tree without the masked parts, whose blocks were freed, and all other memory is unchanged |
| HeapTree.Memory.ReadElements | src/common/eebus_data/eebus_data_sequence.c:258-304 | the slot becomes what reading leaves, copy errors included; strings and lists are deleted before they are copied, the other leaves written in place, and no other memory changes |
| HeapList.DeleteListItems | src/common/eebus_data/eebus_data_list.c:557-605 | in memory: exactly the selected items are freed, the blocks of the others are untouched and hang from a new buffer in the old order, the old buffer is freed and nothing else changes; a refused buffer leaves all memory as it was |
| HeapList.MoveAndFree | src/common/eebus_data/eebus_data_list.c:590-598 | the second pass frees or moves every item and never both, although both buffers point to the moved ones meanwhile |
| HeapList.CountStaying | src/common/eebus_data/eebus_data_list.c:573-578 | the first pass counts the items that stay |
| HeapList.Moved | src/common/eebus_data/eebus_data_list.c:600-604 | swapping the buffers after the pass leaves exactly the survivors' blocks in the list, none leaked and none shared |
| HeapMerge.FindItem | src/common/eebus_data/eebus_data_list.c:460-468 | in memory, the search returns the first of the old items that matches |
| HeapMerge.CountMerged | src/common/eebus_data/eebus_data_list.c:479-484 | in memory, the first pass computes the size of the merged list |
| HeapMerge.GrownHolds | src/common/eebus_data/eebus_data_list.c:486-496 | while both buffers point to the old items, the local variable with the larger one is a tree of its own: the old items and NULL slots |
| HeapMerge.Adopt | src/common/eebus_data/eebus_data_list.c:515-522 | freeing the old buffer and storing the new one turns what was done to the local variable into an update of the list, with no block leaked |
| HeapMerge.MergeInto | src/common/eebus_data/eebus_data_list.c:498-513 | in memory, the second pass rewrites matching items where they are and appends copies of the others, computing the value-level merge within the buffer that was measured |
| HeapMerge.MergeData | src/common/eebus_data/eebus_data_list.c:470-524 | in memory, the whole merge has the outcome of the value-level merge whenever it succeeds or no list of the source is over the bound; in any case it frees what it replaced and touches nothing outside the list |
| HeapMerge.CopyToAllData | src/common/eebus_data/eebus_data_list.c:437-458 | in memory, the first source item is partially written to every item up to the first error |
| HeapMerge.WritePartial | src/common/eebus_data/eebus_data_sequence.c:358-394 | in memory, the recursive partial write over structures, leaves and lists of lists has the outcome of the value-level one whenever it succeeds or no list of the source is over the bound, and is an update of its slot in any case |
| HeapMerge.MergeFillsBuffer | src/common/eebus_data/eebus_data_list.c:470-524 | with complete, distinct keys the merged buffer holds the upsert of the two lists and no unused slot |
| HeapMerge.MergeTwice | src/common/eebus_data/eebus_data_list.c:470-524 | two successful merges of one source leave in memory what the upsert says, the second changing nothing |
| Json.NumberRoundTripIff | src/common/eebus_data/eebus_data_numeric.c:91-123 | an integer survives the conversions to a double, rounding to nearest even, and back, truncating, exactly when it is a double |
| Json.FromDoubleTruncates | src/common/eebus_data/eebus_data_numeric.c:35-49 | a double is read as its integer part, toward zero |
| Json.SmallIsRepresentable | src/common/eebus_data/eebus_data_numeric.c:112-123 | every integer up to 2^53 in magnitude is such a double |
| Json.FirstLostInteger | src/common/eebus_data/eebus_data_numeric.c:112-123 | the first integer that does not: 2^53 + 1 |
| Json.ScanForValue | src/common/eebus_data/eebus_data_enum.c:60-83 | the scan finds the value of the first entry of that name |
| Json.ScanForName | src/common/eebus_data/eebus_data_enum.c:85-102 | the scan finds the name of the first entry of that value |
| Json.EnumRoundTripIff | src/common/eebus_data/eebus_data_enum.c:60-102 | scanning the table for the name of a value and for the value of that name gives the value back exactly when the table has the value and no earlier entry has its name |
| Json.UnknownNameIsUnset | src/common/eebus_data/eebus_data_enum.c:60-83 | an enumeration name leaves the slot unset exactly when the table does not have it; otherwise the first entry of that name counts |
| Json.FindJsonItem | src/common/json_impl_cjson.c:31-46 | the search loop finds the first array element with a member of that name, case ignored |
| Json.LeafRoundTripIff | src/common/eebus_data/eebus_data_date_time.c:132-167 | a leaf encodes and decodes to itself exactly when it is readable |
| Json.FieldsEncode | src/common/eebus_data/eebus_data_sequence.c:80-102 | the fields encode exactly when each of them does, and with names that differ by more than case, looking up any field's name among the encoded objects finds exactly that field's encoding |
| Json.FieldsInOrder | src/common/eebus_data/eebus_data_sequence.c:80-102 | a structure is encoded as one object for each set field, in the order of the configuration |
| Json.RoundTripIff | src/common/eebus_data/eebus_data_sequence.c:59-102 | decoding the encoding of a tree gives the tree exactly when every leaf is readable and every list has one item at least, none unset, and is within the bound; for every configuration with distinct sibling names |
| Json.MessageRoundTripIff | src/common/eebus_data/eebus_data_base.c:50-110 | the same for whole messages, also empty ones |
| Json.EmptyListIsLost | src/common/eebus_data/eebus_data_list.c:162-173 | an empty list comes back as an unset one |
| JsonReading.DecodeIff | src/common/eebus_data/eebus_data_sequence.c:59-78 | what the decoder accepts, over all JSON values, and what it reads: a structure from an array of objects in any order, the first member of a name counting, case ignored, other members left aside and missing fields unset; a list from an array of at most the bound; leaves by kind, with the texts of dates and times as above |
| JsonReading.MessageIff | src/common/eebus_data/eebus_data_base.c:80-91 | the same for a whole message: the first member of the root name, or nothing is set |
| StringUtil.RemoveToken | src/common/string_util.c:96-110 | the in-place loop leaves the string with the occurrences cut out from left to right, terminated |
| StringUtil.TokenIsGoneIff | src/common/string_util.c:96-110 | the token is gone from every string exactly when all its characters are the same; otherwise removing it can join a new one |
| StringUtil.GroupByN | src/common/string_util.c:236-262 | the fill loop writes exactly the grouped text and its terminator into a buffer of the computed size |
| StringUtil.GroupedLength | src/common/string_util.c:241-243 | the grouped text has one character more for each full group before the last |
| StringUtil.GroupedAt | src/common/string_util.c:250-257 | every character comes after as many spaces as there are full groups before it |
| StringUtil.GroupedGap | src/common/string_util.c:250-257 | and a space follows every full group but the last |
| StringUtil.UngroupIff | src/common/string_util.c:96-262 | removing the spaces undoes the grouping exactly when the string has no space itself |
| StringUtil.Token | src/common/string_util.c:182-214 | one call: the first token from the cursor on, ended by a NUL in place, and the new cursor |
| StringUtil.Tokenize | src/cli/eebus_cli.c:314-314 | the loop over repeated calls terminates and hands out the runs of the original text in order, each readable as a string of its own afterwards |
| StringUtil.RunsAreTheRuns | src/common/string_util.c:182-214 | these runs are exactly the maximal stretches without delimiters, from left to right |
| StringUtil.WithHexAlphaBase | src/common/string_util.c:112-134 | the fill loop writes exactly the digits and the terminator |
| StringUtil.HexToBytes | src/common/string_util.c:160-180 | a text is accepted exactly when it has two hexadecimal digits for each byte and nothing else |
| StringUtil.HexDigitIff | src/common/string_util.c:112-158 | the digits are 0 to 9 and a to f, read in either case, and nothing else is one |
| StringUtil.HexRoundTrip | src/common/string_util.c:112-180 | reading the text of bytes gives the bytes, in either case of digits |
| StringUtil.TextRoundTrip | src/common/string_util.c:112-180 | the text of bytes that were read has the digits of the text they were read from |

## Left out

- Choice nodes, the choice root and the stub (`eebus_data_choice.c`, `eebus_data_choice_root.c`, `eebus_data_stub.c`): writing one switches the variant without releasing the old one, so no tree law holds for them.
- Container nodes inside a tree: only the container at the root of a message, around one list, is modelled.
- DataList.DataList.MergeData: the items of a list are values in `DataList`; moving, sharing and freeing their blocks is in `HeapList` and `HeapMerge`.
- Copying, appending and removing list pointers, the selected overlay and the selected deletion of elements are not repeated in memory.
- DataList.DataList.WritePartial: a source without items over a destination with some is excluded, where the code reads outside the buffer (`ListIsUndefinedIff`), and identifier fields must not lie in or below nested lists.
- HeapMerge.WritePartial: writes in which such a read happens on the way are excluded; `DefinedWithoutEmptyLists` says when none does.
- Partial.ErrorIsObstacle: lists inside the items of merged lists are not covered by this exact form, since an item may be written several times in one merge; for them the value-level function itself is the condition.
- Upsert.MergeAgainChangesNothing: items with nested lists are excluded, since nothing is assumed of the keys of the nested items.
- Allocation failure other than the bound on list buffers. The list methods copy items as values; `HeapTree` has the failing copy of an over-long nested list.
- HeapTree.Memory.DeleteElements: the mask is passed as the tree it stands for.
- Numeric widths: a number leaf holds any integer, and a decoded double is assumed to fit the C type it is converted to.
- Leaf comparison by memory, including padding bytes of unions: leaves compare as values.
- Selector fields are assumed to have the width of the data field of the same name; a selector that is a list is compared item by item like the data.
- DateTimes.EebusDateTime.AddDuration: exactly the arguments for which a 32-bit sum, its predecessor or its negation overflows are excluded, which C leaves undefined.
- Durations.ToSecondsIsSafeAndOdd: negating INT32_MIN is undefined in C; the model keeps the two's complement value and the laws exclude it.
- DurationText.ToString: the C library's formatting is modelled for the formats that occur.
- Queue.EebusQueue.Send: the object methods are those of one thread with a finite timeout; waiting forever and other threads are in `QueueProtocol`.
- QueueProtocol.RunLosesNoWakeup: clear, close and timeouts that use up a signal are excluded, where it does not hold in general; what the first and the last do to it is `ClearKeepsWakeupsIff` and `TimeoutTakingSignalKeepsWakeupsIff`.
- Queue liveness under an unfair scheduler, use of the queue during and after destruction, and the time arithmetic of timed waits.
- The timer's state value, which Start sets without the mutex, its remaining time, and destruction while running.
- Reading clocks, converting from `struct tm`, locale and time zone functions.
- JSON as text: cJSON's printer and parser are not part of this model; the round trip is on JSON values.
- Json.RoundTripIff: duration components of INT32_MIN are excluded, whose printing C leaves undefined. JSON values are built and searched as values, not node by node; only the search loops are in place.
- JSON choices.
- StringUtil.Tokenize: the command line stops after ten tokens; the loop here takes all of them.
- StringUtil.Token: delimiters are a set of characters, which is all that the search uses of the string.
- Copying, comparing, upper-casing and formatting strings, `vector.c`, the lookup tables, the entity address list and the message buffer: they would only add easy members.
- The SHIP and SPINE layers, the services, the command line and the use cases above this library.
