# Slot recommender model

A Dafny model of the appointment-slot recommender of the clinic scheduling
backend (`AppointmentsService.recommendSlots`). Given a physician's
working-hours table, the appointments already booked, the physician's
availability blocks and the regional billing rule, the recommender:

1. derives the minimum gap (the rule's `gapDurationMinutes`, or 15 when it is
   0 or the rule is missing) and the before/after buffers (0 when unset);
2. looks up the working hours for the weekday of the requested date. A missing
   entry, or one that is not a (start, end) pair, gives the result
   `{status: 'error', recommendedSlots: [], message: 'No working hours for this day'}`;
3. walks a cursor through the working window:
   - it keeps only the blocks of type `available`, sorted by start, and
     sorts the appointments by start;
   - for each cursor position it advances a block index past every block that
     does not contain the candidate slot;
   - it tests the slot against every appointment, padded by the buffers, with
     the three-way overlap test and the raw minimum-gap test;
   - on a conflict it jumps the cursor forward. Otherwise it scores the slot,
     records it, and steps the cursor by the gap;
4. sorts the recorded slots by ascending disruption score (a stable sort),
   keeps the first ten, and renders each one as `YYYY-MM-DDTHH:MM:00`.

Time is modelled as integer minutes after midnight of the requested date. The
score is an integer number of minutes or +∞ (`Scoring.Extended`).

The files and modules:

| file | module | contents |
|---|---|---|
| `wrappers.dfy` | `Wrappers` | `Option` |
| `clock.dfy` | `Clock` | dates, Sakamoto's weekday, strict `HH:MM` parsing, the output timestamp |
| `rules.dfy` | `Rules` | billing rule and the gap/buffer defaults |
| `schedule.dfy` | `Schedule` | spans, blocks, the `available` filter, the sort by start |
| `sorting.dfy` | `Sorting` | a generic stable insertion sort (the behaviour of `Array.prototype.sort`) with its lemmas |
| `scoring.dfy` | `Scoring` | the nearest-appointment gaps, the disruption score, and the scoring loop as a method |
| `generator.dfy` | `Generator` | the cursor loop as a method (`GenerateCandidates`); its reference definition `Scan`/`Candidates`; what it records |
| `ranking.dfy` | `Ranking` | the sort by score and the top ten |
| `recommender.dfy` | `Recommender` | the whole request, end-to-end properties and a worked scenario |

The imperative parts of the source stay imperative:

- the generator loop is `Generator.GenerateCandidates`;
- its inner block-skipping `while` is `Generator.FindBlock`;
- the appointment `for` with its `break`s is `Generator.CheckAppointments`;
- the scoring `for` is `Scoring.ScoreSlot`.

Each of these methods is proved equal to a recursive function, and the
properties are proved about those functions.

Two behaviours of the code are modelled as written.

- **Dead branches.** The "snap to the block start" branch (lines 92-94) and
  the "move to the next block" branch (lines 96-100) can never run. The
  block search has already skipped every block that does not contain
  `[slot, slot+duration)`. `GenerateCandidates` keeps both branches and
  proves them unreachable with `assert false`.
- **Skipped blocks.** A cursor that sits before an available block skips that
  block; it does not move up to the block's start. The comment at
  appointments.service.ts:91 says the slot is snapped to the start of the
  next available block, but the block search before it has already moved
  past that block, so the snap never happens; the model follows the code. `CursorBeforeAllBlocks`,
  `EarlyWindowSkipsLaterBlock` and `WindowBeforeEveryBlock` state the
  consequence: a working day that opens before its first available block
  gets no recommendation at all.

One might expect that cancelling a booked appointment never removes a
recommended slot. It can, because the recorded slots depend on where
conflicts move the cursor. `AppointmentShiftsCursor` and `FreeWindowSteps`
exhibit such an input: with an appointment over the first 20 minutes the
cursor records 35, which the free window, stepping 0, 15, 30, 45, never
records.

## Model

| member | source | states |
|---|---|---|
| Rules.EffectivePolicy | backend/src/appointments/appointments.service.ts:54-56 | The gap is the rule's gap when that gap is non-zero. It is 15 when the gap is 0 or there is no rule. Missing buffers are 0. For a rule whose gap is not negative, the gap is at least 1. |
| Clock.DaysInMonth | backend/src/appointments/appointments.service.ts:60 | A month has 28 to 31 days. February has 29 exactly in leap years. |
| Clock.DayOfWeek | backend/src/appointments/appointments.service.ts:60-61 | The weekday number of a date lies in 0..6. |
| Clock.WeekdayLabel | backend/src/appointments/appointments.service.ts:61-63 | The key looked up in the working-hours table is one of "sun".."sat". |
| Clock.DayOfWeekOfNextDay | backend/src/appointments/appointments.service.ts:61 | Consecutive calendar days, including across month and year ends, get consecutive weekdays. With one anchored date, this makes the arithmetic weekday agree with the calendar. |
| Clock.WeekdayOf20250709 | backend/src/appointments/appointments.service.spec.ts:63-75 | 2025-07-09 is looked up under "wed". |
| Clock.ParseClock | backend/src/appointments/appointments.service.ts:68-71 | A working-hours string names a time only if it has the form HH:MM: five characters, a colon in the middle, and digits around it. The time it names lies in 0..1440 minutes. |
| Clock.ParseFormatClock | backend/src/appointments/appointments.service.ts:70-71 | Formatting a minute of the day as HH:MM and parsing it back gives that minute. |
| Clock.FormatParseClock | backend/src/appointments/appointments.service.ts:70-71 | A string that parses to a minute before 24:00 is the HH:MM formatting of that minute. |
| Clock.DateString | backend/src/appointments/appointments.service.ts:170 | The date part of a timestamp is "YYYY-MM-DD": ten characters with dashes at positions 4 and 7 and digits elsewhere, and those digits read back as the date's year, month and day. |
| Clock.SlotString | backend/src/appointments/appointments.service.ts:170 | The timestamp has 19 characters and ends in ":00". It starts with the requested date and a 'T', and its HH:MM field reads back as the slot's minute. |
| Schedule.AvailableSpans | backend/src/appointments/appointments.service.ts:75-76 | A span is kept exactly when some block of type "available" has it. The result is no longer than the input. |
| Schedule.SortByStart | backend/src/appointments/appointments.service.ts:77-78 | The blocks and appointments are permuted, never added or lost, into ascending order of start. |
| Sorting.SortBy | backend/src/appointments/appointments.service.ts:166 | Sorting permutes its input: the multiset and the length are unchanged. |
| Sorting.SortBySorted | backend/src/appointments/appointments.service.ts:166 | Under a total, transitive comparator the result is sorted. |
| Sorting.SortByTiesOrdered | backend/src/appointments/appointments.service.ts:166 | The sort is stable: elements that compare equal keep the order they had in the input. |
| Scoring.MinPrevGapIsMinimum | backend/src/appointments/appointments.service.ts:135-142 | The gap before a slot is ∞ exactly when no appointment ends by the slot's start. Otherwise it is the least distance from such an appointment's end, and some appointment attains it. |
| Scoring.MinNextGapIsMinimum | backend/src/appointments/appointments.service.ts:136-145 | The gap after a slot is ∞ exactly when no appointment starts at or after the slot's end. Otherwise it is the least distance to such an appointment's start, and some appointment attains it. |
| Scoring.ScoreInfiniteIff | backend/src/appointments/appointments.service.ts:147-160 | A score is ∞ exactly when both gaps are ∞. The −10, −5 and +10 terms never absorb infinity. |
| Scoring.ScoreNearSmallerGap | backend/src/appointments/appointments.service.ts:147-160 | A finite score lies between 15 below and 10 above the smaller of the two gaps. |
| Scoring.ScoreAtInfiniteIff | backend/src/appointments/appointments.service.ts:134-160 | A slot scores ∞ exactly when every appointment ends after its start and starts before its end. Otherwise some appointment before or after it lies at a distance within [score−10, score+15]. |
| Scoring.ScoreSlot | backend/src/appointments/appointments.service.ts:134-160 | The scoring loop computes the score that the gaps over all appointments determine. |
| Generator.SkipBlocks | backend/src/appointments/appointments.service.ts:83-89 | The block index never moves backwards. When the search stops at a block, that block contains [slot, slot+duration). |
| Generator.SkipBlocksPassesNonFitting | backend/src/appointments/appointments.service.ts:83-89 | Every block passed over fails to contain the slot. |
| Generator.SkipBlocksFindsFitting | backend/src/appointments/appointments.service.ts:83-90 | The search stops at or before any block that contains the slot, so it does not run out of blocks. |
| Generator.FindBlock | backend/src/appointments/appointments.service.ts:83-89 | The inner `while` stops where the block search says. |
| Generator.FirstConflict | backend/src/appointments/appointments.service.ts:104-127 | On a conflict the cursor moves forward by at least the gap. |
| Generator.FirstConflictMeaning | backend/src/appointments/appointments.service.ts:105-127 | There is no conflict exactly when every appointment is clear of the slot, both padded and by the raw gap. A conflict sends the cursor at least to the padded end of an appointment that is not clear. |
| Generator.FirstConflictJump | backend/src/appointments/appointments.service.ts:104-127 | On a conflict, the first appointment that is not clear of the slot decides where the cursor goes. If the padded intervals overlap, it goes to the later of slot+gap and the padded end. If only the raw gap is broken, it goes to the later of slot+gap and the padded end plus the gap. |
| Generator.OverlapsIsIntervalOverlap | backend/src/appointments/appointments.service.ts:108-112 | For a non-empty slot and a non-empty padded appointment, the three-way test is ordinary interval overlap. |
| Generator.CheckAppointments | backend/src/appointments/appointments.service.ts:103-128 | The appointment `for` loop with its `break`s reports a conflict, and where the cursor goes next, exactly as the first conflicting appointment decides. |
| Generator.GenerateCandidates | backend/src/appointments/appointments.service.ts:73-164 | The cursor loop records exactly the reference list of slots. The snap and move-to-next-block branches are unreachable. The loop terminates. |
| Generator.ScanSound | backend/src/appointments/appointments.service.ts:81-161 | Every recorded slot: lies in the working window; lies inside an available block; overlaps no padded appointment; keeps the raw gap from every appointment's start and end; carries its own score. |
| Generator.ScanOrdered | backend/src/appointments/appointments.service.ts:104-163 | Recorded slots never start before the cursor, and any two are at least a gap apart in recording order. |
| Generator.CandidatesSoundAndOrdered | backend/src/appointments/appointments.service.ts:73-164 | Both properties above, for the whole search from the start of the window. |
| Generator.CursorBeforeAllBlocks | backend/src/appointments/appointments.service.ts:83-94 | A cursor that sits before the start of every remaining block records nothing. |
| Generator.EarlyWindowSkipsLaterBlock | backend/src/appointments/appointments.service.ts:83-94 | A day worked 08:00-12:00 with one available block 09:00-12:00 and no appointments gets no slot, although 09:00 is admissible. |
| Generator.FreeOpeningFirst | backend/src/appointments/appointments.service.ts:81-163 | With no appointments, and a block containing the opening slot, the opening is the first recorded slot. Every slot then scores ∞. |
| Generator.AppointmentShiftsCursor | backend/src/appointments/appointments.service.ts:113-131 | An appointment over [0, 20) moves the cursor to 20 and then 35, where a slot is recorded. |
| Generator.FreeWindowSteps | backend/src/appointments/appointments.service.ts:161-163 | Without that appointment the same window records 0, 15, 30 and 45. Removing an appointment can therefore take a slot away. |
| Ranking.ScoreNoWorseIsTotalPreorder | backend/src/appointments/appointments.service.ts:166 | Under the comparator `a.score - b.score`, where ∞ − ∞ is NaN and counts as equal, the order is total and transitive. |
| Ranking.SortByScore | backend/src/appointments/appointments.service.ts:166 | Sorting by score permutes the slots. |
| Ranking.Rank | backend/src/appointments/appointments.service.ts:166-168 | The result has min(n, 10) slots, all of them recorded slots. With at most 10 slots, all of them are kept. |
| Ranking.RankIsBestFirst | backend/src/appointments/appointments.service.ts:166-168 | The kept slots are in ascending score order, form a prefix of the sorted list, and score no worse than every dropped slot. |
| Ranking.RankTiesChronological | backend/src/appointments/appointments.service.ts:166 | Given slots in time order, slots with equal scores, ∞ included, stay in time order. |
| Ranking.AllInfiniteKeepsOrder | backend/src/appointments/appointments.service.ts:166 | When every score is ∞ the sort leaves the slots as they are. |
| Recommender.WorkingWindow | backend/src/appointments/appointments.service.ts:68-71 | The window exists exactly when both strings parse, and is then the pair of minutes the start and end strings name. Its bounds lie in 0..1440. |
| Recommender.Timestamps | backend/src/appointments/appointments.service.ts:170 | There is one timestamp per ranked slot, and the i-th one renders the i-th slot's minute on the requested date. |
| Recommender.RankedAdmissible | backend/src/appointments/appointments.service.ts:166-170 | Every ranked slot is admissible and carries its own score. |
| Recommender.Recommend | backend/src/appointments/appointments.service.ts:54-171 | The result is an error exactly when the weekday has no (start, end) entry, and then carries no slots and the message. A (start, end) entry whose strings do not both parse gives success with no slots. There are at most 10 slots, each 19 characters long and ending in ":00". |
| Recommender.RecommendSlots | backend/src/appointments/appointments.service.ts:54-171 | The imperative request, running the generator method, answers exactly as the reference definition does. |
| Recommender.AdmissibleIsBookable | backend/src/appointments/appointments.service.ts:75-127 | An admissible slot of the sorted, filtered search is bookable under the data as fetched. |
| Recommender.RecommendSound | backend/src/appointments/appointments.service.spec.ts:108-116 | Every returned timestamp names, on the requested date, a slot start that is bookable: inside the window; inside an available block; clear of every padded appointment; at least the gap from each appointment's raw end and start. |
| Recommender.RecommendRanked | backend/src/appointments/appointments.service.ts:166-170 | The returned strings are the ranked slots in ranking order, best first: the i-th string renders the i-th ranked slot on the requested date, and every ranked slot lies in the window and before 24:00. |
| Recommender.RecommendCount | backend/src/appointments/appointments.service.ts:166-170 | At most ten slots are returned, and all of them when fewer than ten are generated. |
| Recommender.RankedTiesChronological | backend/src/appointments/appointments.service.ts:161-166 | Returned slots with equal scores appear in time order. |
| Recommender.WindowBeforeEveryBlock | backend/src/appointments/appointments.service.ts:81-90 | If the working day opens before every available block, the result is a success with no slots. |
| Recommender.FreeDayStartsAtOpening | backend/src/appointments/appointments.service.ts:73-170 | On a day with no appointments, if an available block contains the opening slot, the first recommendation is the opening. |
| Recommender.OpenWednesday | backend/src/appointments/appointments.service.spec.ts:58-81 | Wednesday 2025-07-09, worked 09:00-17:00 with one free block and a 30-minute request: success, and the first slot is 2025-07-09T09:00:00. |

## Left out

- Fetching the physician, appointments, blocks and billing rule, and the "Physician not found" exception (lines 33-53). This is database I/O. The fetched values are parameters of `Recommend`.
- The NestJS controller and its validation pipe. Only `durationMinutes >= 1` is carried over, as part of `ValidRequest`. `ValidRequest` also asks for a real calendar date in years 0..9999. The controller's `@IsDateString()` check is not that strict: strings it accepts that name no real day (such as `2025-02-30`), or only a year and month, are not modelled.
- Time zones. Working-hours strings are read in local time, the weekday is taken in UTC, and the output goes through `toISOString`, which is UTC. The model uses one clock in minutes after midnight of the requested date, with blocks and appointments given on that clock.
- `Date` parsing of non-strict strings. A working-hours string counts as a time only in the form `HH:MM` (00:00-23:59, or 24:00). Any other string makes the window empty, as an invalid `Date` does. Other formats a JavaScript engine might accept leniently are not modelled.
- Floating point. Milliseconds divided by 60000, and the `Infinity` sentinel, are modelled as integer minutes plus an explicit ∞. Inputs are assumed to fall on whole minutes.
- `console.error` debug output and `async`/`await`.
- The in-place `appointments.sort`. The sort is modelled on values, so the caller's array is not shown as reordered.
- Rule gaps below zero. Such a gap can send the cursor backwards and the source loop forever, so `WellFormedRule` excludes it.
- The JSON shape of `workingHours`. It is a map from weekday labels to lists of strings; entries of other types are not modelled.
