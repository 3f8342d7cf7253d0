# Free-time analysis of a workday calendar

A Dafny model of the schedule analysis in `Optimize_User_Schedules.py`. For one
work window `(start, end)` of integer epoch seconds and the day's busy slots
`(start_time, end_time)` reported by the calendar provider, the program

- collects the **uninterrupted** free time: every gap between busy slots (and
  the gap after the last slot) longer than 90 minutes, or the whole window on a
  day without busy slots (`get_uninterrupted`);
- collects the **fragmented** free time: every non-empty gap shorter than 90
  minutes, walking the slots with the same cursor but skipping, with
  `continue`, a slot that starts exactly at the cursor (`get_fragmented`);
- looks up the **unoptimized meetings**: for each fragment, the event ending
  within 5 minutes of its start and the event starting within 5 minutes of its
  end, skipping the sides that touch the window's own edges, and collects their
  ids without duplicates (`get_unoptimized`);
- totals a list of intervals in whole minutes (`calculate_total_time`).

Modules:

- `Intervals` (`intervals.dfy`): the `Interval` datatype, the thresholds
  (`FragmentThreshold` = 5400 s, `MatchTolerance` = 300 s), the assumptions on a
  day (`ValidDay`: window and slots well formed, slots inside the window, sorted
  ascending and non-overlapping), the gaps of a day as an indexed sequence
  (`Gaps`: gap `i` runs from the end of slot `i - 1`, or the window start, to
  the start of slot `i`, or the window end), and `Filter`. These are the
  reference definitions the walks are proved against.
- `FreeTime` (`free_time.dfy`): the two walks as methods with loops, proved
  equal to `Uninterrupted` (the whole window, or the long gaps) and `Fragmented`
  (the as-written walk, whose cursor is `FragCursor`), and their properties.
- `Unoptimized` (`unoptimized.dfy`): the lookup loop against an event store
  given as a total function from a query `(EndsIn | StartsIn, lo, hi)` to an
  optional event id.
- `TotalTime` (`total_time.dfy`): the minute total.

The busy slots are passed as a `seq<Interval>` instead of being read from
`free_busy[0]["time_slots"]`, and the window as integers instead of the strings
the `int()` casts convert. The methods require nothing of their inputs, as the
code checks nothing; the day's assumptions are `requires` of the lemmas that
need them.

Three facts about the code shape what the model states:

- both thresholds are strict: a gap is uninterrupted only when it is longer
  than 90 minutes (`>`, lines 91 and 101) and a fragment only when it is
  shorter (`<`, lines 126 and 136), so a gap of exactly 5400 s is in neither
  list, although the comment at line 71 speaks of blocks of 90 minutes or more;
- on a day without busy slots, lines 79-84 return the whole window as
  uninterrupted whatever its length, and lines 116-117 return no fragments;
- a slot starting exactly at the cursor is skipped with `continue` (lines
  124-125) and the cursor is not moved to its end, so the fragments are not the
  complement of the busy time (see Findings).

## Model

| member | source | states |
|---|---|---|
| `FreeTime.GetUninterrupted` | Optimize_User_Schedules.py:72-106 | The walk returns exactly `Uninterrupted`: on a day without busy slots the single whole window, of any length; otherwise the gaps longer than 5400 s in order, the last one measured from the last slot's end to the window end. |
| `FreeTime.UninterruptedShape` | Optimize_User_Schedules.py:87-105 | On a valid day with busy slots an interval is uninterrupted exactly when it is a gap longer than 5400 s; on any valid day the uninterrupted intervals are ascending, pairwise disjoint, inside the window and disjoint from every busy slot. |
| `FreeTime.GetFragmented` | Optimize_User_Schedules.py:109-141 | The walk, with its `continue` that leaves the cursor in place, returns exactly `Fragmented`: nothing on a day without busy slots; every interval it returns is shorter than 5400 s and not empty. |
| `FreeTime.FragLoop` | Optimize_User_Schedules.py:122-131 | Every fragment collected by the loop, each measured from the cursor to the start of the slot reached, is shorter than 5400 s and not empty. |
| `FreeTime.ThresholdIsStrict` | Optimize_User_Schedules.py:91-136 | An interval of exactly 5400 s is never a fragment, and never uninterrupted on a day with busy slots. |
| `FreeTime.FragLoopFacts` | Optimize_User_Schedules.py:119-131 | On a valid day the cursor of the fragmented walk stays between the window start and the current gap's start, never passes the start of the slot it reaches, and the fragments so far are ascending and end by the cursor. |
| `FreeTime.FragmentEmitted` | Optimize_User_Schedules.py:123-130 | On a valid day every fragment collected by the loop has its start strictly before its end. |
| `FreeTime.FragmentedShape` | Optimize_User_Schedules.py:119-139 | On a valid day the fragments are non-empty, shorter than 5400 s, inside the window, ascending and pairwise disjoint. |
| `FreeTime.SkippedSlotIsSpanned` | Optimize_User_Schedules.py:122-131 | After a slot that starts at the cursor, the cursor is still that slot's start, so the interval examined at the next slot runs from there, contains the whole skipped slot, is collected whenever it is a fragment, and then overlaps the skipped slot if that slot is not empty. |
| `FreeTime.CursorTracksGaps` | Optimize_User_Schedules.py:120-131 | As long as no slot has been skipped, the cursor is the start of the current gap and the fragments collected are exactly the short non-empty gaps so far. |
| `FreeTime.NeverSkipsIffNoEmptyGap` | Optimize_User_Schedules.py:122-131 | The walk never skips a slot exactly when no slot starts at the end of the previous slot (or, for the first, at the window start). |
| `FreeTime.FragmentedWhenNeverSkips` | Optimize_User_Schedules.py:119-139 | When no slot starts at the cursor, the as-written fragments equal the short non-empty gaps. |
| `FreeTime.ThreeWayPartition` | Optimize_User_Schedules.py:87-139 | On a day with busy slots where no slot starts at the cursor, every non-empty gap is uninterrupted, or a fragment, or exactly 5400 s long, and exactly one of the three; every reported interval is a gap. |
| `FreeTime.TailMeasuredFromLastSlot` | Optimize_User_Schedules.py:134-139 | The end-of-day gap is measured from the last slot's end, not the cursor: with one skipped slot (0, 19400) in window (0, 20000) the cursor stays at 0 and the fragment is (19400, 20000). |
| `FreeTime.SkippedMeetingCountedAsFree` | Optimize_User_Schedules.py:122-131 | For window (0, 20000) and slots (0, 1000), (2000, 3000), a valid day, the as-written fragments are [(0, 2000)], which overlaps the first meeting, and free plus busy time exceeds the window; the corrected fragments are [(1000, 2000)]. |
| `FreeTime.SkippedGapDropped` | Optimize_User_Schedules.py:122-139 | For window (0, 20000) and slots (0, 4000), (6000, 7000), a valid day, the gap (4000, 6000) is a fragment by length but the as-written walk reports no fragments and (7000, 20000) as the only uninterrupted time, so that gap is in neither list; the corrected walk reports it. |
| `FreeTime.GetFragmentedFixed` | Optimize_User_Schedules.py:119-139 | The walk with the cursor always moved to the slot's end returns exactly the short non-empty gaps, every one shorter than 5400 s and not empty. |
| `FreeTime.FreeTimeWithinWindow` | Optimize_User_Schedules.py:87-139 | On a valid day uninterrupted, corrected fragmented and busy time together last no longer than the window; with the as-written fragments this holds when no slot is skipped. |
| `Intervals.GapsAvoidBusy` | Optimize_User_Schedules.py:87-105 | On a valid day the gaps are well formed, ascending, pairwise disjoint, inside the window and disjoint from every busy slot. |
| `Intervals.GapsCoverWindow` | Optimize_User_Schedules.py:87-105 | Every instant of the window lies in some gap or some busy slot. |
| `Intervals.GapsFillWindow` | Optimize_User_Schedules.py:87-105 | The gap lengths and the busy-slot lengths add up to the window's length. |
| `Intervals.FilterMember` | Optimize_User_Schedules.py:91-95 | An interval is kept by the threshold test exactly when it is in the input and passes the test. |
| `Intervals.FilterSeparated` | Optimize_User_Schedules.py:91-95 | Keeping some of an ascending, pairwise disjoint sequence keeps it ascending and pairwise disjoint. |
| `Intervals.FilterPairLength` | Optimize_User_Schedules.py:91-136 | Two threshold tests that never hold together select intervals whose lengths add up to no more than the whole sequence's. |
| `Unoptimized.GetUnoptimized` | Optimize_User_Schedules.py:145-173 | The loop issues exactly the lookups of `Queries`, at most two per fragment, and returns the ids the event store answered, each once, in first-discovery order; an id is returned exactly when some lookup answered it; no fragments give no lookups and no ids. |
| `Unoptimized.BoundaryQueries` | Optimize_User_Schedules.py:151-170 | A fragment gets the lookup of an event ending in [s - 300, s + 300] exactly when its start s is not the window start, and of an event starting in [e - 300, e + 300] exactly when its end e is not the window end; start side first, at most two. |
| `Unoptimized.QueriesCount` | Optimize_User_Schedules.py:150-170 | The lookups number at most twice the fragments. |
| `Unoptimized.QueriesMember` | Optimize_User_Schedules.py:150-170 | A query is issued exactly when it is a boundary lookup of some fragment. |
| `Unoptimized.FoundMember` | Optimize_User_Schedules.py:156-161 | An id is among the answers exactly when some lookup returned it; a lookup answered with none adds nothing. |
| `Unoptimized.DedupDistinct` | Optimize_User_Schedules.py:160-172 | The membership check before appending leaves no id twice. |
| `Unoptimized.DedupMember` | Optimize_User_Schedules.py:160-172 | Deduplication keeps every answered id and adds none. |
| `Unoptimized.DedupFirstDiscoveryOrder` | Optimize_User_Schedules.py:160-172 | The ids appear in the order of their first discovery. |
| `Unoptimized.FoundStep` | Optimize_User_Schedules.py:160-161 | One more lookup appends its id unless the answer is empty or the id is already collected. |
| `Unoptimized.ReportedIds` | Optimize_User_Schedules.py:148-173 | The collected ids have no duplicates and are exactly the ids some lookup answered. |
| `Unoptimized.SharedMeetingReportedOnce` | Optimize_User_Schedules.py:150-173 | A meeting (1000, 2000) between two short gaps is found from both sides and reported once; the fragment touching the window start gets no start-side lookup. |
| `TotalTime.CalculateTotalTime` | Optimize_User_Schedules.py:177-181 | The loop returns the summed durations truncated once toward zero to minutes; for well-formed intervals the result is non-negative and the total lies in [60 m, 60 m + 60). |
| `TotalTime.TotalTimeExamples` | Optimize_User_Schedules.py:177-181 | An empty list gives 0 minutes and [(0, 5400), (10000, 10100)] gives 91. |
| `TotalTime.SingleTruncationDominates` | Optimize_User_Schedules.py:178-181 | For well-formed intervals, truncating the sum once gives at least the sum of the per-interval truncations. |
| `TotalTime.SingleTruncationCanGainAMinute` | Optimize_User_Schedules.py:178-181 | Two 30-second intervals total 1 minute, while truncating each first would give 0. |
| `Intervals.LengthNonNegative` | Optimize_User_Schedules.py:178-180 | Well-formed intervals have a non-negative total duration. |

## Left out

- `initialize_nylas`, `get_calendar_id`, `get_all_free_busy`: API client set-up and network calls; the busy slots are an input of the model.
- `working_hours`, `get_date_from_time_pair`, `get_date`: date arithmetic and timestamp formatting through the `datetime` library and the platform's local time; the window is an input of integers.
- The `__main__` block: copying and reformatting for display, assembling the JSON report and printing it.
- The Nylas event query (`nylas.events.where(...).first()`) is an uninterpreted total function from a query to an optional event id; which event it picks among several matches, and the calendar id it filters by, are folded into that function. Failures of the call are not modelled. The process-wide `nylas` client the function reads is this parameter.
- `Unoptimized.GetUnoptimized` also returns the log of the lookups it made (`calls`), so that their order and number can be stated; the source returns only the ids.
- `TotalTime.CalculateTotalTime`: `int(total / 60)` divides in floating point; the model divides exactly and truncates toward zero, which differs only for totals beyond the precision of a double.
- Python's unbounded integers need no width; none is modelled.

## Findings

| source | as written | input that shows it | evidently intended | confidence | as-written member | corrected member |
|---|---|---|---|---|---|---|
| Optimize_User_Schedules.py:124-125 | a slot starting exactly at the cursor is skipped with `continue`, so the cursor is not moved to that slot's end | window (0, 20000), slots (0, 1000), (2000, 3000): the fragment reported is (0, 2000), which contains the meeting (0, 1000), and free plus busy time is 21000 s in a 20000 s window; window (0, 20000), slots (0, 4000), (6000, 7000): the 2000 s gap (4000, 6000) is measured as 6000 s from the window start and reported in neither list | the cursor moves to the end of every slot, as in `get_uninterrupted`, and the fragments are (1000, 2000) and (4000, 6000) | not executed; high | `FreeTime.SkippedMeetingCountedAsFree`, `FreeTime.SkippedGapDropped` | `FreeTime.GetFragmentedFixed` |

`FreeTime.GetFragmented` stays the model of `get_fragmented` as written; the
corrected walk `FreeTime.GetFragmentedFixed` returns exactly the short non-empty
gaps, and `FreeTime.FreeTimeWithinWindow` proves that with it the reported free
time and the busy time never exceed the window.
