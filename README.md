# Schedule generation engine

A model of the `Scheduler` class of the course timetable planner (`scheduler/app/services/scheduler.ts`). The class holds four fields:

- a list of subjects, each with its alternative commissions (sections);
- the three search options;
- a list of blocked times;
- the last list of generated schedules.

Generation works in three steps:

1. A depth-first backtracking search picks one commission per subject.
2. It prunes a branch when a new meeting collides with one already placed on the same weekday, unless overlap is allowed.
3. Each complete timetable is checked against the optional building-change and free-weekday filters, and the accepted timetables get their metadata: the largest overlap between neighbouring meetings of a day, the building-conflict flag and the free-day flag.

The project is split into modules:

- `Times` (times.dfy): a meeting time as a valid `HH:MM` value, with two views of it. One is the minute count that `timeToMinutes` computes. The other is the text the metadata code compares as a string.
- `SchedulerTypes`, `Seqs` (types.dfy): the records the engine reads and writes, and the sequence helpers (an order-keeping filter, subsequences).
- `Constraints` (constraints.dfy): the commission pool of a subject, slot creation, the overlap test that prunes the search, and the unwired blocked-time test.
- `Sorting` (sorting.dfy): the stable sort that `Array.prototype.sort` performs on each day's slots. It is given as a function, and as an in-place insertion sort on an array proved equal to that function.
- `Metadata` (metadata.dfy): the specification of the building-change test, the free-day test, the overlap measure and the schedule record.
- `Search` (search.dfy): the backtracking search as the functions `Explore`/`Branches`. The lemmas prove it sound and complete with respect to "pick one pool commission per subject, every placement admitted, the whole timetable valid". Other lemmas bound its size, relate the filters, and prove the no-overlap invariant.
- `Engine` (engine.dfy): the imperative code.
  - The `Scheduler` class has those four fields. Its setters and getters, `IsValidSchedule`, `GenerateSchedules` and the recursive `Backtrack` push results onto `possibleSchedules`.
  - The metadata methods group slots by day into a map, sort each day's slots in an array, and scan them with loops.
  - Each method is proved to return what a specification function computes. The pairs are:
    - `CheckBuildingChanges` / `Metadata.BuildingChangesOk`;
    - `HasFreeDayOption` / `Metadata.HasFreeDay`;
    - `GetMaxTimeOverlap` / `Metadata.MaxTimeOverlap`;
    - `CreateSchedule` / `Metadata.ScheduleOf`;
    - `Scheduler.IsValidSchedule` / `Metadata.IsValid`;
    - `Scheduler.Backtrack` / `Search.Explore`;
    - `Scheduler.GenerateSchedules` / `Search.Generate`;
    - `GroupByDay` / `Metadata.DistinctDays` and `Metadata.DayGroup`.

Three behaviours of the code are kept as written:

- `calculateOverlap` returns the end of the earlier slot minus the start of the later one. It does not return the length of the intersection of the two intervals. `Metadata.CalculateOverlapBound` proves that the value is never smaller than the intersection, and equals it exactly when the later slot ends no earlier. `Metadata.NestedSlotOverstates` gives a case where they differ: 08:00–12:00 followed by 09:00–10:00 reports 180 minutes, not 60.
- Commissions are filtered by name when the subject selects some and the selection does not include `'any'`. When no commission matches, the whole list is used.
- A malformed time does not raise an error; times are simply assumed valid here (see "Left out").

## Model

| member | source | states |
|---|---|---|
| Times.TextToMinutes | scheduler/app/services/scheduler.ts:157-160 | the minute count of a valid `HH:MM` text is below 24·60 |
| Times.TextToMinutesOfText | scheduler/app/services/scheduler.ts:157-160 | parsing the text of a time gives its minute count, and different times have different minute counts |
| Times.TextOrderIsMinuteOrder | scheduler/app/services/scheduler.ts:244-251 | comparing two time texts as strings orders them exactly as their minute counts do |
| Constraints.PoolFacts | scheduler/app/services/scheduler.ts:85-104 | with no selection or `'any'` selected, the pool is every commission. Otherwise it is the commissions whose names are selected, in order and with their multiplicities. If none match, it falls back to every commission. The pool is empty iff the subject has no commissions |
| Constraints.CreateSlots | scheduler/app/services/scheduler.ts:106-119 | one slot per meeting, in order; each copies the meeting's day, times, building and room, and carries the subject's name, id and dates and the commission's name |
| Constraints.AllClear | scheduler/app/services/scheduler.ts:125-135 | true iff every new slot is clear of every placed slot: another day, or one ends no later than the other starts |
| Constraints.CanAddSlots | scheduler/app/services/scheduler.ts:121-136 | always true when overlap is allowed; otherwise true iff every pair of a new slot and a placed slot is on different days or does not intersect |
| Constraints.NewSlotsNotComparedWithEachOther | scheduler/app/services/scheduler.ts:121-136 | the new slots are never tested against each other: any slots can be added to an empty schedule |
| Constraints.CheckBlockedTimes | scheduler/app/services/scheduler.ts:169-182 | true iff no slot intersects a blocked time on the same day |
| Sorting.SortPermutes | scheduler/app/services/scheduler.ts:192 | the day sort is a permutation of the day's slots |
| Sorting.SortSorted | scheduler/app/services/scheduler.ts:192 | the day sort orders the slots by start minute |
| Sorting.SortStable | scheduler/app/services/scheduler.ts:192 | the sort is stable: for every start minute, the slots starting then come out in their input order |
| Sorting.SortKeepsSorted | scheduler/app/services/scheduler.ts:192 | slots already ordered by start come back unchanged |
| Sorting.SortByTextIsSortByMinutes | scheduler/app/services/scheduler.ts:244 | sorting by the start text gives the same order as sorting by the start minute |
| Sorting.SortInPlace | scheduler/app/services/scheduler.ts:192 | the in-place insertion sort of an array leaves the stable sort of its old contents |
| Metadata.DistinctDaysFacts | scheduler/app/services/scheduler.ts:185-189 | the days of the grouping are exactly the days used, each listed once |
| Metadata.DayGroupMembers | scheduler/app/services/scheduler.ts:185-189 | a day's group holds exactly the schedule's slots on that day |
| Metadata.DayGroupIsFilter | scheduler/app/services/scheduler.ts:185-189 | a day's group is the schedule filtered to that day: its slots in schedule order, each as often as in the schedule |
| Metadata.SortedGroupPermutes | scheduler/app/services/scheduler.ts:191-192 | the sorted day group is a permutation of the day's group, and slots starting at the same minute keep their schedule order |
| Metadata.SortedGroupFacts | scheduler/app/services/scheduler.ts:191-192 | a sorted day group is ordered by start and holds exactly that day's slots |
| Metadata.BuildingConflictIff | scheduler/app/services/scheduler.ts:184-206 | the building check fails iff some day has two neighbouring sorted slots in different buildings less than 60 minutes apart |
| Metadata.BuildingConflictWitness | scheduler/app/services/scheduler.ts:194-203 | a failing check has two same-day slots, the later one not starting earlier, with a quick building change between them; if no such pair exists, the check passes |
| Metadata.SingleBuildingPasses | scheduler/app/services/scheduler.ts:198-201 | a schedule held in one building always passes the building check |
| Metadata.HasFreeDayIff | scheduler/app/services/scheduler.ts:208-218 | there is no free day iff every weekday Monday to Friday is used |
| Metadata.WorkWeekDays | scheduler/app/services/scheduler.ts:217 | "every work-week day used" is the conjunction of the five named days |
| Metadata.FreeDayIgnoresOtherDays | scheduler/app/services/scheduler.ts:208-218 | slots on days other than Monday to Friday do not change the free-day result |
| Metadata.CalculateOverlapBound | scheduler/app/services/scheduler.ts:265-269 | for intersecting slots, the computed overlap is at least the real intersection and positive; it equals the intersection iff the earlier slot does not outlast the later one |
| Metadata.NestedSlotOverstates | scheduler/app/services/scheduler.ts:265-269 | 08:00–12:00 followed by 09:00–10:00 gives 180 minutes against a real intersection of 60 |
| Metadata.PairOverlap | scheduler/app/services/scheduler.ts:251-254 | a neighbouring pair contributes a positive amount iff the first ends after the second starts and they belong to different subjects |
| Metadata.GroupOverlapIsMax | scheduler/app/services/scheduler.ts:247-260 | a day's value is at least every neighbouring pair's overlap, and is 0 or attained by one of them |
| Metadata.DaysOverlapIsMax | scheduler/app/services/scheduler.ts:242-261 | the value over several days is at least each day's value, and is 0 or attained by one day |
| Metadata.MaxTimeOverlapBounds | scheduler/app/services/scheduler.ts:230-263 | every neighbouring pair of every day's sorted slots overlaps by no more than the maximum |
| Metadata.MaxTimeOverlapAttained | scheduler/app/services/scheduler.ts:230-263 | a positive maximum is the overlap of some neighbouring pair on some day |
| Metadata.MaxTimeOverlapZeroIff | scheduler/app/services/scheduler.ts:229-263 | the maximum is 0 iff no neighbouring pair of different subjects overlaps on any day |
| Metadata.NoOverlapMeansZero | scheduler/app/services/scheduler.ts:229-263 | if slots of different subjects never intersect on the same day and every slot has positive length, the maximum is 0 |
| Metadata.ValidScheduleMetadata | scheduler/app/services/scheduler.ts:220-227 | a schedule that passes the filters keeps its slots; with building changes avoided it has no building conflict, and with a free day required it has one |
| Metadata.EmptySchedule | scheduler/app/services/scheduler.ts:162-167 | the empty timetable passes every filter and is scored as no overlap, no conflict, a free day |
| Search.AssembleLength | scheduler/app/services/scheduler.ts:106-119 | a timetable of chosen commissions has one slot per meeting of the chosen commissions |
| Search.ExploreSound | scheduler/app/services/scheduler.ts:66-83 | each result of the search from a state comes from a choice of pool commissions for the remaining subjects: each placement admitted, the final timetable valid, the result its scored schedule |
| Search.ExploreComplete | scheduler/app/services/scheduler.ts:66-83 | each such choice yields a result of the search |
| Search.GenerateIff | scheduler/app/services/scheduler.ts:60-83 | a schedule is generated iff it comes from such a choice for all subjects, starting from the empty timetable |
| Search.GeneratedShape | scheduler/app/services/scheduler.ts:60-83 | a generated schedule honours the enabled filters and carries its own metadata; its slots are one pool commission's meetings per subject, concatenated in subject order |
| Search.ExploreCount | scheduler/app/services/scheduler.ts:66-83 | the search yields at most the product of the remaining pool sizes, and exactly that many when no filter or pruning applies |
| Search.GenerateCount | scheduler/app/services/scheduler.ts:60-83 | the same bound and equality for a whole generation |
| Search.GenerateNoSubjects | scheduler/app/services/scheduler.ts:66-71 | with no subjects the result is the single empty schedule |
| Search.GenerateEmptyPool | scheduler/app/services/scheduler.ts:74-82 | a subject without commissions leaves no schedule |
| Search.ExploreFilters | scheduler/app/services/scheduler.ts:66-71 | the filters only remove leaves: the filtered search is the unfiltered search's results kept in order when they pass the filters |
| Search.AvoidBuildingChangeNarrows | scheduler/app/services/scheduler.ts:164 | turning on building-change avoidance keeps exactly the earlier results without a building conflict, in order |
| Search.AllowFreeDayNarrows | scheduler/app/services/scheduler.ts:165 | turning on the free-day filter keeps exactly the earlier results with a free day, in order |
| Search.GenerateNoOverlap | scheduler/app/services/scheduler.ts:121-136 | with overlap disallowed and every meeting of positive length, no two slots of different subjects on a day intersect in a generated schedule, and its maximum overlap is 0 |
| Engine.GroupByDay | scheduler/app/services/scheduler.ts:185-189 | the reduce into a map gives the used days in first-use order and, for each, its slots in schedule order |
| Engine.ScanBuildingChanges | scheduler/app/services/scheduler.ts:194-203 | the loop over a sorted day finds no quick building change exactly when there is none |
| Engine.DaySlotsOk | scheduler/app/services/scheduler.ts:191-205 | the per-day test sorts by start minute and scans, giving the specification's verdict for the sorted day |
| Engine.CheckBuildingChanges | scheduler/app/services/scheduler.ts:184-206 | returns the building-change verdict of the specification |
| Engine.HasFreeDayOption | scheduler/app/services/scheduler.ts:208-218 | the loop collecting used days returns the free-day verdict of the specification |
| Engine.ScanOverlaps | scheduler/app/services/scheduler.ts:247-260 | the loop over a sorted day, comparing time texts, raises the running maximum to the day's overlap value |
| Engine.DayMaxOverlap | scheduler/app/services/scheduler.ts:242-260 | sorting a day by start text and scanning raises the running maximum to that day's value |
| Engine.GetMaxTimeOverlap | scheduler/app/services/scheduler.ts:230-263 | returns the maximum overlap of the specification |
| Engine.CreateSchedule | scheduler/app/services/scheduler.ts:220-227 | builds the scored schedule of the specification |
| Engine.Scheduler.constructor | scheduler/app/services/scheduler.ts:13-22 | no subjects, blocked times or schedules, and every option off |
| Engine.Scheduler.SetSubjects | scheduler/app/services/scheduler.ts:32-34 | replaces the subjects and changes no other field |
| Engine.Scheduler.GetSubjects | scheduler/app/services/scheduler.ts:36-38 | returns the current subjects and changes nothing |
| Engine.Scheduler.SetOptions | scheduler/app/services/scheduler.ts:40-42 | replaces the options and changes no other field |
| Engine.Scheduler.GetOptions | scheduler/app/services/scheduler.ts:44-46 | returns the current options and changes nothing |
| Engine.Scheduler.SetBlockedTimes | scheduler/app/services/scheduler.ts:48-50 | replaces the blocked times and changes no other field |
| Engine.Scheduler.GetBlockedTimes | scheduler/app/services/scheduler.ts:52-54 | returns the current blocked times and changes nothing |
| Engine.Scheduler.GetSchedules | scheduler/app/services/scheduler.ts:56-58 | returns the last generated schedules and changes nothing |
| Engine.Scheduler.IsValidSchedule | scheduler/app/services/scheduler.ts:162-167 | accepts a timetable iff it passes the enabled building-change and free-day filters (blocked times are not consulted) |
| Engine.Scheduler.PushIfValid | scheduler/app/services/scheduler.ts:67-71 | at a leaf, appends the scored timetable iff it is valid |
| Engine.Scheduler.Backtrack | scheduler/app/services/scheduler.ts:66-83 | appends exactly the search's results from its state, in depth-first order, to what was stored before |
| Engine.Scheduler.GenerateSchedules | scheduler/app/services/scheduler.ts:60-64 | the stored and returned schedules are the generation for the current subjects and options, whatever was stored before; no other field changes |
| Engine.GenerateTwice | scheduler/app/services/scheduler.ts:60-64 | generating twice with no change in between gives the same list, and that list is stored |

## Left out

- The process-wide single instance (`getInstance`): the model has an ordinary constructor, and the class holds the same fields.
- Console logging in the commission pool and the overlap scan: it has no effect on results.
- The commented-out blocked-time pruning in `canAddSlots` and the commented-out call in `isValidSchedule`. The blocked times are stored and `Constraints.CheckBlockedTimes` models the predicate, but nothing calls it, as in the code.
- Malformed times. A time is a valid hour and minute (`Times.Time`), and its text is the zero-padded `HH:MM` form. How the code behaves on other strings (`NaN` minutes, an invalid `Date`) is not modelled.
- Metadata.CalculateOverlap: the `Date` parsing of `HH:MM` at 1970-01-01 UTC and the division by 60000 milliseconds are modelled as the difference of the two minute counts. For valid times the two agree.
- JavaScript numbers: minute counts are unbounded integers; every value here is below 24·60, so this makes no difference.
- Engine.GroupByDay: the key order of `Object.values`. A day name that is a canonical array index ("0", "12", but not "01") would be enumerated first, in numeric order. The model uses first-use order. Both consumers take an "every" or a maximum over the days, which does not depend on that order.
- Engine.GroupByDay: days are assumed to be ordinary weekday names. A day spelled like an inherited `Object.prototype` property ("constructor", "toString", "__proto__") makes the `reduce` find an inherited value and call `push` on it, which throws a `TypeError`. The model groups such a day like any other.
- Engine.Scheduler.SetSubjects, Engine.Scheduler.GetSubjects, Engine.Scheduler.SetOptions, Engine.Scheduler.GetOptions, Engine.Scheduler.SetBlockedTimes, Engine.Scheduler.GetBlockedTimes, Engine.Scheduler.GetSchedules: the setters and getters store and return references to the caller's arrays and objects, so later changes by either side are seen by both. The fields here are immutable values, so this aliasing is not modelled.
- `localeCompare` is modelled as code-point comparison of the texts. On zero-padded `HH:MM` texts made of digits and one colon, the two agree.
- The surrounding application (React components, hooks, the career catalogue and its loading) is not part of this model.
