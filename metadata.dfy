/** What the scheduler computes about one finished timetable: the per-day
    grouping, the building-change filter (checkBuildingChanges), the
    free-weekday filter (hasFreeDayOption), the largest overlap between
    consecutive slots of different subjects (getMaxTimeOverlap,
    calculateOverlap), the leaf test of the search (isValidSchedule) and the
    record built from them (createSchedule). The functions here are the
    specification; the imperative versions are the methods of
    `Engine.Scheduler`. */
module Metadata {
  import opened Times
  import opened SchedulerTypes
  import opened Seqs
  import opened Sorting
  import opened Constraints

  function Max(a: int, b: int): int {
    if a >= b then a else b
  }

  // ---------------------------------------------------------------------
  // Grouping by day

  /** The days of `s` in order of first occurrence: the keys of the
      `Record<string, ScheduleSlot[]>` built by the `reduce`, in the order
      `Object.values` visits them. */
  function DistinctDays(s: seq<Slot>): seq<Day> {
    if s == [] then []
    else
      var days := DistinctDays(s[..|s| - 1]);
      if s[|s| - 1].day in days then days else days + [s[|s| - 1].day]
  }

  /** Every day used appears, only used days appear, and none twice. */
  lemma {:induction false} DistinctDaysFacts(s: seq<Slot>)
    ensures forall i :: 0 <= i < |s| ==> s[i].day in DistinctDays(s)
    ensures forall d :: d in DistinctDays(s) ==> exists i :: 0 <= i < |s| && s[i].day == d
    ensures forall j, k :: 0 <= j < k < |DistinctDays(s)| ==> DistinctDays(s)[j] != DistinctDays(s)[k]
  {
    if s != [] {
      var init := s[..|s| - 1];
      DistinctDaysFacts(init);
      assert forall i :: 0 <= i < |init| ==> s[i] == init[i];
    }
  }

  lemma DistinctDaysSnoc(s: seq<Slot>, x: Slot)
    ensures DistinctDays(s + [x]) == if x.day in DistinctDays(s) then DistinctDays(s) else DistinctDays(s) + [x.day]
  {
    assert (s + [x])[..|s|] == s;
  }

  /** The slots of day `d`, in schedule order: the array the `reduce` pushes
      them onto. */
  function DayGroup(s: seq<Slot>, d: Day): seq<Slot> {
    if s == [] then []
    else DayGroup(s[..|s| - 1], d) + (if s[|s| - 1].day == d then [s[|s| - 1]] else [])
  }

  /** The group holds exactly the slots of day `d`. */
  lemma {:induction false} DayGroupMembers(s: seq<Slot>, d: Day)
    ensures forall x :: x in DayGroup(s, d) <==> x in s && x.day == d
  {
    if s != [] {
      var init, x := s[..|s| - 1], s[|s| - 1];
      DayGroupMembers(init, d);
      assert s == init + [x];
    }
  }

  /** Selects the slots of day `d`. */
  function OnDay(d: Day): Slot -> bool {
    (x: Slot) => x.day == d
  }

  /** The group is the schedule filtered to day `d`: the same slots, in
      schedule order and with their repetitions. */
  lemma {:induction false} DayGroupIsFilter(s: seq<Slot>, d: Day)
    ensures DayGroup(s, d) == Filter(OnDay(d), s)
  {
    if s != [] {
      DayGroupIsFilter(s[..|s| - 1], d);
    }
  }

  lemma DayGroupSnoc(s: seq<Slot>, x: Slot, d: Day)
    ensures DayGroup(s + [x], d) == DayGroup(s, d) + (if x.day == d then [x] else [])
  {
    assert (s + [x])[..|s|] == s;
  }

  /** The slots of day `d` after the in-place sort, by start. Both
      comparators the scheduler uses (start minute, start string) give this
      order (`Sorting.SortByTextIsSortByMinutes`); `SortedGroupIsSortedDayGroup`
      shows it is the stable sort of the day's group. */
  function SortedGroup(s: seq<Slot>, d: Day): seq<Slot> {
    if s == [] then []
    else if s[|s| - 1].day == d then Insert(s[|s| - 1], SortedGroup(s[..|s| - 1], d), false)
    else SortedGroup(s[..|s| - 1], d)
  }

  /** The sorted group holds exactly the slots of day `d`, in start order. */
  lemma {:induction false} SortedGroupFacts(s: seq<Slot>, d: Day)
    ensures SortedByStart(SortedGroup(s, d))
    ensures forall x :: x in SortedGroup(s, d) <==> x in s && x.day == d
  {
    if s != [] {
      var init, x := s[..|s| - 1], s[|s| - 1];
      var g := SortedGroup(init, d);
      SortedGroupFacts(init, d);
      assert s == init + [x];
      if x.day == d {
        InsertSorted(x, g, false);
        InsertElements(x, g, false);
      }
    }
  }

  lemma {:induction false} SortedGroupIsSortedDayGroup(s: seq<Slot>, d: Day)
    ensures SortedGroup(s, d) == SortSlots(DayGroup(s, d), false)
  {
    if s != [] {
      var init, x := s[..|s| - 1], s[|s| - 1];
      SortedGroupIsSortedDayGroup(init, d);
      DayGroupSnoc(init, x, d);
      assert s == init + [x];
      var g := DayGroup(init, d);
      if x.day == d {
        assert (g + [x])[..|g|] == g;
      } else {
        assert g + [] == g;
      }
    }
  }

  /** The sorted group is a permutation of the day's group and keeps the
      schedule order of slots that start at the same minute. */
  lemma SortedGroupPermutes(s: seq<Slot>, d: Day)
    ensures multiset(SortedGroup(s, d)) == multiset(DayGroup(s, d))
    ensures forall v: nat :: StartingAt(SortedGroup(s, d), v) == StartingAt(DayGroup(s, d), v)
  {
    SortedGroupIsSortedDayGroup(s, d);
    SortPermutes(DayGroup(s, d), false);
    forall v: nat ensures StartingAt(SortedGroup(s, d), v) == StartingAt(DayGroup(s, d), v) {
      SortStable(DayGroup(s, d), false, v);
    }
  }

  // ---------------------------------------------------------------------
  // checkBuildingChanges

  /** Consecutive classes in different buildings with less than an hour
      from the end of the first to the start of the second. */
  predicate QuickChange(prev: Slot, curr: Slot) {
    prev.building != curr.building && Start(curr) - End(prev) < 60
  }

  predicate NoQuickChange(g: seq<Slot>) {
    forall i :: 0 < i < |g| ==> !QuickChange(g[i - 1], g[i])
  }

  /** checkBuildingChanges: every day's slots, sorted by start minute, have
      no quick change of building between neighbours. */
  predicate BuildingChangesOk(slots: seq<Slot>) {
    var days := DistinctDays(slots);
    forall k :: 0 <= k < |days| ==> NoQuickChange(SortedGroup(slots, days[k]))
  }

  /** The test fails exactly when some day has, among its slots sorted by
      start, a neighbouring pair with different buildings less than an hour
      apart. */
  lemma BuildingConflictIff(slots: seq<Slot>)
    ensures !BuildingChangesOk(slots) <==>
      exists d, i :: 0 < i < |SortedGroup(slots, d)|
        && QuickChange(SortedGroup(slots, d)[i - 1], SortedGroup(slots, d)[i])
  {
    var days := DistinctDays(slots);
    DistinctDaysFacts(slots);
    if exists d, i :: 0 < i < |SortedGroup(slots, d)|
        && QuickChange(SortedGroup(slots, d)[i - 1], SortedGroup(slots, d)[i])
    {
      var d, i :| 0 < i < |SortedGroup(slots, d)|
        && QuickChange(SortedGroup(slots, d)[i - 1], SortedGroup(slots, d)[i]);
      var g := SortedGroup(slots, d);
      SortedGroupFacts(slots, d);
      assert g[0] in g;
      assert d in days;
      var k :| 0 <= k < |days| && days[k] == d;
      assert !NoQuickChange(SortedGroup(slots, days[k]));
    }
  }

  /** A conflict is witnessed by two slots of the schedule on the same day,
      the second starting no earlier than the first; and a schedule in which
      no such pair is a quick change passes. */
  lemma BuildingConflictWitness(slots: seq<Slot>)
    ensures !BuildingChangesOk(slots) ==>
      exists a, b :: a in slots && b in slots && a.day == b.day && Start(a) <= Start(b) && QuickChange(a, b)
    ensures (forall a, b :: a in slots && b in slots && a.day == b.day && Start(a) <= Start(b) ==> !QuickChange(a, b))
      ==> BuildingChangesOk(slots)
  {
    BuildingConflictIff(slots);
    if !BuildingChangesOk(slots) {
      var d, i :| 0 < i < |SortedGroup(slots, d)|
        && QuickChange(SortedGroup(slots, d)[i - 1], SortedGroup(slots, d)[i]);
      var g := SortedGroup(slots, d);
      SortedGroupFacts(slots, d);
      var a, b := g[i - 1], g[i];
      assert a in g && b in g;
      assert Start(a) <= Start(b);
      assert a in slots && b in slots && a.day == b.day && QuickChange(a, b);
    }
  }

  /** Classes in a single building never conflict; in particular the empty
      schedule passes. */
  lemma SingleBuildingPasses(slots: seq<Slot>, building: string)
    requires forall i :: 0 <= i < |slots| ==> slots[i].building == building
    ensures BuildingChangesOk(slots)
  {
    BuildingConflictWitness(slots);
  }

  // ---------------------------------------------------------------------
  // hasFreeDayOption

  const WorkWeek: seq<Day> := ["MONDAY", "TUESDAY", "WEDNESDAY", "THURSDAY", "FRIDAY"]

  /** Some slot of the schedule falls on day `d`. */
  predicate Uses(slots: seq<Slot>, d: Day) {
    exists i :: 0 <= i < |slots| && slots[i].day == d
  }

  /** hasFreeDayOption: not every weekday from MONDAY to FRIDAY is among the
      days used. */
  function HasFreeDay(slots: seq<Slot>): bool {
    var used := DistinctDays(slots);
    !("MONDAY" in used && "TUESDAY" in used && "WEDNESDAY" in used && "THURSDAY" in used && "FRIDAY" in used)
  }

  /** There is no free day exactly when every weekday is used. */
  lemma HasFreeDayIff(slots: seq<Slot>)
    ensures !HasFreeDay(slots) <==> forall k :: 0 <= k < |WorkWeek| ==> Uses(slots, WorkWeek[k])
  {
    DistinctDaysFacts(slots);
    assert forall d :: d in DistinctDays(slots) <==> Uses(slots, d);
    WorkWeekDays(slots);
  }

  lemma WorkWeekDays(slots: seq<Slot>)
    ensures (forall k :: 0 <= k < |WorkWeek| ==> Uses(slots, WorkWeek[k])) <==>
      Uses(slots, "MONDAY") && Uses(slots, "TUESDAY") && Uses(slots, "WEDNESDAY")
      && Uses(slots, "THURSDAY") && Uses(slots, "FRIDAY")
  {
    assert WorkWeek[0] == "MONDAY" && WorkWeek[1] == "TUESDAY" && WorkWeek[2] == "WEDNESDAY";
    assert WorkWeek[3] == "THURSDAY" && WorkWeek[4] == "FRIDAY";
  }

  /** Weekend (or any non-weekday) classes do not affect the test, and the
      empty schedule has a free day. */
  lemma {:induction false} FreeDayIgnoresOtherDays(slots: seq<Slot>)
    ensures HasFreeDay(slots) == HasFreeDay(Weekdays(slots))
  {
    var w := Weekdays(slots);
    HasFreeDayIff(slots);
    HasFreeDayIff(w);
    forall k | 0 <= k < |WorkWeek|
      ensures (forall i :: 0 <= i < |slots| ==> slots[i].day != WorkWeek[k])
          <==> (forall i :: 0 <= i < |w| ==> w[i].day != WorkWeek[k])
    {
      if exists i :: 0 <= i < |slots| && slots[i].day == WorkWeek[k] {
        var i :| 0 <= i < |slots| && slots[i].day == WorkWeek[k];
        assert slots[i] in w;
      }
      if exists i :: 0 <= i < |w| && w[i].day == WorkWeek[k] {
        var i :| 0 <= i < |w| && w[i].day == WorkWeek[k];
        assert w[i] in w;
      }
    }
  }

  /** The slots that fall on MONDAY to FRIDAY. */
  function Weekdays(slots: seq<Slot>): (r: seq<Slot>)
    ensures forall x :: x in r <==> x in slots && x.day in WorkWeek
  {
    if slots == [] then []
    else
      var init, x := slots[..|slots| - 1], slots[|slots| - 1];
      assert slots == init + [x];
      Weekdays(init) + (if x.day in WorkWeek then [x] else [])
  }

  // ---------------------------------------------------------------------
  // getMaxTimeOverlap and calculateOverlap

  /** calculateOverlap: the end of the first slot minus the start of the
      second, in minutes. */
  function CalculateOverlap(a: Slot, b: Slot): int {
    End(a) - Start(b)
  }

  /** The length of the common part of two intervals (0 when disjoint). */
  function Intersection(a: Slot, b: Slot): nat {
    var lo := if Start(a) >= Start(b) then Start(a) else Start(b);
    var hi := if End(a) <= End(b) then End(a) else End(b);
    if hi > lo then hi - lo else 0
  }

  /** For a pair sorted by start that overlaps, calculateOverlap is at least
      the real overlap, and equals it exactly when the second slot does not
      end first. */
  lemma CalculateOverlapBound(a: Slot, b: Slot)
    requires Start(a) <= Start(b) < End(a) && Start(b) < End(b)
    ensures CalculateOverlap(a, b) >= Intersection(a, b) > 0
    ensures CalculateOverlap(a, b) == Intersection(a, b) <==> End(a) <= End(b)
  {
  }

  /** 08:00-12:00 followed by 09:00-10:00: calculateOverlap reports 180
      minutes where the classes share 60. */
  lemma NestedSlotOverstates(a: Slot, b: Slot)
    requires a.timeFrom == Time(8, 0) && a.timeTo == Time(12, 0)
    requires b.timeFrom == Time(9, 0) && b.timeTo == Time(10, 0)
    ensures CalculateOverlap(a, b) == 180 && Intersection(a, b) == 60
  {
  }

  /** The condition under which a slot and the next one of its day are
      compared: the current one ends after the next one starts, and they
      belong to different subjects. The scheduler compares the two times as
      strings; on well-formed times that is this minute comparison
      (`Times.TextOrderIsMinuteOrder`). */
  predicate Overlapping(cur: Slot, next: Slot) {
    End(cur) > Start(next) && cur.subjectId != next.subjectId
  }

  /** What one comparison contributes to the running maximum. */
  function PairOverlap(cur: Slot, next: Slot): (r: nat)
    ensures r > 0 <==> Overlapping(cur, next)
  {
    if Overlapping(cur, next) then CalculateOverlap(cur, next) else 0
  }

  /** The running maximum over the neighbouring pairs of one sorted day. */
  function GroupOverlap(g: seq<Slot>): nat {
    if |g| < 2 then 0 else Max(GroupOverlap(g[..|g| - 1]), PairOverlap(g[|g| - 2], g[|g| - 1]))
  }

  /** The running maximum is the largest contribution of a neighbouring
      pair, or 0 when none contributes. */
  lemma {:induction false} GroupOverlapIsMax(g: seq<Slot>)
    ensures forall i :: 0 <= i < |g| - 1 ==> PairOverlap(g[i], g[i + 1]) <= GroupOverlap(g)
    ensures GroupOverlap(g) == 0 || exists i :: 0 <= i < |g| - 1 && PairOverlap(g[i], g[i + 1]) == GroupOverlap(g)
  {
    if |g| >= 2 {
      var init := g[..|g| - 1];
      GroupOverlapIsMax(init);
      assert forall i :: 0 <= i < |init| ==> init[i] == g[i];
    }
  }

  lemma GroupOverlapSnoc(g: seq<Slot>, x: Slot)
    requires g != []
    ensures GroupOverlap(g + [x]) == Max(GroupOverlap(g), PairOverlap(g[|g| - 1], x))
  {
    assert (g + [x])[..|g|] == g;
  }

  /** The running maximum over the days in `days`. */
  function DaysOverlap(slots: seq<Slot>, days: seq<Day>): nat {
    if days == [] then 0
    else Max(DaysOverlap(slots, days[..|days| - 1]), GroupOverlap(SortedGroup(slots, days[|days| - 1])))
  }

  lemma {:induction false} DaysOverlapIsMax(slots: seq<Slot>, days: seq<Day>)
    ensures forall k :: 0 <= k < |days| ==> GroupOverlap(SortedGroup(slots, days[k])) <= DaysOverlap(slots, days)
    ensures DaysOverlap(slots, days) == 0 ||
      exists k :: 0 <= k < |days| && GroupOverlap(SortedGroup(slots, days[k])) == DaysOverlap(slots, days)
  {
    if days != [] {
      var init, n := days[..|days| - 1], |days| - 1;
      DaysOverlapIsMax(slots, init);
      var earlier, last := DaysOverlap(slots, init), GroupOverlap(SortedGroup(slots, days[n]));
      assert DaysOverlap(slots, days) == Max(earlier, last);
      forall k | 0 <= k < |days|
        ensures GroupOverlap(SortedGroup(slots, days[k])) <= DaysOverlap(slots, days)
      {
        if k < n {
          assert init[k] == days[k];
        }
      }
      if earlier > last {
        var k :| 0 <= k < |init| && GroupOverlap(SortedGroup(slots, init[k])) == earlier;
        assert init[k] == days[k];
      }
    }
  }

  /** getMaxTimeOverlap. */
  function MaxTimeOverlap(slots: seq<Slot>): nat {
    DaysOverlap(slots, DistinctDays(slots))
  }

  /** Every neighbouring pair of every day contributes at most the result. */
  lemma MaxTimeOverlapBounds(slots: seq<Slot>, d: Day, i: nat)
    requires i + 1 < |SortedGroup(slots, d)|
    ensures PairOverlap(SortedGroup(slots, d)[i], SortedGroup(slots, d)[i + 1]) <= MaxTimeOverlap(slots)
  {
    var days, g := DistinctDays(slots), SortedGroup(slots, d);
    DistinctDaysFacts(slots);
    SortedGroupFacts(slots, d);
    assert g[0] in g;
    var k :| 0 <= k < |days| && days[k] == d;
    DaysOverlapIsMax(slots, days);
    GroupOverlapIsMax(g);
  }

  /** A positive result is the contribution of some neighbouring pair. */
  lemma MaxTimeOverlapAttained(slots: seq<Slot>)
    requires MaxTimeOverlap(slots) > 0
    ensures exists d, i ::
      0 <= i && i + 1 < |SortedGroup(slots, d)| &&
      PairOverlap(SortedGroup(slots, d)[i], SortedGroup(slots, d)[i + 1]) == MaxTimeOverlap(slots)
  {
    var days := DistinctDays(slots);
    DaysOverlapIsMax(slots, days);
    var k :| 0 <= k < |days| && GroupOverlap(SortedGroup(slots, days[k])) == MaxTimeOverlap(slots);
    var g := SortedGroup(slots, days[k]);
    GroupOverlapIsMax(g);
    var i :| 0 <= i < |g| - 1 && PairOverlap(g[i], g[i + 1]) == GroupOverlap(g);
  }

  /** The result is 0 exactly when no neighbouring pair of any day belongs
      to different subjects and overlaps. */
  lemma MaxTimeOverlapZeroIff(slots: seq<Slot>)
    ensures MaxTimeOverlap(slots) == 0 <==>
      forall d, i :: 0 <= i && i + 1 < |SortedGroup(slots, d)| ==>
        !Overlapping(SortedGroup(slots, d)[i], SortedGroup(slots, d)[i + 1])
  {
    if MaxTimeOverlap(slots) == 0 {
      forall d, i | 0 <= i && i + 1 < |SortedGroup(slots, d)|
        ensures !Overlapping(SortedGroup(slots, d)[i], SortedGroup(slots, d)[i + 1])
      {
        MaxTimeOverlapBounds(slots, d, i);
      }
    } else {
      MaxTimeOverlapAttained(slots);
    }
  }

  /** Slots of different subjects that never meet on the same day give a
      maximum overlap of 0, provided every slot starts before it ends. */
  lemma NoOverlapMeansZero(slots: seq<Slot>)
    requires forall x :: x in slots ==> Start(x) < End(x)
    requires forall a, b :: a in slots && b in slots && a.subjectId != b.subjectId ==> SlotsClear(a, b)
    ensures MaxTimeOverlap(slots) == 0
  {
    forall d, i | 0 <= i && i + 1 < |SortedGroup(slots, d)|
      ensures !Overlapping(SortedGroup(slots, d)[i], SortedGroup(slots, d)[i + 1])
    {
      var g := SortedGroup(slots, d);
      SortedGroupFacts(slots, d);
      NeighboursClear(g, i, slots);
    }
    MaxTimeOverlapZeroIff(slots);
  }

  lemma NeighboursClear(g: seq<Slot>, i: nat, slots: seq<Slot>)
    requires i + 1 < |g| && SortedByStart(g)
    requires g[i] in slots && g[i + 1] in slots && g[i].day == g[i + 1].day
    requires Start(g[i + 1]) < End(g[i + 1])
    requires g[i].subjectId != g[i + 1].subjectId ==> SlotsClear(g[i], g[i + 1])
    ensures !Overlapping(g[i], g[i + 1])
  {
  }

  // ---------------------------------------------------------------------
  // isValidSchedule and createSchedule

  /** isValidSchedule: each enabled filter passes. */
  predicate IsValid(opts: Options, slots: seq<Slot>) {
    && (opts.avoidBuildingChange ==> BuildingChangesOk(slots))
    && (opts.allowFreeDay ==> HasFreeDay(slots))
  }

  /** createSchedule: the slots with their metadata. */
  function ScheduleOf(slots: seq<Slot>): PossibleSchedule {
    PossibleSchedule(slots, MaxTimeOverlap(slots), !BuildingChangesOk(slots), HasFreeDay(slots))
  }

  /** A schedule that passes the leaf test under an enabled filter carries
      the metadata that filter asks for. */
  lemma ValidScheduleMetadata(opts: Options, slots: seq<Slot>)
    requires IsValid(opts, slots)
    ensures opts.avoidBuildingChange ==> !ScheduleOf(slots).hasBuildingConflict
    ensures opts.allowFreeDay ==> ScheduleOf(slots).hasFreeDay
    ensures ScheduleOf(slots).slots == slots && ScheduleOf(slots).maxOverlap >= 0
  {
  }

  /** The empty timetable passes both filters and has no overlap. */
  lemma EmptySchedule(opts: Options)
    ensures IsValid(opts, [])
    ensures ScheduleOf([]) == PossibleSchedule([], 0, false, true)
  {
  }
}
