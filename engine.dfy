/** The Scheduler object: its four fields, the setters and getters, and the
    imperative code of generateSchedules, backtrack, isValidSchedule,
    checkBuildingChanges, hasFreeDayOption, createSchedule and
    getMaxTimeOverlap. Each method is proved to compute the specification
    function of the same name in Search or Metadata, so the properties
    proved there hold of what the object returns and stores. */
module Engine {
  import opened Times
  import opened SchedulerTypes
  import opened Seqs
  import opened Sorting
  import opened Constraints
  import opened Metadata
  import opened Search

  /** `groups` holds, under each day of `days`, the slots of that day in
      their order, and nothing else; `days` lists the days in
      first-appearance order. */
  ghost predicate Grouped(slots: seq<Slot>, days: seq<Day>, groups: map<Day, seq<Slot>>) {
    && days == DistinctDays(slots)
    && (forall d :: d in groups <==> d in days)
    && (forall d :: d in days ==> groups[d] == DayGroup(slots, d))
  }

  /** One step of the grouping: a new day gets an empty list first, then
      the slot is pushed onto its day's list. */
  lemma GroupedSnoc(slots: seq<Slot>, x: Slot, days: seq<Day>, groups: map<Day, seq<Slot>>)
    requires Grouped(slots, days, groups)
    ensures Grouped(slots + [x],
      if x.day in groups then days else days + [x.day],
      groups[x.day := (if x.day in groups then groups[x.day] else []) + [x]])
  {
    var days' := if x.day in groups then days else days + [x.day];
    var groups' := groups[x.day := (if x.day in groups then groups[x.day] else []) + [x]];
    DistinctDaysSnoc(slots, x);
    assert days' == DistinctDays(slots + [x]);
    assert forall d :: d in groups' <==> d in days';
    GroupsSnoc(slots, x, days, groups);
  }

  lemma GroupsSnoc(slots: seq<Slot>, x: Slot, days: seq<Day>, groups: map<Day, seq<Slot>>)
    requires Grouped(slots, days, groups)
    ensures forall d :: d in days || d == x.day ==>
      groups[x.day := (if x.day in groups then groups[x.day] else []) + [x]][d] == DayGroup(slots + [x], d)
  {
    var groups' := groups[x.day := (if x.day in groups then groups[x.day] else []) + [x]];
    forall d | d in days || d == x.day ensures groups'[d] == DayGroup(slots + [x], d) {
      DayGroupSnoc(slots, x, d);
      if d == x.day && x.day !in groups {
        NoGroupOfUnusedDay(slots, d);
      }
    }
  }

  /** A day no slot uses has an empty group. */
  lemma NoGroupOfUnusedDay(slots: seq<Slot>, d: Day)
    requires d !in DistinctDays(slots)
    ensures DayGroup(slots, d) == []
  {
  }

  /** Groups the slots by day (the `reduce` into a record keyed by day). */
  method GroupByDay(slots: seq<Slot>) returns (days: seq<Day>, groups: map<Day, seq<Slot>>)
    ensures Grouped(slots, days, groups)
  {
    days, groups := [], map[];
    for i := 0 to |slots|
      invariant Grouped(slots[..i], days, groups)
    {
      var x := slots[i];
      PrefixSnoc(slots, i);
      GroupedSnoc(slots[..i], x, days, groups);
      if x.day !in groups {
        groups := groups[x.day := []];
        days := days + [x.day];
      }
      groups := groups[x.day := groups[x.day] + [x]];
    }
    assert slots[..|slots|] == slots;
  }

  /** A fresh array holding the group, as the record's per-day arrays are. */
  method ToArray(g: seq<Slot>) returns (a: array<Slot>)
    ensures fresh(a) && a[..] == g
  {
    a := new Slot[|g|](k requires 0 <= k < |g| => g[k]);
  }

  /** The loop over neighbouring pairs of one sorted day in
      checkBuildingChanges: no two neighbours are in different buildings
      less than an hour apart. */
  method ScanBuildingChanges(a: array<Slot>) returns (ok: bool)
    ensures ok == NoQuickChange(a[..])
  {
    var i := 1;
    while i < a.Length
      invariant 1 <= i
      invariant forall j :: 0 < j < i && j < a.Length ==> !QuickChange(a[j - 1], a[j])
    {
      var prev, curr := a[i - 1], a[i];
      if prev.building != curr.building {
        TextToMinutesOfText(prev.timeTo);
        TextToMinutesOfText(curr.timeFrom);
        var prevEnd: int := TextToMinutes(Text(prev.timeTo));
        var currStart: int := TextToMinutes(Text(curr.timeFrom));
        if currStart - prevEnd < 60 {
          assert QuickChange(a[..][i - 1], a[..][i]);
          return false;
        }
      }
      i := i + 1;
    }
    return true;
  }

  /** The callback of checkBuildingChanges for one day: sorts the day's
      slots in place by start minute, then scans them. */
  method DaySlotsOk(daySlots: seq<Slot>) returns (ok: bool)
    ensures ok == NoQuickChange(SortSlots(daySlots, false))
  {
    var a := ToArray(daySlots);
    SortInPlace(a, false);
    ok := ScanBuildingChanges(a);
  }

  /** checkBuildingChanges: every day's group passes the callback. */
  method CheckBuildingChanges(schedule: seq<Slot>) returns (ok: bool)
    ensures ok == BuildingChangesOk(schedule)
  {
    var days, groups := GroupByDay(schedule);
    for k := 0 to |days|
      invariant forall j :: 0 <= j < k ==> NoQuickChange(SortedGroup(schedule, days[j]))
    {
      DayStep(schedule, days, k, groups[days[k]]);
      ok := DaySlotsOk(groups[days[k]]);
      if !ok {
        return false;
      }
    }
    return true;
  }

  /** The group the record holds for the k-th day, sorted, is that day's
      sorted group; it is not empty. */
  lemma DayStep(slots: seq<Slot>, days: seq<Day>, k: nat, g: seq<Slot>)
    requires days == DistinctDays(slots) && k < |days| && g == DayGroup(slots, days[k])
    ensures g != []
    ensures SortSlots(g, false) == SortedGroup(slots, days[k])
    ensures SortSlots(g, true) == SortedGroup(slots, days[k])
  {
    DistinctDaysFacts(slots);
    DayGroupMembers(slots, days[k]);
    assert days[k] in days;
    var w :| 0 <= w < |slots| && slots[w].day == days[k];
    assert slots[w] in g;
    SortByTextIsSortByMinutes(g);
    SortedGroupIsSortedDayGroup(slots, days[k]);
  }

  /** hasFreeDayOption: collects the distinct days, then asks whether one
      of the five weekdays is missing. */
  method HasFreeDayOption(schedule: seq<Slot>) returns (free: bool)
    ensures free == HasFreeDay(schedule)
  {
    var workDays: seq<Day> := [];
    for i := 0 to |schedule|
      invariant workDays == DistinctDays(schedule[..i])
    {
      PrefixSnoc(schedule, i);
      DistinctDaysSnoc(schedule[..i], schedule[i]);
      if schedule[i].day !in workDays {
        workDays := workDays + [schedule[i].day];
      }
    }
    assert schedule[..|schedule|] == schedule;
    free := !("MONDAY" in workDays && "TUESDAY" in workDays && "WEDNESDAY" in workDays
              && "THURSDAY" in workDays && "FRIDAY" in workDays);
  }

  /** The loop over neighbouring pairs of one day sorted by start string
      in getMaxTimeOverlap: raises the running maximum `before` to the
      overlap of each neighbouring pair of different subjects whose first
      slot ends after the second starts. */
  method ScanOverlaps(a: array<Slot>, before: nat) returns (maxOverlap: nat)
    requires a.Length > 0
    ensures maxOverlap == Max(before, GroupOverlap(a[..]))
  {
    maxOverlap := before;
    var i := 0;
    while i < a.Length - 1
      invariant 0 <= i < a.Length
      invariant maxOverlap == Max(before, GroupOverlap(a[..i + 1]))
    {
      var current, next := a[i], a[i + 1];
      assert a[..i + 2] == a[..i + 1] + [next];
      GroupOverlapSnoc(a[..i + 1], next);
      TextOrderIsMinuteOrder(next.timeFrom, current.timeTo);
      if TextLess(Text(next.timeFrom), Text(current.timeTo)) && current.subjectId != next.subjectId {
        var overlap := CalculateOverlap(current, next);
        if overlap > maxOverlap {
          maxOverlap := overlap;
        }
      }
      i := i + 1;
    }
    assert a[..i + 1] == a[..];
  }

  /** One day of getMaxTimeOverlap: sorts the day's slots in place by
      start string, then scans them. */
  method DayMaxOverlap(daySlots: seq<Slot>, before: nat) returns (maxOverlap: nat)
    requires daySlots != []
    ensures maxOverlap == Max(before, GroupOverlap(SortSlots(daySlots, true)))
  {
    var a := ToArray(daySlots);
    SortInPlace(a, true);
    maxOverlap := ScanOverlaps(a, before);
  }

  /** getMaxTimeOverlap: the running maximum over every day's group. */
  method GetMaxTimeOverlap(slots: seq<Slot>) returns (maxOverlap: nat)
    ensures maxOverlap == MaxTimeOverlap(slots)
  {
    maxOverlap := 0;
    var days, groups := GroupByDay(slots);
    for k := 0 to |days|
      invariant maxOverlap == DaysOverlap(slots, days[..k])
    {
      assert days[..k + 1][..k] == days[..k];
      DayStep(slots, days, k, groups[days[k]]);
      maxOverlap := DayMaxOverlap(groups[days[k]], maxOverlap);
    }
    assert days[..|days|] == days;
  }

  /** createSchedule: the slots with the three pieces of metadata. */
  method CreateSchedule(slots: seq<Slot>) returns (s: PossibleSchedule)
    ensures s == ScheduleOf(slots)
  {
    var maxOverlap := GetMaxTimeOverlap(slots);
    var ok := CheckBuildingChanges(slots);
    var free := HasFreeDayOption(slots);
    s := PossibleSchedule(slots, maxOverlap, !ok, free);
  }

  class Scheduler {
    var subjects: seq<Subject>
    var options: Options
    var blockedTimes: seq<TimeBlock>
    var possibleSchedules: seq<PossibleSchedule>

    /** A fresh scheduler: no subjects, every option off, nothing blocked,
        no schedules. */
    constructor ()
      ensures subjects == [] && blockedTimes == [] && possibleSchedules == []
      ensures options == Options(false, false, false)
    {
      subjects := [];
      options := Options(false, false, false);
      blockedTimes := [];
      possibleSchedules := [];
    }

    method SetSubjects(s: seq<Subject>)
      modifies this`subjects
      ensures subjects == s
    {
      subjects := s;
    }

    method GetSubjects() returns (s: seq<Subject>)
      ensures s == subjects
    {
      s := subjects;
    }

    method SetOptions(o: Options)
      modifies this`options
      ensures options == o
    {
      options := o;
    }

    method GetOptions() returns (o: Options)
      ensures o == options
    {
      o := options;
    }

    method SetBlockedTimes(b: seq<TimeBlock>)
      modifies this`blockedTimes
      ensures blockedTimes == b
    {
      blockedTimes := b;
    }

    method GetBlockedTimes() returns (b: seq<TimeBlock>)
      ensures b == blockedTimes
    {
      b := blockedTimes;
    }

    method GetSchedules() returns (r: seq<PossibleSchedule>)
      ensures r == possibleSchedules
    {
      r := possibleSchedules;
    }

    /** isValidSchedule: the enabled leaf filters accept the timetable. */
    method IsValidSchedule(schedule: seq<Slot>) returns (ok: bool)
      ensures ok == IsValid(options, schedule)
    {
      if options.avoidBuildingChange {
        var noChange := CheckBuildingChanges(schedule);
        if !noChange {
          return false;
        }
      }
      if options.allowFreeDay {
        var free := HasFreeDayOption(schedule);
        if !free {
          return false;
        }
      }
      return true;
    }

    /** generateSchedules: clears the list, runs the search and returns
        the list, which then holds exactly the search's results. */
    method GenerateSchedules() returns (r: seq<PossibleSchedule>)
      modifies this`possibleSchedules
      ensures possibleSchedules == Generate(subjects, options)
      ensures r == possibleSchedules
    {
      possibleSchedules := [];
      Backtrack([], 0);
      assert [] + Generate(subjects, options) == Generate(subjects, options);
      r := possibleSchedules;
    }

    /** The leaf of backtrack: a complete timetable that passes
        isValidSchedule is pushed with its metadata. */
    method PushIfValid(current: seq<Slot>)
      modifies this`possibleSchedules
      ensures possibleSchedules == old(possibleSchedules) + (if IsValid(options, current) then [ScheduleOf(current)] else [])
    {
      var ok := IsValidSchedule(current);
      if ok {
        var s := CreateSchedule(current);
        possibleSchedules := possibleSchedules + [s];
      }
    }

    /** backtrack: appends, in order, the schedules of every admitted
        completion of `current` from subject `i` on. */
    method Backtrack(current: seq<Slot>, i: nat)
      requires i <= |subjects|
      modifies this`possibleSchedules
      ensures possibleSchedules == old(possibleSchedules) + Explore(subjects, options, current, i)
      decreases |subjects| - i
    {
      if i == |subjects| {
        PushIfValid(current);
        return;
      }
      var subject := subjects[i];
      var commissions := Pool(subject);
      for k := 0 to |commissions|
        invariant possibleSchedules == old(possibleSchedules) + Branches(subjects, options, current, i, commissions[..k])
      {
        var slots := CreateSlots(subject, commissions[k]);
        ghost var before := possibleSchedules;
        ghost var pushed := if CanAddSlots(options, current, slots) then Explore(subjects, options, current + slots, i + 1) else [];
        if CanAddSlots(options, current, slots) {
          Backtrack(current + slots, i + 1);
        } else {
          assert before + pushed == before;
        }
        assert possibleSchedules == before + pushed;
        BranchesSnoc(subjects, options, current, i, commissions, k);
        AppendAssoc(old(possibleSchedules), Branches(subjects, options, current, i, commissions[..k]), pushed);
      }
      assert commissions[..|commissions|] == commissions;
      assert Explore(subjects, options, current, i) == Branches(subjects, options, current, i, commissions);
    }
  }

  /** Generating twice in a row gives the same list, and the getter returns
      it. */
  method GenerateTwice(s: Scheduler) returns (first: seq<PossibleSchedule>, second: seq<PossibleSchedule>)
    modifies s`possibleSchedules
    ensures first == second == Generate(s.subjects, s.options)
    ensures s.possibleSchedules == second
  {
    first := s.GenerateSchedules();
    second := s.GenerateSchedules();
    var stored := s.GetSchedules();
    assert stored == second;
  }
}
