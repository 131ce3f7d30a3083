/** The pure parts of the scheduler that the search consults at each branch
    point: which commissions of a subject to branch over
    (getAvailableCommissions), the slots a commission contributes
    (createSlotsFromCommission), the overlap test between new and committed
    slots (canAddSlots) and the dormant blocked-time test
    (checkBlockedTimes). */
module Constraints {
  import opened Times
  import opened SchedulerTypes
  import opened Seqs

  // ---------------------------------------------------------------------
  // Commission pool

  /** The caller did not restrict the commissions, or named "any" among
      them. */
  predicate AcceptsAny(s: Subject) {
    s.selectedCommissions.None? || "any" in s.selectedCommissions.value
  }

  /** The selection names none of the subject's commissions (this includes
      an empty selection). */
  predicate SelectsNone(s: Subject)
    requires s.selectedCommissions.Some?
  {
    forall k :: 0 <= k < |s.commissions| ==> s.commissions[k].name !in s.selectedCommissions.value
  }

  /** getAvailableCommissions: the commissions to branch over. */
  function Pool(s: Subject): seq<Commission> {
    if AcceptsAny(s) then s.commissions
    else
      var selected := Filter((c: Commission) => c.name in s.selectedCommissions.value, s.commissions);
      if |selected| > 0 then selected else s.commissions
  }

  /** Every commission when any is accepted or when the selection matches
      nothing; otherwise exactly the selected commissions, in declared
      order. The pool is empty only when the subject has no commissions. */
  lemma PoolFacts(s: Subject)
    ensures AcceptsAny(s) ==> Pool(s) == s.commissions
    ensures !AcceptsAny(s) && SelectsNone(s) ==> Pool(s) == s.commissions
    ensures !AcceptsAny(s) && !SelectsNone(s) ==>
      && Pool(s) != []
      && IsSubsequence(Pool(s), s.commissions)
      && (forall c :: c in Pool(s) ==> c in s.commissions && c.name in s.selectedCommissions.value)
      && (forall c :: c in s.commissions ==>
            multiset(Pool(s))[c] == if c.name in s.selectedCommissions.value then multiset(s.commissions)[c] else 0)
    ensures Pool(s) == [] <==> s.commissions == []
    ensures forall c :: c in Pool(s) ==> c in s.commissions
  {
    if !AcceptsAny(s) {
      var names := s.selectedCommissions.value;
      var selected := Filter((c: Commission) => c.name in names, s.commissions);
      if |selected| > 0 {
        FilterIsSubsequence((c: Commission) => c.name in names, s.commissions);
      } else {
        assert SelectsNone(s) by {
          forall k | 0 <= k < |s.commissions| ensures s.commissions[k].name !in names {
            var c := s.commissions[k];
            assert c in s.commissions;
            if c.name in names {
              assert false;
            }
          }
        }
      }
    }
  }

  // ---------------------------------------------------------------------
  // Slot materialisation

  /** The slot copies the day, times, building and classroom of meeting `m`. */
  predicate CopiesMeeting(x: Slot, m: Meeting) {
    x.day == m.day && x.timeFrom == m.timeFrom && x.timeTo == m.timeTo
    && x.building == m.building && x.classroom == m.classroom
  }

  /** The slot carries the subject's id, name and course dates and the
      commission's name. */
  predicate OwnedBy(x: Slot, s: Subject, c: Commission) {
    x.subjectId == s.subjectId && x.subject == s.name
    && x.dateFrom == s.courseStart && x.dateTo == s.courseEnd
    && x.commission == c.name
  }

  /** createSlotsFromCommission: one slot per meeting, in meeting order. */
  function CreateSlots(s: Subject, c: Commission): (r: seq<Slot>)
    ensures |r| == |c.schedule|
    ensures forall k :: 0 <= k < |r| ==> CopiesMeeting(r[k], c.schedule[k]) && OwnedBy(r[k], s, c)
  {
    seq(|c.schedule|, k requires 0 <= k < |c.schedule| =>
      var m := c.schedule[k];
      Slot(m.day, m.timeFrom, m.timeTo, s.name, s.courseStart, s.courseEnd, s.subjectId, c.name, m.building, m.classroom))
  }

  // ---------------------------------------------------------------------
  // Overlap tests

  /** Two intervals do not collide: they are on different days, or the first
      ends no later than the second starts, or starts no earlier than it
      ends. */
  predicate Clear(day: Day, from: Time, to: Time, otherDay: Day, otherFrom: Time, otherTo: Time) {
    day != otherDay || ToMinutes(to) <= ToMinutes(otherFrom) || ToMinutes(from) >= ToMinutes(otherTo)
  }

  predicate SlotsClear(n: Slot, e: Slot) {
    Clear(n.day, n.timeFrom, n.timeTo, e.day, e.timeFrom, e.timeTo)
  }

  /** `schedule.every(existing => ...)` for one new slot. */
  function ClearOfAll(n: Slot, schedule: seq<Slot>): (r: bool)
    ensures r <==> forall j :: 0 <= j < |schedule| ==> SlotsClear(n, schedule[j])
  {
    if schedule == [] then true
    else SlotsClear(n, schedule[0]) && ClearOfAll(n, schedule[1..])
  }

  /** `newSlots.every(n => schedule.every(...))`. */
  function AllClear(newSlots: seq<Slot>, schedule: seq<Slot>): (r: bool)
    ensures r <==> forall i, j :: 0 <= i < |newSlots| && 0 <= j < |schedule| ==> SlotsClear(newSlots[i], schedule[j])
  {
    if newSlots == [] then true
    else ClearOfAll(newSlots[0], schedule) && AllClear(newSlots[1..], schedule)
  }

  /** canAddSlots: with overlap allowed, always; otherwise no new slot meets
      a committed slot of the same day. The new slots are not compared with
      each other. */
  function CanAddSlots(opts: Options, schedule: seq<Slot>, newSlots: seq<Slot>): (r: bool)
    ensures opts.allowOverlap ==> r
    ensures !opts.allowOverlap ==>
      (r <==> forall i, j :: 0 <= i < |newSlots| && 0 <= j < |schedule| ==>
                newSlots[i].day != schedule[j].day
                || End(newSlots[i]) <= Start(schedule[j])
                || Start(newSlots[i]) >= End(schedule[j]))
  {
    opts.allowOverlap || AllClear(newSlots, schedule)
  }

  /** A commission whose own meetings collide can still be placed: nothing
      compares the new slots among themselves. */
  lemma NewSlotsNotComparedWithEachOther(opts: Options, newSlots: seq<Slot>)
    ensures CanAddSlots(opts, [], newSlots)
  {
  }

  /** The slot leaves the blocked interval alone. */
  predicate ClearOfBlock(x: Slot, b: TimeBlock) {
    Clear(x.day, x.timeFrom, x.timeTo, b.day, b.from, b.to)
  }

  function ClearOfBlocks(x: Slot, blocked: seq<TimeBlock>): (r: bool)
    ensures r <==> forall j :: 0 <= j < |blocked| ==> ClearOfBlock(x, blocked[j])
  {
    if blocked == [] then true
    else ClearOfBlock(x, blocked[0]) && ClearOfBlocks(x, blocked[1..])
  }

  /** checkBlockedTimes: no slot meets a blocked interval of its day. The
      search never calls it. */
  function CheckBlockedTimes(blocked: seq<TimeBlock>, schedule: seq<Slot>): (r: bool)
    ensures r <==> forall i, j :: 0 <= i < |schedule| && 0 <= j < |blocked| ==>
      schedule[i].day != blocked[j].day
      || End(schedule[i]) <= ToMinutes(blocked[j].from)
      || Start(schedule[i]) >= ToMinutes(blocked[j].to)
  {
    if schedule == [] then true
    else ClearOfBlocks(schedule[0], blocked) && CheckBlockedTimes(blocked, schedule[1..])
  }
}
