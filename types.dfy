/** The records the scheduler works on. Their shapes follow how the
    scheduler reads them (the type declarations themselves are not part of
    this model). Field names follow Dafny's camelCase. */
module SchedulerTypes {
  import opened Times

  datatype Option<+T> = None | Some(value: T)

  /** A weekday as the catalogue spells it, e.g. "MONDAY". */
  type Day = string

  /** A course date; the engine carries it into every slot and never reads it. */
  type Date = string

  /** One weekly meeting of a commission. */
  datatype Meeting = Meeting(day: Day, timeFrom: Time, timeTo: Time, building: string, classroom: string)

  /** A commission (section) of a subject and its weekly meetings. */
  datatype Commission = Commission(name: string, schedule: seq<Meeting>)

  /** A subject the student wants to take. `selectedCommissions` is absent
      when the caller did not restrict the commissions. */
  datatype Subject = Subject(
    subjectId: string,
    name: string,
    commissions: seq<Commission>,
    courseStart: Date,
    courseEnd: Date,
    selectedCommissions: Option<seq<string>>)

  /** A user-declared unavailable interval. */
  datatype TimeBlock = TimeBlock(day: Day, from: Time, to: Time)

  datatype Options = Options(allowOverlap: bool, avoidBuildingChange: bool, allowFreeDay: bool)

  /** One meeting materialised for a subject and commission. */
  datatype Slot = Slot(
    day: Day,
    timeFrom: Time,
    timeTo: Time,
    subject: string,
    dateFrom: Date,
    dateTo: Date,
    subjectId: string,
    commission: string,
    building: string,
    classroom: string)

  /** A candidate timetable and the metadata attached to it. */
  datatype PossibleSchedule = PossibleSchedule(
    slots: seq<Slot>,
    maxOverlap: int,
    hasBuildingConflict: bool,
    hasFreeDay: bool)

  /** Minutes since midnight at which a slot starts and ends. */
  function Start(s: Slot): nat { ToMinutes(s.timeFrom) }
  function End(s: Slot): nat { ToMinutes(s.timeTo) }
}

/** Sequence helpers shared by the specification. */
module Seqs {

  /** `a` can be obtained from `b` by deleting elements (matched greedily
      from the end). */
  predicate IsSubsequence<T(==)>(a: seq<T>, b: seq<T>)
    decreases |b|
  {
    if a == [] then true
    else if b == [] then false
    else if a[|a| - 1] == b[|b| - 1] then IsSubsequence(a[..|a| - 1], b[..|b| - 1])
    else IsSubsequence(a, b[..|b| - 1])
  }

  /** The elements of `xs` that satisfy `p`, in their order. */
  function Filter<T>(p: T -> bool, xs: seq<T>): (r: seq<T>)
    ensures |r| <= |xs|
    ensures forall x :: x in r ==> x in xs && p(x)
    ensures forall x :: x in xs ==> multiset(r)[x] == if p(x) then multiset(xs)[x] else 0
  {
    if xs == [] then []
    else
      var init, last := xs[..|xs| - 1], xs[|xs| - 1];
      assert xs == init + [last];
      Filter(p, init) + (if p(last) then [last] else [])
  }

  lemma {:induction false} FilterAppend<T>(p: T -> bool, a: seq<T>, b: seq<T>)
    ensures Filter(p, a + b) == Filter(p, a) + Filter(p, b)
    decreases |b|
  {
    if b != [] {
      var b' := b[..|b| - 1];
      assert (a + b)[..|a + b| - 1] == a + b';
      FilterAppend(p, a, b');
    } else {
      assert a + b == a;
    }
  }

  /** A filtered sequence is a subsequence of the original. */
  lemma {:induction false} FilterIsSubsequence<T>(p: T -> bool, xs: seq<T>)
    ensures IsSubsequence(Filter(p, xs), xs)
    decreases |xs|
  {
    if xs != [] {
      var init, x := xs[..|xs| - 1], xs[|xs| - 1];
      FilterIsSubsequence(p, init);
      var r := Filter(p, init);
      assert xs == init + [x];
      if p(x) {
        assert (r + [x])[..|r + [x]| - 1] == r;
      } else {
        assert Filter(p, xs) == r + [];
        assert r + [] == r;
        SubsequenceOfPrefix(r, init, x);
      }
    }
  }

  lemma {:induction false} SubsequenceOfPrefix<T>(a: seq<T>, b: seq<T>, x: T)
    requires IsSubsequence(a, b)
    ensures IsSubsequence(a, b + [x])
    decreases |b|, 1
  {
    var bx := b + [x];
    assert bx[..|bx| - 1] == b;
    if a != [] && a[|a| - 1] == x {
      // Matching x with the last element of `a` also works: drop the
      // match of a's last element inside b.
      SubsequenceDropLast(a, b);
    }
  }

  lemma {:induction false} SubsequenceDropLast<T>(a: seq<T>, b: seq<T>)
    requires a != [] && IsSubsequence(a, b)
    ensures IsSubsequence(a[..|a| - 1], b)
    decreases |b|, 0
  {
    var a', b' := a[..|a| - 1], b[..|b| - 1];
    if a[|a| - 1] == b[|b| - 1] {
      SubsequenceOfPrefix(a', b', b[|b| - 1]);
      assert b' + [b[|b| - 1]] == b;
    } else {
      SubsequenceDropLast(a, b');
      SubsequenceOfPrefix(a', b', b[|b| - 1]);
      assert b' + [b[|b| - 1]] == b;
    }
  }

  /** Extending a prefix by one element. */
  lemma PrefixSnoc<T>(s: seq<T>, i: nat)
    requires i < |s|
    ensures s[..i + 1] == s[..i] + [s[i]]
  {
  }

  lemma AppendAssoc<T>(a: seq<T>, b: seq<T>, c: seq<T>)
    ensures (a + b) + c == a + (b + c)
  {
  }
}
