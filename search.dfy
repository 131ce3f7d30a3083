/** The depth-first search of generateSchedules/backtrack as a function of
    the subjects and options, and what it produces: every result is one
    commission per subject, concatenated in subject order, that the overlap
    pruning admits and the leaf filters accept; every such combination is a
    result; the number of results is bounded by the product of the pool
    sizes; the filters only remove results. */
module Search {
  import opened Times
  import opened SchedulerTypes
  import opened Seqs
  import opened Constraints
  import opened Metadata

  // ---------------------------------------------------------------------
  // The search

  /** The schedules `backtrack(current, i)` pushes, in push order. */
  function Explore(subjects: seq<Subject>, opts: Options, current: seq<Slot>, i: nat): seq<PossibleSchedule>
    requires i <= |subjects|
    decreases |subjects| - i, 1, 0
  {
    if i == |subjects| then
      if IsValid(opts, current) then [ScheduleOf(current)] else []
    else Branches(subjects, opts, current, i, Pool(subjects[i]))
  }

  /** The schedules pushed by the iterations of backtrack's loop over the
      commissions `cs` of subject `i`. */
  function Branches(subjects: seq<Subject>, opts: Options, current: seq<Slot>, i: nat, cs: seq<Commission>): seq<PossibleSchedule>
    requires i < |subjects|
    decreases |subjects| - i, 0, |cs|
  {
    if cs == [] then []
    else
      var slots := CreateSlots(subjects[i], cs[|cs| - 1]);
      Branches(subjects, opts, current, i, cs[..|cs| - 1])
        + (if CanAddSlots(opts, current, slots) then Explore(subjects, opts, current + slots, i + 1) else [])
  }

  /** generateSchedules: the search from the empty timetable and the first
      subject. */
  function Generate(subjects: seq<Subject>, opts: Options): seq<PossibleSchedule> {
    Explore(subjects, opts, [], 0)
  }

  lemma BranchesSnoc(subjects: seq<Subject>, opts: Options, current: seq<Slot>, i: nat, cs: seq<Commission>, k: nat)
    requires i < |subjects| && k < |cs|
    ensures Branches(subjects, opts, current, i, cs[..k + 1]) ==
      Branches(subjects, opts, current, i, cs[..k])
        + (if CanAddSlots(opts, current, CreateSlots(subjects[i], cs[k]))
           then Explore(subjects, opts, current + CreateSlots(subjects[i], cs[k]), i + 1) else [])
  {
    assert cs[..k + 1][..k] == cs[..k];
  }

  // ---------------------------------------------------------------------
  // Choices

  /** One commission for each subject from `i` on, each from its subject's
      pool. */
  predicate IsChoice(subjects: seq<Subject>, i: nat, choice: seq<Commission>)
    requires i <= |subjects|
  {
    |choice| == |subjects| - i && forall k :: 0 <= k < |choice| ==> InPool(subjects[i + k], choice[k])
  }

  /** `c` is among the commissions the search branches over for `s`. */
  predicate InPool(s: Subject, c: Commission) {
    c in Pool(s)
  }

  /** The slots of the chosen commissions, concatenated in subject order. */
  function Assemble(subjects: seq<Subject>, i: nat, choice: seq<Commission>): seq<Slot>
    requires i + |choice| <= |subjects|
    decreases |choice|
  {
    if choice == [] then [] else CreateSlots(subjects[i], choice[0]) + Assemble(subjects, i + 1, choice[1..])
  }

  /** The overlap pruning lets the search go down this path: each
      commission's slots can be added to the timetable built so far. */
  predicate Admits(opts: Options, subjects: seq<Subject>, current: seq<Slot>, i: nat, choice: seq<Commission>)
    requires i + |choice| <= |subjects|
    decreases |choice|
  {
    choice == [] ||
      var slots := CreateSlots(subjects[i], choice[0]);
      CanAddSlots(opts, current, slots) && Admits(opts, subjects, current + slots, i + 1, choice[1..])
  }

  /** The number of meetings of the chosen commissions. */
  function MeetingCount(choice: seq<Commission>): nat {
    if choice == [] then 0 else |choice[0].schedule| + MeetingCount(choice[1..])
  }

  /** A timetable has one slot per meeting of the chosen commissions. */
  lemma {:induction false} AssembleLength(subjects: seq<Subject>, i: nat, choice: seq<Commission>)
    requires i + |choice| <= |subjects|
    ensures |Assemble(subjects, i, choice)| == MeetingCount(choice)
    decreases |choice|
  {
    if choice != [] {
      AssembleLength(subjects, i + 1, choice[1..]);
    }
  }

  /** A result of the search from (current, i): the timetable of an admitted
      choice that passes the leaf test, with its metadata. */
  predicate Outcome(subjects: seq<Subject>, opts: Options, current: seq<Slot>, i: nat, r: PossibleSchedule, choice: seq<Commission>)
    requires i <= |subjects|
  {
    && IsChoice(subjects, i, choice)
    && Admits(opts, subjects, current, i, choice)
    && IsValid(opts, Timetable(subjects, current, i, choice))
    && r == ScheduleOf(Timetable(subjects, current, i, choice))
  }

  /** The timetable built so far followed by the chosen commissions' slots. */
  function Timetable(subjects: seq<Subject>, current: seq<Slot>, i: nat, choice: seq<Commission>): seq<Slot>
    requires i + |choice| <= |subjects|
  {
    current + Assemble(subjects, i, choice)
  }

  lemma TimetableStep(subjects: seq<Subject>, current: seq<Slot>, i: nat, choice: seq<Commission>)
    requires choice != [] && i + |choice| <= |subjects|
    ensures Timetable(subjects, current, i, choice) == Timetable(subjects, current + CreateSlots(subjects[i], choice[0]), i + 1, choice[1..])
  {
    var slots, tail := CreateSlots(subjects[i], choice[0]), Assemble(subjects, i + 1, choice[1..]);
    assert Assemble(subjects, i, choice) == slots + tail;
    AppendAssoc(current, slots, tail);
  }

  // ---------------------------------------------------------------------
  // Soundness and completeness

  /** Every schedule the search pushes is the outcome of some choice. */
  lemma {:induction false} ExploreSound(subjects: seq<Subject>, opts: Options, current: seq<Slot>, i: nat, r: PossibleSchedule)
    requires i <= |subjects|
    requires r in Explore(subjects, opts, current, i)
    ensures exists choice :: Outcome(subjects, opts, current, i, r, choice)
    decreases |subjects| - i, 1, 0
  {
    if i == |subjects| {
      assert Timetable(subjects, current, i, []) == current;
      assert Outcome(subjects, opts, current, i, r, []);
    } else {
      var c := BranchesSound(subjects, opts, current, i, Pool(subjects[i]), r);
    }
  }

  /** Every schedule pushed by the loop over `cs` is the outcome of a choice
      starting with a commission of `cs`. */
  lemma {:induction false} BranchesSound(subjects: seq<Subject>, opts: Options, current: seq<Slot>, i: nat, cs: seq<Commission>, r: PossibleSchedule)
    returns (choice: seq<Commission>)
    requires i < |subjects|
    requires forall c :: c in cs ==> c in Pool(subjects[i])
    requires r in Branches(subjects, opts, current, i, cs)
    ensures Outcome(subjects, opts, current, i, r, choice) && choice[0] in cs
    decreases |subjects| - i, 0, |cs|
  {
    var init, c := cs[..|cs| - 1], cs[|cs| - 1];
    var slots := CreateSlots(subjects[i], c);
    if r in Branches(subjects, opts, current, i, init) {
      choice := BranchesSound(subjects, opts, current, i, init, r);
    } else {
      ExploreSound(subjects, opts, current + slots, i + 1, r);
      var rest :| Outcome(subjects, opts, current + slots, i + 1, r, rest);
      choice := Extend(subjects, opts, current, i, c, rest, r);
    }
  }

  /** Prefixing an admitted commission of subject `i` to an outcome from
      subject `i + 1` gives an outcome from subject `i`. */
  lemma Extend(subjects: seq<Subject>, opts: Options, current: seq<Slot>, i: nat, c: Commission, rest: seq<Commission>, r: PossibleSchedule)
    returns (choice: seq<Commission>)
    requires i < |subjects| && InPool(subjects[i], c)
    requires CanAddSlots(opts, current, CreateSlots(subjects[i], c))
    requires Outcome(subjects, opts, current + CreateSlots(subjects[i], c), i + 1, r, rest)
    ensures choice == [c] + rest && Outcome(subjects, opts, current, i, r, choice)
  {
    choice := [c] + rest;
    assert choice[0] == c && choice[1..] == rest;
    ChoiceStep(subjects, i, c, rest);
    assert Admits(opts, subjects, current, i, choice);
    TimetableStep(subjects, current, i, choice);
  }

  lemma ChoiceStep(subjects: seq<Subject>, i: nat, c: Commission, rest: seq<Commission>)
    requires i < |subjects| && InPool(subjects[i], c) && IsChoice(subjects, i + 1, rest)
    ensures IsChoice(subjects, i, [c] + rest)
  {
    var choice := [c] + rest;
    forall k | 0 <= k < |choice| ensures InPool(subjects[i + k], choice[k]) {
      if k > 0 {
        assert InPool(subjects[i + 1 + (k - 1)], rest[k - 1]);
        assert choice[k] == rest[k - 1] && i + 1 + (k - 1) == i + k;
      }
    }
  }

  /** Every outcome of a choice is pushed by the search. */
  lemma {:induction false} ExploreComplete(subjects: seq<Subject>, opts: Options, current: seq<Slot>, i: nat, r: PossibleSchedule, choice: seq<Commission>)
    requires i <= |subjects|
    requires Outcome(subjects, opts, current, i, r, choice)
    ensures r in Explore(subjects, opts, current, i)
    decreases |subjects| - i, 1, 0
  {
    if i == |subjects| {
      assert Timetable(subjects, current, i, choice) == current;
    } else {
      BranchesComplete(subjects, opts, current, i, Pool(subjects[i]), r, choice);
    }
  }

  lemma {:induction false} BranchesComplete(subjects: seq<Subject>, opts: Options, current: seq<Slot>, i: nat, cs: seq<Commission>, r: PossibleSchedule, choice: seq<Commission>)
    requires i < |subjects|
    requires Outcome(subjects, opts, current, i, r, choice) && choice[0] in cs
    ensures r in Branches(subjects, opts, current, i, cs)
    decreases |subjects| - i, 0, |cs|
  {
    var init, c := cs[..|cs| - 1], cs[|cs| - 1];
    if choice[0] in init {
      BranchesComplete(subjects, opts, current, i, init, r, choice);
    } else {
      var slots := CreateSlots(subjects[i], c);
      var rest := choice[1..];
      Shorten(subjects, opts, current, i, r, choice);
      ExploreComplete(subjects, opts, current + slots, i + 1, r, rest);
    }
  }

  /** The converse of Extend: an outcome from subject `i` is an admitted
      commission followed by an outcome from subject `i + 1`. */
  lemma Shorten(subjects: seq<Subject>, opts: Options, current: seq<Slot>, i: nat, r: PossibleSchedule, choice: seq<Commission>)
    requires i < |subjects| && Outcome(subjects, opts, current, i, r, choice)
    ensures CanAddSlots(opts, current, CreateSlots(subjects[i], choice[0]))
    ensures Outcome(subjects, opts, current + CreateSlots(subjects[i], choice[0]), i + 1, r, choice[1..])
  {
    TimetableStep(subjects, current, i, choice);
    ChoiceTail(subjects, i, choice);
  }

  lemma ChoiceTail(subjects: seq<Subject>, i: nat, choice: seq<Commission>)
    requires i < |subjects| && IsChoice(subjects, i, choice)
    ensures IsChoice(subjects, i + 1, choice[1..])
  {
    var rest := choice[1..];
    forall k | 0 <= k < |rest| ensures InPool(subjects[i + 1 + k], rest[k]) {
      assert InPool(subjects[i + (k + 1)], choice[k + 1]);
      assert rest[k] == choice[k + 1];
    }
  }

  /** A schedule is generated exactly when it is the outcome of a choice
      from the first subject on the empty timetable. */
  lemma GenerateIff(subjects: seq<Subject>, opts: Options, r: PossibleSchedule)
    ensures r in Generate(subjects, opts) <==> exists choice :: Outcome(subjects, opts, [], 0, r, choice)
  {
    if r in Generate(subjects, opts) {
      ExploreSound(subjects, opts, [], 0, r);
    }
    if choice :| Outcome(subjects, opts, [], 0, r, choice) {
      ExploreComplete(subjects, opts, [], 0, r, choice);
    }
  }

  /** Each generated schedule carries the metadata its enabled filters ask
      for, and its slots are the meetings of one commission per subject. */
  lemma GeneratedShape(subjects: seq<Subject>, opts: Options, r: PossibleSchedule)
    requires r in Generate(subjects, opts)
    ensures opts.avoidBuildingChange ==> !r.hasBuildingConflict
    ensures opts.allowFreeDay ==> r.hasFreeDay
    ensures r == ScheduleOf(r.slots)
    ensures exists choice ::
      IsChoice(subjects, 0, choice) && r.slots == Assemble(subjects, 0, choice) && |r.slots| == MeetingCount(choice)
  {
    ExploreSound(subjects, opts, [], 0, r);
    var choice :| Outcome(subjects, opts, [], 0, r, choice);
    assert Timetable(subjects, [], 0, choice) == Assemble(subjects, 0, choice);
    ValidScheduleMetadata(opts, r.slots);
    AssembleLength(subjects, 0, choice);
  }

  // ---------------------------------------------------------------------
  // Counting

  /** The product of the pool sizes of the subjects from `i` on. */
  function Product(subjects: seq<Subject>, i: nat): nat
    requires i <= |subjects|
    decreases |subjects| - i
  {
    if i == |subjects| then 1 else |Pool(subjects[i])| * Product(subjects, i + 1)
  }

  /** At most one schedule per combination of commissions. */
  lemma {:induction false} ExploreCount(subjects: seq<Subject>, opts: Options, current: seq<Slot>, i: nat)
    requires i <= |subjects|
    ensures |Explore(subjects, opts, current, i)| <= Product(subjects, i)
    ensures opts.allowOverlap && !opts.avoidBuildingChange && !opts.allowFreeDay ==>
      |Explore(subjects, opts, current, i)| == Product(subjects, i)
    decreases |subjects| - i, 1, 0
  {
    if i < |subjects| {
      BranchesCount(subjects, opts, current, i, Pool(subjects[i]));
    }
  }

  lemma {:induction false} BranchesCount(subjects: seq<Subject>, opts: Options, current: seq<Slot>, i: nat, cs: seq<Commission>)
    requires i < |subjects|
    ensures |Branches(subjects, opts, current, i, cs)| <= |cs| * Product(subjects, i + 1)
    ensures opts.allowOverlap && !opts.avoidBuildingChange && !opts.allowFreeDay ==>
      |Branches(subjects, opts, current, i, cs)| == |cs| * Product(subjects, i + 1)
    decreases |subjects| - i, 0, |cs|
  {
    if cs != [] {
      var init, p := cs[..|cs| - 1], Product(subjects, i + 1);
      var slots := CreateSlots(subjects[i], cs[|cs| - 1]);
      var last := if CanAddSlots(opts, current, slots) then Explore(subjects, opts, current + slots, i + 1) else [];
      assert Branches(subjects, opts, current, i, cs) == Branches(subjects, opts, current, i, init) + last;
      BranchesCount(subjects, opts, current, i, init);
      ExploreCount(subjects, opts, current + slots, i + 1);
      MulSucc(|init|, p);
    }
  }

  lemma MulSucc(n: nat, p: nat)
    ensures n * p + p == (n + 1) * p
  {
  }

  /** The number of generated schedules is at most the product of the pool
      sizes, and exactly that when overlap is allowed and no filter is on. */
  lemma GenerateCount(subjects: seq<Subject>, opts: Options)
    ensures |Generate(subjects, opts)| <= Product(subjects, 0)
    ensures opts.allowOverlap && !opts.avoidBuildingChange && !opts.allowFreeDay ==>
      |Generate(subjects, opts)| == Product(subjects, 0)
  {
    ExploreCount(subjects, opts, [], 0);
  }

  /** With no subjects the search yields the empty timetable, once. */
  lemma GenerateNoSubjects(opts: Options)
    ensures Generate([], opts) == [PossibleSchedule([], 0, false, true)]
  {
    EmptySchedule(opts);
  }

  /** A subject without commissions makes the product 0. */
  lemma {:induction false} ProductZero(subjects: seq<Subject>, i: nat, j: nat)
    requires i <= j < |subjects| && subjects[j].commissions == []
    ensures Product(subjects, i) == 0
    decreases j - i
  {
    if i == j {
      PoolFacts(subjects[j]);
    } else {
      ProductZero(subjects, i + 1, j);
    }
  }

  /** A subject without commissions leaves nothing to generate. */
  lemma GenerateEmptyPool(subjects: seq<Subject>, opts: Options, j: nat)
    requires j < |subjects| && subjects[j].commissions == []
    ensures Generate(subjects, opts) == []
  {
    ProductZero(subjects, 0, j);
    GenerateCount(subjects, opts);
  }

  // ---------------------------------------------------------------------
  // Filters

  /** The same options with both leaf filters off. */
  function Unfiltered(opts: Options): Options {
    opts.(avoidBuildingChange := false, allowFreeDay := false)
  }

  /** The leaf test as a test on a finished schedule. */
  function Accepts(opts: Options): PossibleSchedule -> bool {
    (r: PossibleSchedule) => IsValid(opts, r.slots)
  }

  /** The search with filters is the search without them, filtered by the
      leaf test: the filters never add or reorder results. */
  lemma {:induction false} ExploreFilters(subjects: seq<Subject>, opts: Options, current: seq<Slot>, i: nat)
    requires i <= |subjects|
    ensures Explore(subjects, opts, current, i) == Filter(Accepts(opts), Explore(subjects, Unfiltered(opts), current, i))
    decreases |subjects| - i, 1, 0
  {
    if i == |subjects| {
      var u := Explore(subjects, Unfiltered(opts), current, i);
      assert u == [ScheduleOf(current)];
      assert u == [] + [u[0]];
    } else {
      BranchesFilters(subjects, opts, current, i, Pool(subjects[i]));
    }
  }

  lemma {:induction false} BranchesFilters(subjects: seq<Subject>, opts: Options, current: seq<Slot>, i: nat, cs: seq<Commission>)
    requires i < |subjects|
    ensures Branches(subjects, opts, current, i, cs) == Filter(Accepts(opts), Branches(subjects, Unfiltered(opts), current, i, cs))
    decreases |subjects| - i, 0, |cs|
  {
    if cs != [] {
      var init := cs[..|cs| - 1];
      var slots := CreateSlots(subjects[i], cs[|cs| - 1]);
      BranchesFilters(subjects, opts, current, i, init);
      ExploreFilters(subjects, opts, current + slots, i + 1);
      FilterAppend(Accepts(opts),
        Branches(subjects, Unfiltered(opts), current, i, init),
        if CanAddSlots(opts, current, slots) then Explore(subjects, Unfiltered(opts), current + slots, i + 1) else []);
    }
  }

  /** Filtering by a test that, on `xs`, is the conjunction of two tests is
      filtering by one and then by the other. */
  lemma {:induction false} FilterThenFilter<T>(both: T -> bool, first: T -> bool, second: T -> bool, xs: seq<T>)
    requires forall x :: x in xs ==> both(x) == (first(x) && second(x))
    ensures Filter(both, xs) == Filter(second, Filter(first, xs))
    decreases |xs|
  {
    if xs != [] {
      var init, x := xs[..|xs| - 1], xs[|xs| - 1];
      assert xs == init + [x];
      FilterThenFilter(both, first, second, init);
      FilterAppend(second, Filter(first, init), if first(x) then [x] else []);
    }
  }

  /** Turning on avoidBuildingChange keeps exactly the results without a
      building conflict, in the same order. */
  lemma AvoidBuildingChangeNarrows(subjects: seq<Subject>, opts: Options)
    requires !opts.avoidBuildingChange
    ensures Generate(subjects, opts.(avoidBuildingChange := true)) ==
      Filter((r: PossibleSchedule) => !r.hasBuildingConflict, Generate(subjects, opts))
    ensures IsSubsequence(Generate(subjects, opts.(avoidBuildingChange := true)), Generate(subjects, opts))
  {
    var on := opts.(avoidBuildingChange := true);
    var u := Generate(subjects, Unfiltered(opts));
    assert Unfiltered(on) == Unfiltered(opts);
    ExploreFilters(subjects, opts, [], 0);
    ExploreFilters(subjects, on, [], 0);
    forall r | r in u ensures Accepts(on)(r) == (Accepts(opts)(r) && !r.hasBuildingConflict) {
      GeneratedShape(subjects, Unfiltered(opts), r);
    }
    FilterThenFilter(Accepts(on), Accepts(opts), (r: PossibleSchedule) => !r.hasBuildingConflict, u);
    FilterIsSubsequence((r: PossibleSchedule) => !r.hasBuildingConflict, Generate(subjects, opts));
  }

  /** Turning on allowFreeDay keeps exactly the results with a free weekday,
      in the same order. */
  lemma AllowFreeDayNarrows(subjects: seq<Subject>, opts: Options)
    requires !opts.allowFreeDay
    ensures Generate(subjects, opts.(allowFreeDay := true)) ==
      Filter((r: PossibleSchedule) => r.hasFreeDay, Generate(subjects, opts))
    ensures IsSubsequence(Generate(subjects, opts.(allowFreeDay := true)), Generate(subjects, opts))
  {
    var on := opts.(allowFreeDay := true);
    var u := Generate(subjects, Unfiltered(opts));
    assert Unfiltered(on) == Unfiltered(opts);
    ExploreFilters(subjects, opts, [], 0);
    ExploreFilters(subjects, on, [], 0);
    forall r | r in u ensures Accepts(on)(r) == (Accepts(opts)(r) && r.hasFreeDay) {
      GeneratedShape(subjects, Unfiltered(opts), r);
    }
    FilterThenFilter(Accepts(on), Accepts(opts), (r: PossibleSchedule) => r.hasFreeDay, u);
    FilterIsSubsequence((r: PossibleSchedule) => r.hasFreeDay, Generate(subjects, opts));
  }

  // ---------------------------------------------------------------------
  // No overlap when overlap is disallowed

  /** Every meeting of every commission starts before it ends. */
  predicate WellFormed(subjects: seq<Subject>) {
    forall s, c, m :: s in subjects && c in s.commissions && m in c.schedule ==> ToMinutes(m.timeFrom) < ToMinutes(m.timeTo)
  }

  /** Slots of different subjects never meet on the same day, and every
      slot starts before it ends. */
  predicate Disjoint(slots: seq<Slot>) {
    && (forall x :: x in slots ==> Start(x) < End(x))
    && (forall a, b :: a in slots && b in slots && a.subjectId != b.subjectId ==> SlotsClear(a, b))
  }

  /** Adding one subject's slots that the pruning admits keeps a timetable
      disjoint. */
  lemma AddKeepsDisjoint(opts: Options, current: seq<Slot>, s: Subject, c: Commission)
    requires !opts.allowOverlap && Disjoint(current)
    requires forall m :: m in c.schedule ==> ToMinutes(m.timeFrom) < ToMinutes(m.timeTo)
    requires CanAddSlots(opts, current, CreateSlots(s, c))
    ensures Disjoint(current + CreateSlots(s, c))
  {
    var slots := CreateSlots(s, c);
    var all := current + slots;
    forall x | x in slots ensures Start(x) < End(x) && x.subjectId == s.subjectId {
      var k :| 0 <= k < |slots| && slots[k] == x;
      assert c.schedule[k] in c.schedule;
    }
    forall a, b | a in all && b in all && a.subjectId != b.subjectId ensures SlotsClear(a, b) {
      if a in slots && b in current {
        var p :| 0 <= p < |slots| && slots[p] == a;
        var q :| 0 <= q < |current| && current[q] == b;
      } else if a in current && b in slots {
        var p :| 0 <= p < |current| && current[p] == a;
        var q :| 0 <= q < |slots| && slots[q] == b;
      }
    }
  }

  /** With overlap disallowed, every schedule the search reaches from a
      disjoint timetable is disjoint, so its maximum overlap is 0. */
  lemma {:induction false} ExploreNoOverlap(subjects: seq<Subject>, opts: Options, current: seq<Slot>, i: nat)
    requires i <= |subjects| && !opts.allowOverlap && WellFormed(subjects) && Disjoint(current)
    ensures forall r :: r in Explore(subjects, opts, current, i) ==> Disjoint(r.slots) && r.maxOverlap == 0
    decreases |subjects| - i, 1, 0
  {
    if i == |subjects| {
      NoOverlapMeansZero(current);
    } else {
      BranchesNoOverlap(subjects, opts, current, i, Pool(subjects[i]));
    }
  }

  lemma {:induction false} BranchesNoOverlap(subjects: seq<Subject>, opts: Options, current: seq<Slot>, i: nat, cs: seq<Commission>)
    requires i < |subjects| && !opts.allowOverlap && WellFormed(subjects) && Disjoint(current)
    requires forall c :: c in cs ==> c in subjects[i].commissions
    ensures forall r :: r in Branches(subjects, opts, current, i, cs) ==> Disjoint(r.slots) && r.maxOverlap == 0
    decreases |subjects| - i, 0, |cs|
  {
    if cs != [] {
      var c := cs[|cs| - 1];
      var slots := CreateSlots(subjects[i], c);
      BranchesNoOverlap(subjects, opts, current, i, cs[..|cs| - 1]);
      if CanAddSlots(opts, current, slots) {
        assert subjects[i] in subjects;
        AddKeepsDisjoint(opts, current, subjects[i], c);
        ExploreNoOverlap(subjects, opts, current + slots, i + 1);
      }
    }
  }

  /** With overlap disallowed and well-formed meetings, no two slots of
      different subjects in a generated schedule meet on the same day, and
      every generated schedule reports a maximum overlap of 0. */
  lemma GenerateNoOverlap(subjects: seq<Subject>, opts: Options)
    requires !opts.allowOverlap && WellFormed(subjects)
    ensures forall r :: r in Generate(subjects, opts) ==> Disjoint(r.slots) && r.maxOverlap == 0
  {
    ExploreNoOverlap(subjects, opts, [], 0);
  }
}
