/** The per-day sorts of the metadata code. JavaScript's Array.prototype.sort
    is stable, so a sort by a comparator is determined: it is the stable
    insertion sort `SortSlots` below. The scheduler sorts by start minute
    (comparator `toMinutes(a.timeFrom) - toMinutes(b.timeFrom)`) when it
    checks building changes and by the raw start string
    (`a.timeFrom.localeCompare(b.timeFrom)`) when it measures overlap; on
    well-formed times both put a slot after another exactly when it starts
    later. */
module Sorting {
  import opened Times
  import opened SchedulerTypes

  /** The comparator is positive: `a` must come after `b`. */
  predicate After(a: Slot, b: Slot, byText: bool) {
    if byText then TextLess(Text(b.timeFrom), Text(a.timeFrom)) else Start(a) > Start(b)
  }

  /** Both comparators order slots by their start minute. */
  lemma AfterIsLaterStart(a: Slot, b: Slot, byText: bool)
    ensures After(a, b, byText) <==> Start(a) > Start(b)
  {
    TextOrderIsMinuteOrder(b.timeFrom, a.timeFrom);
  }

  predicate SortedByStart(s: seq<Slot>) {
    forall j, k :: 0 <= j < k < |s| ==> Start(s[j]) <= Start(s[k])
  }

  /** Inserts `x` after every element that does not come after it. */
  function Insert(x: Slot, s: seq<Slot>, byText: bool): (r: seq<Slot>)
    ensures |r| == |s| + 1
  {
    if s == [] then [x]
    else if After(s[0], x, byText) then [x] + s
    else [s[0]] + Insert(x, s[1..], byText)
  }

  lemma {:induction false} InsertPermutes(x: Slot, s: seq<Slot>, byText: bool)
    ensures multiset(Insert(x, s, byText)) == multiset(s) + multiset{x}
  {
    if s == [] {
      assert Insert(x, s, byText) == [x];
    } else if After(s[0], x, byText) {
      assert Insert(x, s, byText) == [x] + s;
    } else {
      var rest := Insert(x, s[1..], byText);
      InsertPermutes(x, s[1..], byText);
      assert Insert(x, s, byText) == [s[0]] + rest;
      assert multiset([s[0]] + rest) == multiset([s[0]]) + multiset(rest);
      assert s == [s[0]] + s[1..];
      assert multiset(s) == multiset([s[0]]) + multiset(s[1..]);
    }
  }

  lemma {:induction false} InsertElements(x: Slot, s: seq<Slot>, byText: bool)
    ensures forall y :: y in Insert(x, s, byText) <==> y == x || y in s
  {
    if s != [] && !After(s[0], x, byText) {
      InsertElements(x, s[1..], byText);
      assert Insert(x, s, byText) == [s[0]] + Insert(x, s[1..], byText);
      assert s == [s[0]] + s[1..];
    }
  }

  lemma {:induction false} InsertSorted(x: Slot, s: seq<Slot>, byText: bool)
    requires SortedByStart(s)
    ensures SortedByStart(Insert(x, s, byText))
  {
    AfterIsLaterStart(if s == [] then x else s[0], x, byText);
    if s != [] && !After(s[0], x, byText) {
      var rest := Insert(x, s[1..], byText);
      SortedTail(s);
      InsertSorted(x, s[1..], byText);
      InsertElements(x, s[1..], byText);
      forall k | 0 <= k < |rest| ensures Start(s[0]) <= Start(rest[k]) {
        assert rest[k] in rest;
      }
      assert Insert(x, s, byText) == [s[0]] + rest;
      ConsSorted(s[0], rest);
    }
  }

  lemma ConsSorted(y: Slot, s: seq<Slot>)
    requires SortedByStart(s)
    requires forall k :: 0 <= k < |s| ==> Start(y) <= Start(s[k])
    ensures SortedByStart([y] + s)
  {
    var t := [y] + s;
    forall p, q | 0 <= p < q < |t| ensures Start(t[p]) <= Start(t[q]) {
      assert t[q] == s[q - 1];
      if p > 0 { assert t[p] == s[p - 1]; }
    }
  }

  /** The stable sort of `s`: each element, from first to last, is inserted
      into the sorted prefix before it. */
  function SortSlots(s: seq<Slot>, byText: bool): (r: seq<Slot>)
    ensures |r| == |s|
  {
    if s == [] then []
    else Insert(s[|s| - 1], SortSlots(s[..|s| - 1], byText), byText)
  }

  /** The sort is a permutation of its input ... */
  lemma {:induction false} SortPermutes(s: seq<Slot>, byText: bool)
    ensures multiset(SortSlots(s, byText)) == multiset(s)
  {
    if s != [] {
      var init := s[..|s| - 1];
      SortPermutes(init, byText);
      InsertPermutes(s[|s| - 1], SortSlots(init, byText), byText);
      assert s == init + [s[|s| - 1]];
    }
  }

  /** ... and is ordered by start minute. */
  lemma {:induction false} SortSorted(s: seq<Slot>, byText: bool)
    ensures SortedByStart(SortSlots(s, byText))
  {
    if s != [] {
      SortSorted(s[..|s| - 1], byText);
      InsertSorted(s[|s| - 1], SortSlots(s[..|s| - 1], byText), byText);
    }
  }

  /** Inserting into a sorted sequence puts `x` just before the first
      element that comes after it. */
  lemma {:induction false} InsertAt(x: Slot, s: seq<Slot>, byText: bool, j: nat)
    requires SortedByStart(s)
    requires j <= |s|
    requires forall k :: j <= k < |s| ==> Start(s[k]) > Start(x)
    requires j == 0 || Start(s[j - 1]) <= Start(x)
    ensures Insert(x, s, byText) == s[..j] + [x] + s[j..]
  {
    if s == [] {
    } else if j == 0 {
      AfterIsLaterStart(s[0], x, byText);
      assert Start(s[0]) > Start(x);
      assert s[..0] + [x] + s[0..] == [x] + s;
    } else {
      AfterIsLaterStart(s[0], x, byText);
      assert Start(s[0]) <= Start(s[j - 1]);
      var tail := s[1..];
      SortedTail(s);
      forall k | j - 1 <= k < |tail| ensures Start(tail[k]) > Start(x) {
        assert tail[k] == s[k + 1];
      }
      assert j - 1 == 0 || tail[j - 2] == s[j - 1];
      InsertAt(x, tail, byText, j - 1);
      assert Insert(x, s, byText) == [s[0]] + Insert(x, tail, byText);
      ConsSplice(s, x, j - 1);
    }
  }

  lemma SortedTail(s: seq<Slot>)
    requires s != [] && SortedByStart(s)
    ensures SortedByStart(s[1..])
  {
    var tail := s[1..];
    forall p, q | 0 <= p < q < |tail| ensures Start(tail[p]) <= Start(tail[q]) {
      assert tail[p] == s[p + 1] && tail[q] == s[q + 1];
    }
  }

  lemma ConsSplice<T>(s: seq<T>, x: T, m: nat)
    requires m < |s|
    ensures [s[0]] + (s[1..][..m] + [x] + s[1..][m..]) == s[..m + 1] + [x] + s[m + 1..]
  {
    assert s[1..][..m] == s[1..m + 1];
    assert s[1..][m..] == s[m + 1..];
    assert s[..m + 1] == [s[0]] + s[1..m + 1];
  }

  /** Both comparators give the same stable order on well-formed times. */
  lemma {:induction false} SortByTextIsSortByMinutes(s: seq<Slot>)
    ensures SortSlots(s, true) == SortSlots(s, false)
  {
    if s != [] {
      SortByTextIsSortByMinutes(s[..|s| - 1]);
      InsertByTextIsInsertByMinutes(s[|s| - 1], SortSlots(s[..|s| - 1], false));
    }
  }

  lemma {:induction false} InsertByTextIsInsertByMinutes(x: Slot, s: seq<Slot>)
    ensures Insert(x, s, true) == Insert(x, s, false)
  {
    if s != [] {
      AfterIsLaterStart(s[0], x, true);
      AfterIsLaterStart(s[0], x, false);
      InsertByTextIsInsertByMinutes(x, s[1..]);
    }
  }

  /** The slots of `s` that start at minute `v`, in their order. */
  function StartingAt(s: seq<Slot>, v: nat): seq<Slot> {
    if s == [] then []
    else StartingAt(s[..|s| - 1], v) + (if Start(s[|s| - 1]) == v then [s[|s| - 1]] else [])
  }

  lemma {:induction false} StartingAtAppend(a: seq<Slot>, b: seq<Slot>, v: nat)
    ensures StartingAt(a + b, v) == StartingAt(a, v) + StartingAt(b, v)
    decreases |b|
  {
    if b == [] {
      assert a + b == a;
    } else {
      var init, y := b[..|b| - 1], b[|b| - 1];
      StartingAtAppend(a, init, v);
      assert (a + b)[..|a + b| - 1] == a + init;
    }
  }

  lemma {:induction false} NoneStartingAt(s: seq<Slot>, v: nat)
    requires forall k :: 0 <= k < |s| ==> Start(s[k]) > v
    ensures StartingAt(s, v) == []
  {
    if s != [] {
      NoneStartingAt(s[..|s| - 1], v);
    }
  }

  /** The sort is stable: for every start minute, the slots starting then
      keep their input order (the stability of Array.prototype.sort). */
  lemma {:induction false} SortStable(s: seq<Slot>, byText: bool, v: nat)
    ensures StartingAt(SortSlots(s, byText), v) == StartingAt(s, v)
  {
    if s != [] {
      var init, x := s[..|s| - 1], s[|s| - 1];
      var sorted := SortSlots(init, byText);
      SortStable(init, byText, v);
      SortSorted(init, byText);
      InsertStable(x, sorted, byText, v);
      StartingAtAppend(sorted, [x], v);
      assert [x][..0] == [];
    }
  }

  /** Inserting into a sorted sequence places `x` after every slot that
      starts at the same minute. */
  lemma {:induction false} InsertStable(x: Slot, s: seq<Slot>, byText: bool, v: nat)
    requires SortedByStart(s)
    ensures StartingAt(Insert(x, s, byText), v) == StartingAt(s + [x], v)
  {
    AfterIsLaterStart(if s == [] then x else s[0], x, byText);
    if s == [] {
      assert s + [x] == [x];
    } else if After(s[0], x, byText) {
      // Every slot of `s` starts after `x`: none of them starts with it.
      StartingAtAppend([x], s, v);
      StartingAtAppend(s, [x], v);
      assert [x][..0] == [];
      if Start(x) == v {
        NoneStartingAt(s, v);
      }
    } else {
      var rest := s[1..];
      SortedTail(s);
      InsertStable(x, rest, byText, v);
      assert Insert(x, s, byText) == [s[0]] + Insert(x, rest, byText);
      StartingAtAppend([s[0]], Insert(x, rest, byText), v);
      StartingAtAppend([s[0]], rest + [x], v);
      assert [s[0]] + (rest + [x]) == s + [x];
    }
  }

  /** A sequence already sorted by start is left as it is; in particular
      slots that start together keep their order. */
  lemma {:induction false} SortKeepsSorted(s: seq<Slot>, byText: bool)
    requires SortedByStart(s)
    ensures SortSlots(s, byText) == s
  {
    if s != [] {
      var init, x := s[..|s| - 1], s[|s| - 1];
      assert SortedByStart(init) by {
        forall p, q | 0 <= p < q < |init| ensures Start(init[p]) <= Start(init[q]) {
          assert init[p] == s[p] && init[q] == s[q];
        }
      }
      SortKeepsSorted(init, byText);
      assert init != [] ==> Start(init[|init| - 1]) <= Start(x);
      InsertAt(x, init, byText, |init|);
      assert init[..|init|] + [x] + init[|init|..] == s;
    }
  }

  /** Array.prototype.sort on a fresh per-day array: an insertion sort in
      place, proved to leave the stable sort of the old contents. */
  method SortInPlace(a: array<Slot>, byText: bool)
    modifies a
    ensures a[..] == SortSlots(old(a[..]), byText)
  {
    ghost var input := a[..];
    var i := 0;
    while i < a.Length
      invariant 0 <= i <= a.Length
      invariant a[..i] == SortSlots(input[..i], byText)
      invariant forall k :: i <= k < a.Length ==> a[k] == input[k]
    {
      ghost var sorted := a[..i];
      SortSorted(input[..i], byText);
      ghost var j := InsertNext(a, i, byText);
      InsertAt(input[i], sorted, byText, j);
      SortPrefixStep(input, i, byText);
      i := i + 1;
    }
    assert input[..a.Length] == input;
  }

  /** Sorting one more element of the input inserts it into the sorted
      prefix. */
  lemma SortPrefixStep(input: seq<Slot>, i: nat, byText: bool)
    requires i < |input|
    ensures SortSlots(input[..i + 1], byText) == Insert(input[i], SortSlots(input[..i], byText), byText)
  {
    assert input[..i + 1][..i] == input[..i];
  }

  /** One step of the insertion sort: moves a[i] left past the elements of
      a[..i] that come after it, stopping at the first one that does not;
      `j` is where it lands. */
  method InsertNext(a: array<Slot>, i: nat, byText: bool) returns (ghost j: nat)
    requires i < a.Length
    modifies a
    ensures j <= i
    ensures a[..i + 1] == old(a[..i])[..j] + [old(a[i])] + old(a[..i])[j..]
    ensures forall k :: j <= k < i ==> Start(old(a[k])) > Start(old(a[i]))
    ensures j == 0 || Start(old(a[j - 1])) <= Start(old(a[i]))
    ensures forall k :: i < k < a.Length ==> a[k] == old(a[k])
  {
    ghost var sorted := a[..i];
    var x := a[i];
    var p := i;
    while p > 0 && After(a[p - 1], x, byText)
      invariant 0 <= p <= i
      invariant forall k :: 0 <= k < p ==> a[k] == sorted[k]
      invariant forall k :: p < k <= i ==> a[k] == sorted[k - 1]
      invariant forall k :: i < k < a.Length ==> a[k] == old(a[k])
      invariant forall k :: p <= k < i ==> Start(sorted[k]) > Start(x)
    {
      AfterIsLaterStart(a[p - 1], x, byText);
      a[p] := a[p - 1];
      p := p - 1;
    }
    if p > 0 {
      AfterIsLaterStart(a[p - 1], x, byText);
    }
    a[p] := x;
    ShiftedIsSpliced(a[..i + 1], sorted, x, p);
    j := p;
  }

  lemma ShiftedIsSpliced(t: seq<Slot>, s: seq<Slot>, x: Slot, j: nat)
    requires j <= |s| && |t| == |s| + 1
    requires forall k :: 0 <= k < j ==> t[k] == s[k]
    requires t[j] == x
    requires forall k :: j < k < |t| ==> t[k] == s[k - 1]
    ensures t == s[..j] + [x] + s[j..]
  {
  }
}
