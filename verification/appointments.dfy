/** The appointment book: an appointment is a half-open period of time with
    a description; an agenda is a list of appointments that can be sorted
    by start time and swept for conflicts. Times are whole minutes. */
module Appointments {
  import opened Numbers

  datatype Appt = Appt(start: int, finish: int, desc: string) {
    /** The constructor's assertion: the period is not empty. */
    predicate Valid() {
      finish > start
    }
  }

  /** Instant t falls within the appointment's half-open period. */
  ghost predicate During(a: Appt, t: int) {
    a.start <= t < a.finish
  }

  /** `Appt(start, finish, desc)`: the source asserts finish > start. */
  function MakeAppt(start: int, finish: int, desc: string): (r: Appt)
    requires finish > start
    ensures r.Valid()
    ensures forall t :: During(r, t) <==> start <= t < finish
    ensures r.desc == desc
  {
    Appt(start, finish, desc)
  }

  /** `Appt.__eq__`: the same period; the description does not matter. */
  function SameTime(a: Appt, b: Appt): (r: bool)
    ensures r <==> a.(desc := b.desc) == b
  {
    a.start == b.start && a.finish == b.finish
  }

  /** `Appt.__lt__`: starts earlier; the finish does not matter. An
      appointment before another is never the same period as it. */
  function Lt(a: Appt, b: Appt): (r: bool)
    ensures r ==> !SameTime(a, b) && !SameTime(b, a)
  {
    a.start < b.start
  }

  /** Lt is a strict order, and two appointments neither of which is
      before the other start together. */
  lemma LtStrictOrder(a: Appt, b: Appt, c: Appt)
    ensures !Lt(a, a)
    ensures Lt(a, b) ==> !Lt(b, a)
    ensures Lt(a, b) && Lt(b, c) ==> Lt(a, c)
    ensures !Lt(a, b) && !Lt(b, a) <==> a.start == b.start
  {
  }

  /** `overlaps`: the later start comes before the earlier finish. That is
      exactly "some instant lies in both periods". */
  function Overlaps(a: Appt, b: Appt): (r: bool)
    ensures r <==> exists t :: During(a, t) && During(b, t)
  {
    var intStart := Max(a.start, b.start);
    var intFinish := Min(a.finish, b.finish);
    LaterStartShared(a, b);
    intStart < intFinish
  }

  /** When the later start comes before the earlier finish, that start
      lies in both periods. */
  lemma LaterStartShared(a: Appt, b: Appt)
    ensures Max(a.start, b.start) < Min(a.finish, b.finish) ==>
              During(a, Max(a.start, b.start)) && During(b, Max(a.start, b.start))
  {
  }

  /** Overlap does not depend on which appointment asks. */
  lemma OverlapsSymmetric(a: Appt, b: Appt)
    ensures Overlaps(a, b) == Overlaps(b, a)
  {
  }

  /** Back-to-back appointments, one finishing as the other starts, do not
      overlap. */
  lemma BackToBackNoOverlap(a: Appt, b: Appt)
    requires a.finish == b.start
    ensures !Overlaps(a, b)
  {
  }

  /** `intersect`: the shared period, described by both descriptions joined
      with " & ". The source asserts the two overlap. */
  function Intersect(a: Appt, b: Appt): (r: Appt)
    requires Overlaps(a, b)
    ensures r.Valid()
    ensures forall t :: During(r, t) <==> During(a, t) && During(b, t)
    ensures r.desc == a.desc + " & " + b.desc
  {
    MakeAppt(Max(a.start, b.start), Min(a.finish, b.finish), a.desc + " & " + b.desc)
  }

  /** The docstring's example: 13:30-15:30 and 15:00-16:00 share 15:00-15:30. */
  lemma IntersectExample(a: Appt, b: Appt)
    requires a == Appt(810, 930, "Early afternoon nap") && b == Appt(900, 960, "Coffee break")
    ensures Overlaps(a, b)
    ensures Intersect(a, b) == Appt(900, 930, "Early afternoon nap & Coffee break")
  {
    assert During(a, 900) && During(b, 900);
  }

  datatype Agenda = Agenda(elements: seq<Appt>)

  /** `Agenda()`: no appointments. */
  function NewAgenda(): (r: Agenda)
    ensures Len(r) == 0
  {
    Agenda([])
  }

  /** `append`: the appointment goes last; the others stay in place. */
  function Append(ag: Agenda, x: Appt): (r: Agenda)
    ensures Len(r) == Len(ag) + 1
    ensures r.elements[..Len(ag)] == ag.elements
    ensures r.elements[Len(ag)] == x
  {
    Agenda(ag.elements + [x])
  }

  /** `__len__`: the number of appointments, each counted as often as it
      appears. */
  function Len(ag: Agenda): (r: nat)
    ensures r == |multiset(ag.elements)|
  {
    |ag.elements|
  }

  /** Non-decreasing start times. */
  ghost predicate Sorted(s: seq<Appt>) {
    forall i, j :: 0 <= i < j < |s| ==> !Lt(s[j], s[i])
  }

  /** Places x after every appointment that does not start later: the step
      of a stable sort by start time. */
  function InsertByStart(x: Appt, s: seq<Appt>): (r: seq<Appt>)
    ensures multiset(r) == multiset(s) + multiset{x}
  {
    if |s| == 0 then [x]
    else if x.start < s[0].start then [x] + s
    else
      assert s == [s[0]] + s[1..];
      [s[0]] + InsertByStart(x, s[1..])
  }

  /** A lower bound on start times survives insertion. */
  lemma {:induction false} InsertByStartBound(x: Appt, s: seq<Appt>, m: int)
    requires m <= x.start
    requires forall i :: 0 <= i < |s| ==> m <= s[i].start
    ensures forall i :: 0 <= i < |InsertByStart(x, s)| ==> m <= InsertByStart(x, s)[i].start
  {
    if |s| > 0 && x.start >= s[0].start {
      InsertByStartBound(x, s[1..], m);
      assert InsertByStart(x, s) == [s[0]] + InsertByStart(x, s[1..]);
    }
  }

  /** Inserting into a sorted list keeps it sorted. */
  lemma {:induction false} InsertByStartSorted(x: Appt, s: seq<Appt>)
    requires Sorted(s)
    ensures Sorted(InsertByStart(x, s))
  {
    if |s| > 0 && x.start >= s[0].start {
      var rest := InsertByStart(x, s[1..]);
      InsertByStartSorted(x, s[1..]);
      InsertByStartBound(x, s[1..], s[0].start);
      assert InsertByStart(x, s) == [s[0]] + rest;
    }
  }

  /** `sort`: the list sorted by start time, keeping the order of
      appointments that start together. */
  function SortByStart(s: seq<Appt>): (r: seq<Appt>)
    ensures Sorted(r)
    ensures multiset(r) == multiset(s)
    ensures |r| == |s|
  {
    if |s| == 0 then []
    else
      var n := |s|;
      assert s == s[..n - 1] + [s[n - 1]];
      var r := InsertByStart(s[n - 1], SortByStart(s[..n - 1]));
      InsertByStartSorted(s[n - 1], SortByStart(s[..n - 1]));
      assert |r| == |multiset(r)|;
      r
  }

  function Sort(ag: Agenda): (r: Agenda)
    ensures Sorted(r.elements) && multiset(r.elements) == multiset(ag.elements)
  {
    Agenda(SortByStart(ag.elements))
  }

  /** An appointment that starts no earlier than all others goes last. */
  lemma {:induction false} InsertAtEnd(x: Appt, s: seq<Appt>)
    requires Sorted(s)
    requires forall i :: 0 <= i < |s| ==> s[i].start <= x.start
    ensures InsertByStart(x, s) == s + [x]
  {
    if |s| > 0 {
      InsertAtEnd(x, s[1..]);
      assert s == [s[0]] + s[1..];
    }
  }

  /** Sorting a sorted list changes nothing; in particular sorting twice is
      sorting once. */
  lemma {:induction false} SortSorted(s: seq<Appt>)
    requires Sorted(s)
    ensures SortByStart(s) == s
  {
    if |s| > 0 {
      var n := |s|;
      SortSorted(s[..n - 1]);
      InsertAtEnd(s[n - 1], s[..n - 1]);
      assert s[..n - 1] + [s[n - 1]] == s;
    }
  }

  lemma SortIdempotent(ag: Agenda)
    ensures Sort(Sort(ag)) == Sort(ag)
  {
    SortSorted(Sort(ag).elements);
  }

  /** Appending and sorting keep track of the length. */
  lemma LenAppendSort(ag: Agenda, x: Appt)
    ensures Len(Append(ag, x)) == Len(ag) + 1
    ensures Len(Sort(ag)) == Len(ag)
  {
  }

  /** Two lists hold appointments with the same periods, position by
      position: Python's list equality with `Appt.__eq__`. */
  predicate SameSpans(s: seq<Appt>, t: seq<Appt>) {
    |s| == |t| && forall i :: 0 <= i < |s| ==> SameTime(s[i], t[i])
  }

  /** `Agenda.__eq__`: both agendas sorted by start, then compared position
      by position on periods. Agendas that compare equal hold the same
      periods, each as many times. */
  function AgendaEquals(a: Agenda, b: Agenda): (r: bool)
    ensures r ==> Len(a) == Len(b)
    ensures r ==> forall x :: x in a.elements ==> exists y :: y in b.elements && SameTime(x, y)
    ensures r ==> multiset(Spans(a.elements)) == multiset(Spans(b.elements))
  {
    SortedPairing(a.elements, b.elements);
    SameSpans(SortByStart(a.elements), SortByStart(b.elements))
  }

  /** The period of an appointment: what `Appt.__eq__` compares. */
  function Span(a: Appt): (int, int) {
    (a.start, a.finish)
  }

  /** The periods of a list, in order. */
  function Spans(s: seq<Appt>): seq<(int, int)> {
    seq(|s|, i requires 0 <= i < |s| => Span(s[i]))
  }

  lemma SpansAppend(s: seq<Appt>, t: seq<Appt>)
    ensures Spans(s + t) == Spans(s) + Spans(t)
  {
    assert forall i :: 0 <= i < |s + t| ==> Spans(s + t)[i] == (Spans(s) + Spans(t))[i];
  }

  /** Position-by-position agreement on periods is equality of the period
      lists. */
  lemma SameSpansIffSpans(s: seq<Appt>, t: seq<Appt>)
    ensures SameSpans(s, t) <==> Spans(s) == Spans(t)
  {
    assert |Spans(s)| == |s| && |Spans(t)| == |t|;
    if Spans(s) == Spans(t) {
      forall i | 0 <= i < |s|
        ensures SameTime(s[i], t[i])
      {
        assert Span(s[i]) == Spans(s)[i] == Spans(t)[i] == Span(t[i]);
      }
    }
  }

  /** Insertion adds the inserted appointment's period to the periods. */
  lemma {:induction false} InsertSpans(x: Appt, s: seq<Appt>)
    ensures multiset(Spans(InsertByStart(x, s))) == multiset(Spans(s)) + multiset{Span(x)}
  {
    if |s| == 0 {
      assert Spans([x]) == [Span(x)];
    } else if x.start < s[0].start {
      SpansAppend([x], s);
      assert Spans([x]) == [Span(x)];
    } else {
      InsertSpans(x, s[1..]);
      assert s == [s[0]] + s[1..];
      SpansAppend([s[0]], s[1..]);
      SpansAppend([s[0]], InsertByStart(x, s[1..]));
      assert Spans([s[0]]) == [Span(s[0])];
    }
  }

  /** Sorting keeps the same periods, each as many times. */
  lemma {:induction false} SortSpans(s: seq<Appt>)
    ensures multiset(Spans(SortByStart(s))) == multiset(Spans(s))
  {
    if |s| > 0 {
      var n := |s|;
      var init, last := s[..n - 1], s[n - 1];
      SortByStartLast(s);
      SortSpans(init);
      InsertSpans(last, SortByStart(init));
      SpansLast(s);
    }
  }

  /** The sort of a non-empty list inserts its last element into the sort
      of the rest. */
  lemma SortByStartLast(s: seq<Appt>)
    requires |s| > 0
    ensures SortByStart(s) == InsertByStart(s[|s| - 1], SortByStart(s[..|s| - 1]))
  {
  }

  lemma SpansLast(s: seq<Appt>)
    requires |s| > 0
    ensures Spans(s) == Spans(s[..|s| - 1]) + [Span(s[|s| - 1])]
  {
  }

  /** The facts AgendaEquals promises, from the comparison of the sorted
      lists. */
  lemma SortedPairing(s: seq<Appt>, t: seq<Appt>)
    ensures SameSpans(SortByStart(s), SortByStart(t)) ==>
              && |s| == |t|
              && (forall x :: x in s ==> exists y :: y in t && SameTime(x, y))
              && multiset(Spans(s)) == multiset(Spans(t))
  {
    var ss, st := SortByStart(s), SortByStart(t);
    if SameSpans(ss, st) {
      forall x | x in s
        ensures exists y :: y in t && SameTime(x, y)
      {
        assert x in multiset(ss);
        var i :| 0 <= i < |ss| && ss[i] == x;
        assert st[i] in multiset(t);
      }
      assert multiset(Spans(s)) == multiset(Spans(t)) by {
        SameSpansIffSpans(ss, st);
        SortSpans(s);
        SortSpans(t);
      }
    }
  }

  /** Inserting appointments with the same period into lists with the same
      periods gives lists with the same periods: the sort looks only at
      start times. */
  lemma {:induction false} InsertSameSpans(x: Appt, s: seq<Appt>, y: Appt, t: seq<Appt>)
    requires Span(x) == Span(y) && Spans(s) == Spans(t)
    ensures Spans(InsertByStart(x, s)) == Spans(InsertByStart(y, t))
  {
    assert |s| == |Spans(s)| == |t|;
    if |s| == 0 {
      assert Spans([x]) == [Span(x)] && Spans([y]) == [Span(y)];
    } else {
      assert Span(s[0]) == Spans(s)[0] == Span(t[0]);
      assert s == [s[0]] + s[1..] && t == [t[0]] + t[1..];
      SpansAppend([s[0]], s[1..]);
      SpansAppend([t[0]], t[1..]);
      assert Spans([s[0]]) == [Span(s[0])] && Spans([t[0]]) == [Span(t[0])];
      if x.start < s[0].start {
        SpansAppend([x], s);
        SpansAppend([y], t);
        assert Spans([x]) == [Span(x)] && Spans([y]) == [Span(y)];
      } else {
        assert Spans(s[1..]) == Spans(s)[1..] == Spans(t)[1..] == Spans(t[1..]);
        InsertSameSpans(x, s[1..], y, t[1..]);
        SpansAppend([s[0]], InsertByStart(x, s[1..]));
        SpansAppend([t[0]], InsertByStart(y, t[1..]));
      }
    }
  }

  /** Lists with the same periods sort to lists with the same periods. */
  lemma {:induction false} SortSameSpans(s: seq<Appt>, t: seq<Appt>)
    requires Spans(s) == Spans(t)
    ensures Spans(SortByStart(s)) == Spans(SortByStart(t))
  {
    assert |s| == |Spans(s)| == |t|;
    if |s| > 0 {
      var n := |s|;
      assert s == s[..n - 1] + [s[n - 1]] && t == t[..n - 1] + [t[n - 1]];
      SpansAppend(s[..n - 1], [s[n - 1]]);
      SpansAppend(t[..n - 1], [t[n - 1]]);
      assert Spans(s[..n - 1]) == Spans(s)[..n - 1] == Spans(t[..n - 1]);
      assert Span(s[n - 1]) == Spans(s)[n - 1] == Span(t[n - 1]);
      SortSameSpans(s[..n - 1], t[..n - 1]);
      InsertSameSpans(s[n - 1], SortByStart(s[..n - 1]), t[n - 1], SortByStart(t[..n - 1]));
    }
  }

  /** Agendas whose lists agree position by position under `Appt.__eq__`,
      such as two agendas built by appending equal appointments in the
      same order, compare equal. */
  lemma AgendaEqualsWhenSameSpans(a: Agenda, b: Agenda)
    requires SameSpans(a.elements, b.elements)
    ensures AgendaEquals(a, b)
  {
    SameSpansIffSpans(a.elements, b.elements);
    SortSameSpans(a.elements, b.elements);
    SameSpansIffSpans(SortByStart(a.elements), SortByStart(b.elements));
  }

  /** Equal agendas hold each period equally often: x twice and y once
      does not equal x once and y twice. */
  lemma AgendaEqualsCountsRepeats(x: Appt, y: Appt, a: Agenda, b: Agenda)
    requires x == Appt(0, 10, "x") && y == Appt(20, 30, "y")
    requires a.elements == [x, x, y] && b.elements == [x, y, y]
    ensures !AgendaEquals(a, b)
  {
    assert Spans(a.elements) == [Span(x), Span(x), Span(y)];
    assert Spans(b.elements) == [Span(x), Span(y), Span(y)];
    assert multiset(Spans(a.elements))[Span(x)] == 2;
    assert multiset(Spans(b.elements))[Span(x)] == 1;
  }

  lemma AgendaEqualsReflexiveSymmetric(a: Agenda, b: Agenda)
    ensures AgendaEquals(a, a)
    ensures AgendaEquals(a, b) == AgendaEquals(b, a)
  {
  }

  /** Because the sort is stable and keyed on start alone, two agendas with
      the same appointments can compare unequal when appointments sharing a
      start were appended in a different order. */
  lemma AgendaEqualsOrderSensitive(x: Appt, y: Appt, a: Agenda, b: Agenda)
    requires x == Appt(60, 120, "a") && y == Appt(60, 90, "b")
    requires a == Agenda([x, y]) && b == Agenda([y, x])
    ensures multiset(a.elements) == multiset(b.elements)
    ensures !AgendaEquals(a, b)
  {
    assert Sorted(a.elements) && Sorted(b.elements);
    SortSorted(a.elements);
    SortSorted(b.elements);
    assert !SameTime(x, y);
  }

  /** Python's `list.index(x)` under `Appt.__eq__`: the first position
      holding an appointment with x's period. */
  function IndexOf(s: seq<Appt>, x: Appt): (k: nat)
    requires x in s
    ensures k < |s| && SameTime(s[k], x)
    ensures forall j :: 0 <= j < k ==> !SameTime(s[j], x)
  {
    if SameTime(s[0], x) then 0
    else
      assert x in s[1..];
      1 + IndexOf(s[1..], x)
  }

  /** The position of an element is at or before the element itself. */
  lemma IndexOfAtMost(s: seq<Appt>, p: nat)
    requires p < |s|
    ensures IndexOf(s, s[p]) <= p
  {
  }

  /** x is the intersection of s[p] with the overlapping s[q]. */
  ghost predicate Conflict(s: seq<Appt>, p: int, q: int, x: Appt) {
    0 <= p < |s| && 0 <= q < |s| && Overlaps(s[p], s[q]) && x == Intersect(s[p], s[q])
  }

  /** The conflicts that s[p] contributes from positions lo..hi-1, without
      the early exit. */
  function Row(s: seq<Appt>, p: nat, lo: nat, hi: nat): seq<Appt>
    requires p < |s| && hi <= |s|
    decreases hi
  {
    if hi <= lo then []
    else Row(s, p, lo, hi - 1) + (if Overlaps(s[p], s[hi - 1]) then [Intersect(s[p], s[hi - 1])] else [])
  }

  /** What a row holds: the intersections of s[p] with the overlapping
      appointments in lo..hi-1. */
  lemma {:induction false} RowMembers(s: seq<Appt>, p: nat, lo: nat, hi: nat)
    requires p < |s| && hi <= |s|
    ensures forall x :: x in Row(s, p, lo, hi) ==> exists q :: lo <= q < hi && Conflict(s, p, q, x)
    ensures forall x, q :: lo <= q < hi && Conflict(s, p, q, x) ==> x in Row(s, p, lo, hi)
    decreases hi
  {
    if hi > lo {
      RowMembers(s, p, lo, hi - 1);
      var prev := Row(s, p, lo, hi - 1);
      if Overlaps(s[p], s[hi - 1]) {
        var y := Intersect(s[p], s[hi - 1]);
        assert Row(s, p, lo, hi) == prev + [y];
        assert Conflict(s, p, hi - 1, y);
      } else {
        assert Row(s, p, lo, hi) == prev;
      }
    }
  }

  /** In a sorted list, once an appointment starts after s[p] finishes,
      nothing from there on overlaps s[p]: the early exit loses nothing. */
  lemma {:induction false} RowTail(s: seq<Appt>, p: nat, lo: nat, q: nat, hi: nat)
    requires Sorted(s) && p < |s| && lo <= q <= hi <= |s| && q < |s|
    requires s[q].start > s[p].finish
    ensures Row(s, p, lo, hi) == Row(s, p, lo, q)
    decreases hi
  {
    if hi > q {
      RowTail(s, p, lo, q, hi - 1);
      assert !Lt(s[hi - 1], s[q]) || hi - 1 == q;
    }
  }

  /** The conflicts as the source computes them over the first n
      positions: row p starts after the first appointment with s[p]'s
      period. */
  function AllRows(s: seq<Appt>, n: nat): seq<Appt>
    requires n <= |s|
  {
    if n == 0 then []
    else AllRows(s, n - 1) + Row(s, n - 1, IndexOf(s, s[n - 1]) + 1, |s|)
  }

  /** What the source's conflicts hold: the intersection of s[p] with every
      overlapping s[q] where q lies after the first position with s[p]'s
      period. */
  lemma {:induction false} AllRowsMembers(s: seq<Appt>, n: nat)
    requires n <= |s|
    ensures forall x :: x in AllRows(s, n) ==>
              exists p, q :: 0 <= p < n && IndexOf(s, s[p]) < q && Conflict(s, p, q, x)
    ensures forall x, p, q :: 0 <= p < n && IndexOf(s, s[p]) < q && Conflict(s, p, q, x) ==>
              x in AllRows(s, n)
  {
    if n > 0 {
      AllRowsMembers(s, n - 1);
      var k := IndexOf(s, s[n - 1]);
      var prev, row := AllRows(s, n - 1), Row(s, n - 1, k + 1, |s|);
      RowMembers(s, n - 1, k + 1, |s|);
      assert AllRows(s, n) == prev + row;
      forall x | x in prev + row
        ensures exists p, q :: 0 <= p < n && IndexOf(s, s[p]) < q && Conflict(s, p, q, x)
      {
        if x !in prev {
          var q :| k + 1 <= q < |s| && Conflict(s, n - 1, q, x);
        }
      }
    }
  }

  /** `conflicts`: sorts the agenda, then for each appointment scans the
      appointments after the first one with its period, stopping at the
      first that starts after it finishes, and collects the intersections.
      Returns the sorted agenda (the side effect) and the conflicts. */
  method Conflicts(ag: Agenda) returns (sorted: Agenda, result: Agenda)
    ensures sorted == Sort(ag)
    ensures result.elements == AllRows(sorted.elements, |sorted.elements|)
    ensures forall p, q :: 0 <= p < q < |sorted.elements| && Overlaps(sorted.elements[p], sorted.elements[q]) ==>
              Intersect(sorted.elements[p], sorted.elements[q]) in result.elements
    ensures forall x :: x in result.elements ==>
              exists a, b :: a in ag.elements && b in ag.elements && Overlaps(a, b) && x == Intersect(a, b)
  {
    sorted := Sort(ag);
    var s := sorted.elements;
    var acc: seq<Appt> := [];
    for p := 0 to |s|
      invariant acc == AllRows(s, p)
    {
      var row := ScanRow(s, p);
      acc := acc + row;
    }
    result := Agenda(acc);
    ConflictsComplete(s);
    ConflictsSound(s);
    SoundInAgenda(ag, s, acc);
  }

  /** The inner loop of `conflicts` for the appointment at position p:
      from just after the first appointment with s[p]'s period, collect
      intersections until an appointment starts after s[p] finishes. */
  method ScanRow(s: seq<Appt>, p: nat) returns (row: seq<Appt>)
    requires Sorted(s) && p < |s|
    ensures row == Row(s, p, IndexOf(s, s[p]) + 1, |s|)
  {
    var k := IndexOf(s, s[p]);
    var q := k + 1;
    row := [];
    while q < |s|
      invariant k + 1 <= q <= |s|
      invariant row == Row(s, p, k + 1, q)
    {
      if s[q].start > s[p].finish {
        RowTail(s, p, k + 1, q, |s|);
        return;
      } else if Overlaps(s[p], s[q]) {
        row := row + [Intersect(s[p], s[q])];
      }
      q := q + 1;
    }
  }

  /** Every overlapping pair p < q of the sorted agenda is reported. */
  lemma ConflictsComplete(s: seq<Appt>)
    ensures forall p, q :: 0 <= p < q < |s| && Overlaps(s[p], s[q]) ==> Intersect(s[p], s[q]) in AllRows(s, |s|)
  {
    AllRowsMembers(s, |s|);
    forall p, q | 0 <= p < q < |s| && Overlaps(s[p], s[q])
      ensures Intersect(s[p], s[q]) in AllRows(s, |s|)
    {
      IndexOfAtMost(s, p);
      assert Conflict(s, p, q, Intersect(s[p], s[q]));
    }
  }

  /** Everything reported is the intersection of two overlapping
      appointments of s. */
  lemma ConflictsSound(s: seq<Appt>)
    ensures forall x :: x in AllRows(s, |s|) ==>
              exists a, b :: a in s && b in s && Overlaps(a, b) && x == Intersect(a, b)
  {
    AllRowsMembers(s, |s|);
    forall x | x in AllRows(s, |s|)
      ensures exists a, b :: a in s && b in s && Overlaps(a, b) && x == Intersect(a, b)
    {
      var p, q :| 0 <= p < |s| && IndexOf(s, s[p]) < q && Conflict(s, p, q, x);
      assert s[p] in s && s[q] in s;
    }
  }

  /** Soundness carried from the sorted list back to the agenda it
      permutes. */
  lemma SoundInAgenda(ag: Agenda, s: seq<Appt>, r: seq<Appt>)
    requires multiset(s) == multiset(ag.elements)
    requires forall x :: x in r ==> exists a, b :: a in s && b in s && Overlaps(a, b) && x == Intersect(a, b)
    ensures forall x :: x in r ==>
              exists a, b :: a in ag.elements && b in ag.elements && Overlaps(a, b) && x == Intersect(a, b)
  {
    forall x | x in r
      ensures exists a, b :: a in ag.elements && b in ag.elements && Overlaps(a, b) && x == Intersect(a, b)
    {
      var a, b :| a in s && b in s && Overlaps(a, b) && x == Intersect(a, b);
      assert a in multiset(s) && b in multiset(s);
    }
  }

  /** The usage example: 13:30-15:30 and 15:00-16:00 yield exactly one
      conflict, 15:00-15:30. */
  lemma ConflictsExample(a: Appt, b: Appt, s: seq<Appt>)
    requires a == Appt(810, 930, "Early afternoon nap") && b == Appt(900, 960, "Coffee break")
    requires s == [a, b]
    ensures SortByStart(s) == s
    ensures AllRows(s, 2) == [Appt(900, 930, "Early afternoon nap & Coffee break")]
  {
    assert Sorted(s);
    SortSorted(s);
    IntersectExample(a, b);
    ExampleScanStarts(a, b, s);
    assert Row(s, 0, 1, 2) == [Intersect(a, b)] by {
      assert Row(s, 0, 1, 1) == [];
    }
    assert Row(s, 1, 2, 2) == [];
    assert AllRows(s, 1) == Row(s, 0, 1, 2) by {
      assert AllRows(s, 0) == [];
    }
  }

  /** In the usage example each appointment is the first with its period. */
  lemma ExampleScanStarts(a: Appt, b: Appt, s: seq<Appt>)
    requires a == Appt(810, 930, "Early afternoon nap") && b == Appt(900, 960, "Coffee break")
    requires s == [a, b]
    ensures IndexOf(s, s[0]) == 0 && IndexOf(s, s[1]) == 1
  {
    assert !SameTime(s[0], s[1]);
    assert s[1..][0] == b;
  }

  /** Two appointments with the same period (the module's own two coffee
      breaks): the source reports the pair, and then also each second
      appointment intersected with itself, since `index` finds the first. */
  lemma SelfIntersection(a: Appt, b: Appt, s: seq<Appt>)
    requires a == Appt(900, 960, "Coffee break") && b == a && s == [a, b]
    ensures SortByStart(s) == s
    ensures AllRows(s, 2) == [Intersect(s[0], s[1]), Intersect(s[1], s[1])]
    ensures |DistinctRows(s, 2)| == 1
  {
    SortSorted(s);
    assert Overlaps(a, a) by {
      assert During(a, 900);
    }
    assert IndexOf(s, s[1]) == 0 && IndexOf(s, s[0]) == 0;
    assert Row(s, 0, 1, 2) == [Intersect(a, b)] by {
      assert Row(s, 0, 1, 1) == [];
    }
    assert Row(s, 1, 1, 2) == [Intersect(b, b)] by {
      assert Row(s, 1, 1, 1) == [];
    }
    assert Row(s, 1, 2, 2) == [];
    assert AllRows(s, 1) == Row(s, 0, 1, 2) by {
      assert AllRows(s, 0) == [];
    }
    assert DistinctRows(s, 1) == Row(s, 0, 1, 2) by {
      assert DistinctRows(s, 0) == [];
    }
  }

  /** The conflicts with each row starting right after p itself: every
      unordered pair once, never an appointment with itself. */
  function DistinctRows(s: seq<Appt>, n: nat): seq<Appt>
    requires n <= |s|
  {
    if n == 0 then []
    else DistinctRows(s, n - 1) + Row(s, n - 1, n, |s|)
  }

  /** The corrected conflicts are exactly the intersections of overlapping
      pairs p < q. */
  lemma {:induction false} DistinctRowsMembers(s: seq<Appt>, n: nat)
    requires n <= |s|
    ensures forall x :: x in DistinctRows(s, n) ==> exists p, q :: 0 <= p < n && p < q && Conflict(s, p, q, x)
    ensures forall x, p, q :: 0 <= p < n && p < q && Conflict(s, p, q, x) ==> x in DistinctRows(s, n)
  {
    if n > 0 {
      DistinctRowsMembers(s, n - 1);
      var prev, row := DistinctRows(s, n - 1), Row(s, n - 1, n, |s|);
      RowMembers(s, n - 1, n, |s|);
      assert DistinctRows(s, n) == prev + row;
      forall x | x in prev + row
        ensures exists p, q :: 0 <= p < n && p < q && Conflict(s, p, q, x)
      {
        if x !in prev {
          var q :| n <= q < |s| && Conflict(s, n - 1, q, x);
        }
      }
    }
  }

  /** When no two appointments share a period, the source's conflicts and
      the corrected ones coincide. */
  lemma {:induction false} RowsAgreeOnDistinctSpans(s: seq<Appt>, n: nat)
    requires n <= |s|
    requires forall i, j :: 0 <= i < j < |s| ==> !SameTime(s[i], s[j])
    ensures AllRows(s, n) == DistinctRows(s, n)
  {
    if n > 0 {
      RowsAgreeOnDistinctSpans(s, n - 1);
      assert IndexOf(s, s[n - 1]) == n - 1;
    }
  }
}
