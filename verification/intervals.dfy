/** lab1's closed integer intervals [low..high]: construction that rejects
    an inverted pair, membership, overlap, equality and the join (the
    smallest interval covering both). */
module Intervals {
  import opened Wrappers

  datatype Interval = Interval(low: int, high: int) {
    /** The constructor's invariant. */
    predicate Valid() {
      low <= high
    }
  }

  /** Python's `k in range(a, b)` for integers. */
  predicate InRange(k: int, a: int, b: int) {
    a <= k < b
  }

  /** `Intervals(low, high)`: ValueError when low exceeds high. */
  function MakeInterval(low: int, high: int): (r: Result<Interval>)
    ensures r.Err? <==> low > high
    ensures r.Err? ==> r.error == ValueError
    ensures r.Ok? ==> r.value.Valid() && r.value.low == low && r.value.high == high
  {
    if low > high then Err(ValueError) else Ok(Interval(low, high))
  }

  /** `contains`: membership of i in the interval. */
  function Contains(iv: Interval, i: int): (r: bool)
    ensures r <==> iv.low <= i <= iv.high
  {
    InRange(i, iv.low, iv.high + 1)
  }

  /** `overlaps`: either end of the other interval lies in this one, or the
      other interval strictly encloses this one. For intervals built by the
      constructor this is exactly "they share an integer". */
  function Overlaps(a: Interval, b: Interval): (r: bool)
    ensures a.Valid() && b.Valid() ==> (r <==> b.low <= a.high && a.low <= b.high)
    ensures a.Valid() && b.Valid() ==> (r <==> exists k :: Contains(a, k) && Contains(b, k))
  {
    SharedMember(a, b);
    if InRange(b.low, a.low, a.high + 1) || InRange(b.high, a.low, a.high + 1) then true
    else if b.low < a.low && b.high > a.high then true
    else false
  }

  /** Two valid intervals that reach each other share the larger of their
      lower ends. */
  lemma SharedMember(a: Interval, b: Interval)
    ensures a.Valid() && b.Valid() && b.low <= a.high && a.low <= b.high ==>
              exists k :: Contains(a, k) && Contains(b, k)
  {
    if a.Valid() && b.Valid() && b.low <= a.high && a.low <= b.high {
      var k := if a.low <= b.low then b.low else a.low;
      assert Contains(a, k) && Contains(b, k);
    }
  }

  /** Overlap does not depend on which interval asks. */
  lemma OverlapsSymmetric(a: Interval, b: Interval)
    requires a.Valid() && b.Valid()
    ensures Overlaps(a, b) == Overlaps(b, a)
  {
  }

  /** `__eq__`: both ends agree. */
  function Equals(a: Interval, b: Interval): (r: bool)
    ensures r <==> a == b
  {
    a.low == b.low && a.high == b.high
  }

  /** Two valid intervals are equal exactly when they hold the same
      integers. */
  lemma EqualsIffSameMembers(a: Interval, b: Interval)
    requires a.Valid() && b.Valid()
    ensures Equals(a, b) <==> forall k :: Contains(a, k) <==> Contains(b, k)
  {
    if forall k :: Contains(a, k) <==> Contains(b, k) {
      assert Contains(a, a.low) && Contains(b, b.low);
      assert Contains(a, a.high) && Contains(b, b.high);
    }
  }

  /** `join`: the interval from the smaller low end to the larger high end,
      built through the constructor. */
  function Join(a: Interval, b: Interval): (r: Result<Interval>)
    ensures a.Valid() && b.Valid() ==> r.Ok? && r.value.Valid()
    ensures r.Ok? ==> forall k :: Contains(a, k) || Contains(b, k) ==> Contains(r.value, k)
    ensures a.Valid() && b.Valid() ==>
              && (Contains(a, r.value.low) || Contains(b, r.value.low))
              && (Contains(a, r.value.high) || Contains(b, r.value.high))
  {
    var low := if a.low <= b.low then a.low else b.low;
    var high := if a.high >= b.high then a.high else b.high;
    MakeInterval(low, high)
  }

  /** The join is the least interval covering both: any valid interval that
      covers both also covers the join. The join may cover more than the
      union: the gap between disjoint intervals. */
  lemma JoinLeast(a: Interval, b: Interval, c: Interval)
    requires a.Valid() && b.Valid() && c.Valid()
    requires forall k :: Contains(a, k) || Contains(b, k) ==> Contains(c, k)
    ensures Join(a, b).Ok?
    ensures forall k :: Contains(Join(a, b).value, k) ==> Contains(c, k)
  {
    assert Contains(a, a.low) && Contains(b, b.low);
    assert Contains(a, a.high) && Contains(b, b.high);
  }

  /** The module's examples: [3..5] holds 4 but not 2, joined with [2..4]
      gives [2..5], and the two overlap. */
  lemma Examples(i: Interval, m: Interval)
    requires i == Interval(3, 5) && m == Interval(2, 4)
    ensures Contains(i, 4) && !Contains(i, 2)
    ensures Join(i, m) == Ok(Interval(2, 5))
    ensures Overlaps(i, m)
  {
  }
}
