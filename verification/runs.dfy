/** class_1's list functions: whether all elements are equal, removing
    adjacent repeats, and the length of the longest run of equal adjacent
    elements. */
module ListRuns {
  import opened Numbers

  /** Every element equals every other. */
  ghost predicate AllEqual<T>(l: seq<T>) {
    forall a, b :: 0 <= a < b < |l| ==> l[a] == l[b]
  }

  /** No element equals its right neighbour. */
  ghost predicate NoAdjacentRepeats<T>(l: seq<T>) {
    forall k :: 0 < k < |l| ==> l[k - 1] != l[k]
  }

  /** `all_same`: compares each element with its right neighbour and stops
      at the first difference. */
  method AllSame<T(==)>(l: seq<T>) returns (same: bool)
    ensures same <==> AllEqual(l)
    ensures same <==> forall k :: 0 < k < |l| ==> l[k - 1] == l[k]
  {
    var i, j := 0, 1;
    if |l| > 1 {
      while j < |l|
        invariant 1 <= j <= |l| && i == j - 1
        invariant forall k :: 0 <= k < j ==> l[k] == l[0]
      {
        if l[i] != l[j] {
          return false;
        }
        i, j := i + 1, j + 1;
      }
    }
    return true;
  }

  /** The module's examples: four 1s are all the same, so is the empty
      list, and 1, 3, 1 is not. */
  lemma AllEqualExamples(a: seq<int>, e: seq<int>, c: seq<int>)
    requires a == [1, 1, 1, 1] && e == [] && c == [1, 3, 1]
    ensures AllEqual(a) && AllEqual(e) && !AllEqual(c)
  {
    assert c[0] != c[1];
  }

  /** The first element of each run of equal adjacent elements, in order:
      the reference for `dedup`. */
  function RunHeads<T(==)>(l: seq<T>): seq<T>
  {
    if |l| <= 1 then l
    else if l[0] == l[1] then RunHeads(l[1..])
    else [l[0]] + RunHeads(l[1..])
  }

  /** `dedup`: walks a copy of the list, deleting each element equal to the
      last one kept. */
  method Dedup<T(==)>(l: seq<T>) returns (r: seq<T>)
    ensures r == RunHeads(l)
    ensures NoAdjacentRepeats(r)
    ensures |r| <= |l| && (|l| == 0 <==> |r| == 0)
    ensures forall x :: x in r <==> x in l
  {
    var i, j := 0, 1;
    var copy := l;
    if |copy| > 1 {
      while j < |copy|
        invariant 1 <= j <= |copy| && i == j - 1
        invariant RunHeads(l) == copy[..i] + RunHeads(copy[i..])
        decreases |copy| - j
      {
        if copy[i] == copy[j] {
          ghost var before := copy;
          assert before[i..][1..] == before[j..];
          copy := copy[..j] + copy[j + 1..];
          assert copy[..i] == before[..i];
          assert copy[i..] == before[j..];
        } else {
          assert copy[i..][1..] == copy[j..];
          assert copy[..i] + [copy[i]] == copy[..j];
          i, j := i + 1, j + 1;
        }
      }
      assert copy[i..] == [copy[i]];
      assert copy[..i] + [copy[i]] == copy;
    }
    r := copy;
    RunHeadsProperties(l);
  }

  /** RunHeads keeps the first element, has no adjacent repeats, is no
      longer than the input, and keeps exactly the input's elements. */
  lemma {:induction false} RunHeadsProperties<T>(l: seq<T>)
    ensures |l| > 0 ==> |RunHeads(l)| > 0 && RunHeads(l)[0] == l[0]
    ensures NoAdjacentRepeats(RunHeads(l))
    ensures |RunHeads(l)| <= |l| && (|l| == 0 <==> |RunHeads(l)| == 0)
    ensures forall x :: x in RunHeads(l) <==> x in l
  {
    if |l| > 1 {
      RunHeadsProperties(l[1..]);
      assert l == [l[0]] + l[1..];
    }
  }

  /** A list without adjacent repeats is its own RunHeads. */
  lemma {:induction false} RunHeadsOfDistinctNeighbours<T>(l: seq<T>)
    requires NoAdjacentRepeats(l)
    ensures RunHeads(l) == l
  {
    if |l| > 1 {
      RunHeadsOfDistinctNeighbours(l[1..]);
      assert l == [l[0]] + l[1..];
    }
  }

  /** Removing adjacent repeats twice removes nothing more. */
  lemma RunHeadsIdempotent<T>(l: seq<T>)
    ensures RunHeads(RunHeads(l)) == RunHeads(l)
  {
    RunHeadsProperties(l);
    RunHeadsOfDistinctNeighbours(RunHeads(l));
  }

  /** The module's examples: [1, 1, 2, 1, 1] becomes [1, 2, 1]; only
      adjacent repeats go, so 1 appears twice. [1] stays as it is. */
  lemma RunHeadsExample(l: seq<int>)
    requires l == [1, 1, 2, 1, 1]
    ensures RunHeads(l) == [1, 2, 1]
    ensures RunHeads([1]) == [1]
  {
    assert RunHeads([1, 1]) == RunHeads([1]) == [1] by {
      assert [1, 1][1..] == [1];
    }
    assert RunHeads([2, 1, 1]) == [2, 1] by {
      assert [2, 1, 1][1..] == [1, 1];
    }
    assert RunHeads([1, 2, 1, 1]) == [1, 2, 1] by {
      assert [1, 2, 1, 1][1..] == [2, 1, 1];
    }
    assert l[1..] == [1, 2, 1, 1];
  }

  /** Positions a..b-1 hold one repeated value. */
  ghost predicate Uniform<T>(l: seq<T>, a: int, b: int) {
    0 <= a < b <= |l| && forall k :: a <= k < b ==> l[k] == l[a]
  }

  /** A run of length n starts at position a. */
  ghost predicate RunAt<T>(l: seq<T>, a: int, n: int) {
    Uniform(l, a, a + n)
  }

  /** n is the length of a longest run: some run has length n and none is
      longer; 0 for the empty list. */
  ghost predicate IsLongestRun<T>(l: seq<T>, n: int) {
    && (|l| == 0 ==> n == 0)
    && (|l| > 0 ==> exists a :: RunAt(l, a, n))
    && (forall a, b :: Uniform(l, a, b) ==> b - a <= n)
  }

  /** `max_run`: scans runs with i at the start of the current run and j
      one past its end, keeping the longest length seen. */
  method MaxRun<T(==)>(l: seq<T>) returns (currMax: int)
    ensures IsLongestRun(l, currMax)
    ensures |l| > 0 ==> 1 <= currMax <= |l|
  {
    var i, j := 0, 1;
    currMax := 0;
    if |l| >= 1 {
      currMax := currMax + 1;
      ghost var best := 0;
      while j < |l|
        invariant 0 <= i < j <= |l|
        invariant Uniform(l, i, j)
        invariant i == 0 || l[i - 1] != l[i]
        invariant RunAt(l, best, currMax)
        invariant forall a, b :: Uniform(l, a, b) && b <= i ==> b - a <= currMax
      {
        if l[i] == l[j] {
          j := j + 1;
        } else {
          forall a, b | Uniform(l, a, b) && b <= j
            ensures b - a <= Max(currMax, j - i)
          {
            assert a >= i || b <= i;
          }
          if j - i > currMax {
            best := i;
            assert RunAt(l, i, j - i);
          }
          currMax := Max(currMax, j - i);
          i := j;
          j := j + 1;
        }
      }
      forall a, b | Uniform(l, a, b)
        ensures b - a <= Max(currMax, j - i)
      {
        assert a >= i || b <= i;
      }
      if j - i > currMax {
        best := i;
        assert RunAt(l, i, j - i);
      }
      currMax := Max(currMax, j - i);
      assert RunAt(l, best, currMax);
    }
  }

  /** The longest-run length is determined by the list. */
  lemma LongestRunUnique<T>(l: seq<T>, m: int, n: int)
    requires IsLongestRun(l, m) && IsLongestRun(l, n)
    ensures m == n
  {
    if |l| > 0 {
      var a :| RunAt(l, a, m);
      var c :| RunAt(l, c, n);
      assert Uniform(l, a, a + m) && Uniform(l, c, c + n);
    }
  }

  /** A non-empty list is all one value exactly when its longest run is the
      whole list: `all_same` and `max_run` agree. */
  lemma AllEqualIffWholeRun<T>(l: seq<T>)
    requires |l| > 0
    ensures AllEqual(l) <==> IsLongestRun(l, |l|)
  {
    if AllEqual(l) {
      assert RunAt(l, 0, |l|);
    }
    if IsLongestRun(l, |l|) {
      var a :| RunAt(l, a, |l|);
      assert a == 0;
    }
  }

  /** The module's examples: the longest run in [1, 1, 3, 3, 3, 5] is the
      three 3s, so is the one in [3, 4, 5, 5, 5], and the empty list has
      none. */
  lemma MaxRunExamples(l: seq<int>, m: seq<int>, e: seq<int>)
    requires l == [1, 1, 3, 3, 3, 5] && m == [3, 4, 5, 5, 5] && e == []
    ensures IsLongestRun(l, 3)
    ensures IsLongestRun(m, 3)
    ensures IsLongestRun(e, 0)
  {
    assert RunAt(l, 2, 3);
    forall a, b | Uniform(l, a, b)
      ensures b - a <= 3
    {
      assert l[1] != l[2] && l[4] != l[5];
      assert a >= 2 || b <= 2;
      assert b <= 5 || a >= 5;
    }
    assert RunAt(m, 2, 3);
    forall a, b | Uniform(m, a, b)
      ensures b - a <= 3
    {
      assert m[0] != m[1] && m[1] != m[2];
      assert a >= 2 || b <= 2;
      assert a >= 1 || b <= 1;
    }
  }
}
