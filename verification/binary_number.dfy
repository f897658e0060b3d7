/** lab7's BinaryNumber: a number held as a list of binary digits, most
    significant digit first, with digit-wise `|` and `&`, one-place shifts
    that keep the length, and extraction of a range of digit positions
    counted from the least significant end. */
module BinaryNumbers {
  import opened Wrappers
  import opened Binary
  import BitFields

  datatype BinaryNumber = BinaryNumber(bits: seq<int>)

  /** `[0 for _ in range(k)]`: k zeros, none when k is not positive. */
  function Zeros(k: int): (z: seq<int>)
    ensures |z| == (if k > 0 then k else 0)
    ensures forall i :: 0 <= i < |z| ==> z[i] == 0
  {
    if k > 0 then seq(k, _ => 0) else []
  }

  /** Zero padding in front does not change the value. */
  lemma PaddingValue(k: int, s: seq<int>)
    ensures FromBits(Zeros(k) + s) == FromBits(s)
  {
    if k > 0 {
      FromBitsZeros(k, s);
    } else {
      assert Zeros(k) + s == s;
    }
  }

  /** Python's normalisation of a slice bound k on a list of length n:
      a negative bound counts from the end, and the result is clamped to
      0..n. */
  function PyIndex(k: int, n: nat): (r: nat)
    ensures r <= n
    ensures 0 <= k <= n ==> r == k
    ensures k < 0 && 0 <= k + n ==> r == k + n
    ensures k + n < 0 ==> r == 0
    ensures n < k ==> r == n
  {
    if k < 0 then (if k + n < 0 then 0 else k + n)
    else if k > n then n else k
  }

  /** Python's `s[i:j]`. */
  function PySlice<T>(s: seq<T>, i: int, j: int): (r: seq<T>)
    ensures PyIndex(i, |s|) < PyIndex(j, |s|) ==> r == s[PyIndex(i, |s|)..PyIndex(j, |s|)]
    ensures PyIndex(j, |s|) <= PyIndex(i, |s|) ==> r == []
  {
    var lo, hi := PyIndex(i, |s|), PyIndex(j, |s|);
    if lo < hi then s[lo..hi] else []
  }

  /** `__or__`: a 1 wherever either operand holds a non-zero digit;
      ValueError when the lengths differ. */
  method Or(x: BinaryNumber, y: BinaryNumber) returns (r: Result<BinaryNumber>)
    ensures r.Err? <==> |x.bits| != |y.bits|
    ensures r.Err? ==> r.error == ValueError
    ensures r.Ok? ==> |r.value.bits| == |x.bits| && IsBitList(r.value.bits)
    ensures r.Ok? ==> forall i :: 0 <= i < |x.bits| ==>
              (r.value.bits[i] == 1 <==> x.bits[i] != 0 || y.bits[i] != 0)
    ensures r.Ok? && IsBitList(x.bits) && IsBitList(y.bits) ==>
              && 0 <= FromBits(x.bits) && 0 <= FromBits(y.bits)
              && FromBits(r.value.bits) == NatOr(FromBits(x.bits), FromBits(y.bits))
  {
    if |x.bits| != |y.bits| {
      return Err(ValueError);
    }
    var bitArray: seq<int> := [];
    for i := 0 to |x.bits|
      invariant |bitArray| == i && IsBitList(bitArray)
      invariant forall k :: 0 <= k < i ==> (bitArray[k] == 1 <==> x.bits[k] != 0 || y.bits[k] != 0)
    {
      if x.bits[i] == 0 && y.bits[i] == 0 {
        bitArray := bitArray + [0];
      } else {
        bitArray := bitArray + [1];
      }
    }
    if IsBitList(x.bits) && IsBitList(y.bits) {
      OrValue(x.bits, y.bits, bitArray);
    }
    return Ok(BinaryNumber(bitArray));
  }

  /** `__and__`: a 1 exactly where both operands hold a non-zero digit;
      ValueError when the lengths differ. */
  method And(x: BinaryNumber, y: BinaryNumber) returns (r: Result<BinaryNumber>)
    ensures r.Err? <==> |x.bits| != |y.bits|
    ensures r.Err? ==> r.error == ValueError
    ensures r.Ok? ==> |r.value.bits| == |x.bits| && IsBitList(r.value.bits)
    ensures r.Ok? ==> forall i :: 0 <= i < |x.bits| ==>
              (r.value.bits[i] == 1 <==> x.bits[i] != 0 && y.bits[i] != 0)
    ensures r.Ok? && IsBitList(x.bits) && IsBitList(y.bits) ==>
              && 0 <= FromBits(x.bits) && 0 <= FromBits(y.bits)
              && FromBits(r.value.bits) == NatAnd(FromBits(x.bits), FromBits(y.bits))
  {
    if |x.bits| != |y.bits| {
      return Err(ValueError);
    }
    var bitArray: seq<int> := [];
    for i := 0 to |x.bits|
      invariant |bitArray| == i && IsBitList(bitArray)
      invariant forall k :: 0 <= k < i ==> (bitArray[k] == 1 <==> x.bits[k] != 0 && y.bits[k] != 0)
    {
      if x.bits[i] == 0 || y.bits[i] == 0 {
        bitArray := bitArray + [0];
      } else {
        bitArray := bitArray + [1];
      }
    }
    if IsBitList(x.bits) && IsBitList(y.bits) {
      AndValue(x.bits, y.bits, bitArray);
    }
    return Ok(BinaryNumber(bitArray));
  }

  /** Digit-wise "or" of two digit lists denotes the "or" of their values. */
  lemma {:induction false} OrValue(a: seq<int>, b: seq<int>, c: seq<int>)
    requires |a| == |b| == |c| && IsBitList(a) && IsBitList(b) && IsBitList(c)
    requires forall i :: 0 <= i < |c| ==> (c[i] == 1 <==> a[i] != 0 || b[i] != 0)
    ensures 0 <= FromBits(a) && 0 <= FromBits(b)
    ensures FromBits(c) == NatOr(FromBits(a), FromBits(b))
  {
    FromBitsRange(a);
    FromBitsRange(b);
    var n := |c|;
    if n > 0 {
      var a', b', c' := a[..n - 1], b[..n - 1], c[..n - 1];
      var d, e := a[n - 1], b[n - 1];
      assert IsBitList(a') && IsBitList(b') && IsBitList(c');
      OrValue(a', b', c');
      var fa, fb := FromBits(a'), FromBits(b');
      assert FromBits(a) == 2 * fa + d && FromBits(b) == 2 * fb + e;
      assert c[n - 1] == (if a[n - 1] == 1 || b[n - 1] == 1 then 1 else 0);
      OrAndStep(fa, d, fb, e);
    }
  }

  /** Digit-wise "and" of two digit lists denotes the "and" of their values. */
  lemma {:induction false} AndValue(a: seq<int>, b: seq<int>, c: seq<int>)
    requires |a| == |b| == |c| && IsBitList(a) && IsBitList(b) && IsBitList(c)
    requires forall i :: 0 <= i < |c| ==> (c[i] == 1 <==> a[i] != 0 && b[i] != 0)
    ensures 0 <= FromBits(a) && 0 <= FromBits(b)
    ensures FromBits(c) == NatAnd(FromBits(a), FromBits(b))
  {
    FromBitsRange(a);
    FromBitsRange(b);
    var n := |c|;
    if n > 0 {
      var a', b', c' := a[..n - 1], b[..n - 1], c[..n - 1];
      var d, e := a[n - 1], b[n - 1];
      assert IsBitList(a') && IsBitList(b') && IsBitList(c');
      AndValue(a', b', c');
      var fa, fb := FromBits(a'), FromBits(b');
      assert FromBits(a) == 2 * fa + d && FromBits(b) == 2 * fb + e;
      assert c[n - 1] == a[n - 1] * b[n - 1];
      OrAndStep(fa, d, fb, e);
    }
  }

  /** `left_shift`: every digit moves one place towards the front and a 0
      enters at the back; IndexError on an empty list. */
  function LeftShift(b: BinaryNumber): (r: Result<BinaryNumber>)
    ensures r.Err? <==> |b.bits| == 0
    ensures r.Err? ==> r.error == IndexError
    ensures r.Ok? ==> |r.value.bits| == |b.bits| && r.value.bits[|b.bits| - 1] == 0
    ensures r.Ok? ==> forall i :: 0 <= i < |b.bits| - 1 ==> r.value.bits[i] == b.bits[i + 1]
  {
    if |b.bits| == 0 then Err(IndexError)
    else Ok(BinaryNumber(b.bits[1..] + [0]))
  }

  /** `right_shift`: every digit moves one place towards the back and a 0
      enters at the front; IndexError on an empty list. */
  function RightShift(b: BinaryNumber): (r: Result<BinaryNumber>)
    ensures r.Err? <==> |b.bits| == 0
    ensures r.Err? ==> r.error == IndexError
    ensures r.Ok? ==> |r.value.bits| == |b.bits| && r.value.bits[0] == 0
    ensures r.Ok? ==> forall i :: 1 <= i < |b.bits| ==> r.value.bits[i] == b.bits[i - 1]
  {
    if |b.bits| == 0 then Err(IndexError)
    else Ok(BinaryNumber([0] + b.bits[..|b.bits| - 1]))
  }

  /** A left shift doubles the value, dropping the digit that leaves the
      width. */
  lemma LeftShiftValue(b: BinaryNumber)
    requires |b.bits| > 0 && IsBitList(b.bits)
    ensures LeftShift(b).Ok?
    ensures FromBits(LeftShift(b).value.bits) == (2 * FromBits(b.bits)) % Pow2(|b.bits|)
  {
    var s := b.bits;
    var n := |s|;
    var rest := s[1..];
    assert s == [s[0]] + rest;
    FromBitsAppend([s[0]], rest);
    FromBitsAppend(rest, [0]);
    assert [s[0]][..0] == [] && [0][..0] == [];
    assert IsBitList(rest);
    FromBitsRange(rest);
    var p := Pow2(n - 1);
    assert Pow2(n) == 2 * p;
    Twice(s[0], p);
    Twice(p, s[0]);
    DivModUnique(2 * FromBits(s), Pow2(n), s[0], 2 * FromBits(rest));
  }

  /** A right shift halves the value, rounding down. */
  lemma RightShiftValue(b: BinaryNumber)
    requires |b.bits| > 0 && IsBitList(b.bits)
    ensures RightShift(b).Ok?
    ensures FromBits(RightShift(b).value.bits) == FromBits(b.bits) / 2
  {
    var s := b.bits;
    var front := s[..|s| - 1];
    FromBitsZeros(1, front);
    assert seq(1, _ => 0) == [0];
    DivModUnique(FromBits(s), 2, FromBits(front), s[|s| - 1]);
  }

  /** Shifting left and back right restores a number whose leading digit
      is 0. */
  lemma ShiftLeftThenRight(b: BinaryNumber)
    requires |b.bits| > 0 && b.bits[0] == 0
    ensures LeftShift(b).Ok? && RightShift(LeftShift(b).value) == Ok(b)
  {
    var s := b.bits;
    assert [0] + (s[1..] + [0])[..|s| - 1] == s;
  }

  /** Shifting right and back left restores a number whose last digit is 0. */
  lemma ShiftRightThenLeft(b: BinaryNumber)
    requires |b.bits| > 0 && b.bits[|b.bits| - 1] == 0
    ensures RightShift(b).Ok? && LeftShift(RightShift(b).value) == Ok(b)
  {
    var s := b.bits;
    assert ([0] + s[..|s| - 1])[1..] + [0] == s;
  }

  /** `extract` as written: the Python slice `bits[-end-1:-start]`, padded
      at the front with zeros up to the original length. From start 1 on it
      is the field extraction below; from start 0 the length is not kept. */
  function ExtractAsWritten(b: BinaryNumber, start: int, end: int): (r: BinaryNumber)
    ensures 1 <= start <= end < |b.bits| ==> r == Extract(b, start, end)
    ensures start == 0 <= end < |b.bits| ==> |r.bits| < |b.bits|
  {
    BinaryNumber(Zeros(|b.bits| - (end - start + 1)) + PySlice(b.bits, -end - 1, -start))
  }

  /** With start == 0 the slice's upper bound `-0` is 0, not the end of the
      list, so the digits of the field are lost: only the zero padding
      remains, and the result is shorter than the input. */
  lemma ExtractFromZeroLosesField(b: BinaryNumber, end: int)
    requires 0 <= end < |b.bits|
    ensures var r := ExtractAsWritten(b, 0, end);
            |r.bits| == |b.bits| - end - 1 < |b.bits|
            && forall i :: 0 <= i < |r.bits| ==> r.bits[i] == 0
  {
  }

  /** The digits 1, 0, 1 with the field 0..1 come back as the single digit 0
      where the field holds 0b01. */
  lemma ExtractFromZeroExample(b: BinaryNumber)
    requires b == BinaryNumber([1, 0, 1])
    ensures ExtractAsWritten(b, 0, 1) == BinaryNumber([0])
    ensures Extract(b, 0, 1) == BinaryNumber([0, 0, 1])
  {
    assert Zeros(1) == [0];
  }

  /** `extract` with the evidently intended upper bound `len(bits) - start`:
      the digits of the field start..end, counted from the least significant
      digit, moved down to the least significant end, zeros in front, the
      length kept. */
  function Extract(b: BinaryNumber, start: nat, end: nat): (r: BinaryNumber)
    requires start <= end < |b.bits|
    ensures |r.bits| == |b.bits|
    ensures forall i :: 0 <= i < |b.bits| ==>
              r.bits[i] == (if i < |b.bits| - (end - start + 1) then 0 else b.bits[i - start])
  {
    var n := |b.bits|;
    BinaryNumber(Zeros(n - (end - start + 1)) + b.bits[n - 1 - end..n - start])
  }

  /** The digits kept by Extract denote the bit field start..end of the
      number, as the word-level extraction computes it. */
  lemma ExtractValue(b: BinaryNumber, start: nat, end: nat)
    requires start <= end < |b.bits| && IsBitList(b.bits)
    ensures 0 <= FromBits(b.bits)
    ensures FromBits(Extract(b, start, end).bits)
         == BitFields.Extract(BitFields.BitField(start, end), FromBits(b.bits))
  {
    var s := b.bits;
    var fm := FromBits(s[|s| - 1 - end..|s| - start]);
    FromBitsRange(s);
    ExtractedDigits(b, start, end);
    FieldDigits(s, start, end);
    FieldIsExtract(BitFields.BitField(start, end), FromBits(s), fm);
  }

  /** The digits of positions start..end, read as a number, are the field
      start..end of the whole digit list's value. */
  lemma FieldDigits(s: seq<int>, start: nat, end: nat)
    requires start <= end < |s| && IsBitList(s)
    ensures (FromBits(s) / Pow2(start)) % Pow2(end - start + 1) == FromBits(s[|s| - 1 - end..|s| - start])
  {
    var n := |s|;
    var i, j := n - 1 - end, n - start;
    var x, fa, fm, fl := FromBits(s), FromBits(s[..i]), FromBits(s[i..j]), FromBits(s[j..]);
    var p, q := Pow2(start), Pow2(j - i);
    assert x == (fa * q + fm) * p + fl by {
      SliceSplit(s, i, j);
    }
    assert 0 <= fm < q by {
      SliceRange(s, i, j);
    }
    assert 0 <= fl < p by {
      SliceRange(s, j, n);
      assert s[j..n] == s[j..];
    }
    FieldOfSplit(x, fa, fm, fl, p, q);
  }

  lemma FieldIsExtract(f: BitFields.BitField, x: nat, fm: int)
    requires (x / Pow2(f.fromBit)) % Pow2(f.Width()) == fm
    ensures BitFields.Extract(f, x) == fm
  {
  }

  /** The value of Extract's result is the value of the field's digits. */
  lemma ExtractedDigits(b: BinaryNumber, start: nat, end: nat)
    requires start <= end < |b.bits|
    ensures FromBits(Extract(b, start, end).bits) == FromBits(b.bits[|b.bits| - 1 - end..|b.bits| - start])
  {
    var n := |b.bits|;
    PaddingValue(n - (end - start + 1), b.bits[n - 1 - end..n - start]);
  }

  /** A digit list cut at i and j: the value of the whole from the values
      of the three pieces. */
  lemma SliceSplit(s: seq<int>, i: nat, j: nat)
    requires i <= j <= |s|
    ensures FromBits(s) == (FromBits(s[..i]) * Pow2(j - i) + FromBits(s[i..j])) * Pow2(|s| - j) + FromBits(s[j..])
  {
    assert s == (s[..i] + s[i..j]) + s[j..];
    SplitValue(s[..i], s[i..j], s[j..]);
  }

  /** A piece of a digit list denotes a number below two to its length. */
  lemma SliceRange(s: seq<int>, i: nat, j: nat)
    requires i <= j <= |s| && IsBitList(s)
    ensures 0 <= FromBits(s[i..j]) < Pow2(j - i)
  {
    assert IsBitList(s[i..j]);
    FromBitsRange(s[i..j]);
  }

  /** The value of three digit lists laid end to end. */
  lemma SplitValue(a: seq<int>, m: seq<int>, l: seq<int>)
    ensures FromBits((a + m) + l) == (FromBits(a) * Pow2(|m|) + FromBits(m)) * Pow2(|l|) + FromBits(l)
  {
    var front := FromBits(a + m);
    assert FromBits((a + m) + l) == front * Pow2(|l|) + FromBits(l) by {
      FromBitsAppend(a + m, l);
    }
    assert front == FromBits(a) * Pow2(|m|) + FromBits(m) by {
      FromBitsAppend(a, m);
    }
  }

  /** The middle part of a three-part number, taken out by division and
      remainder. */
  lemma FieldOfSplit(x: int, fa: int, fm: int, fl: int, p: int, q: int)
    requires p >= 1 && q >= 1 && 0 <= fm < q && 0 <= fl < p
    requires x == (fa * q + fm) * p + fl
    ensures (x / p) % q == fm
  {
    DivModUnique(x, p, fa * q + fm, fl);
    DivModUnique(fa * q + fm, q, fa, fm);
  }

  /** For start >= 1 the code as written agrees with the intended one. */
  lemma ExtractAgrees(b: BinaryNumber, start: nat, end: nat)
    requires 1 <= start <= end < |b.bits|
    ensures ExtractAsWritten(b, start, end) == Extract(b, start, end)
  {
  }

  /** The lab's own example: digits 10010111, field 2..4. */
  lemma ExtractExample(b: BinaryNumber)
    requires b == BinaryNumber([1, 0, 0, 1, 0, 1, 1, 1])
    ensures Extract(b, 2, 4) == BinaryNumber([0, 0, 0, 0, 0, 1, 0, 1])
  {
    assert Zeros(5) == [0, 0, 0, 0, 0];
  }
}
