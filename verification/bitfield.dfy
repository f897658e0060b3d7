/** The bit-field codec: a range of bit positions fromBit..toBit (inclusive,
    bit 0 the low-order bit) inside a word that the source documents as a
    32-bit unsigned integer but handles as an unbounded Python integer. */
module BitFields {
  import opened Binary

  /** WORD_SIZE: the index the upper half of `insert` extracts up to. */
  const WordSize: nat := 32

  /** `2 ** 31`, the constant `insert` adds to a negative value. */
  const TwoTo31: int := 0x8000_0000

  /** A BitField object. The source stores the two bounds without checking
      them, and `insert` builds fields such as (0, -1) for its own use, so
      toBit may be any integer; Valid is the domain the documentation names. */
  datatype BitField = BitField(fromBit: nat, toBit: int) {

    /** Number of positions in the field (Python's `range(from_bit, to_bit+1)`). */
    function Width(): nat {
      if toBit >= fromBit then toBit - fromBit + 1 else 0
    }

    predicate Valid() {
      fromBit <= toBit < WordSize
    }

    /** The bits below the field: `BitField(0, from_bit-1)`. */
    function Below(): BitField {
      BitField(0, fromBit - 1)
    }

    /** The bits above the field up to bit 32: `BitField(to_bit+1, WORD_SIZE)`. */
    function Above(): BitField
      requires toBit >= -1
    {
      BitField(toBit + 1, WordSize)
    }
  }

  /** `sum([2 ** i for i in range(lo, hi+1)])`: the mask with bits lo..hi set. */
  function MaskSum(lo: nat, hi: int): nat
    decreases hi - lo + 1
  {
    if hi < lo then 0 else MaskSum(lo, hi - 1) + Pow2(hi)
  }

  lemma {:induction false} MaskSumClosed(lo: nat, hi: int)
    ensures MaskSum(lo, hi) == Pow2(lo) * (Pow2(BitField(lo, hi).Width()) - 1)
    decreases hi - lo + 1
  {
    if hi >= lo {
      var w := hi - lo + 1;
      var a, b := Pow2(lo), Pow2(w - 1);
      MaskSumClosed(lo, hi - 1);
      assert BitField(lo, hi - 1).Width() == w - 1;
      assert MaskSum(lo, hi - 1) == a * (b - 1);
      assert Pow2(hi) == a * b by {
        Pow2Add(lo, w - 1);
      }
      assert Pow2(w) == 2 * b;
      Collect(a, b);
    }
  }

  lemma Collect(a: int, b: int)
    ensures a * (b - 1) + a * b == a * (2 * b - 1)
  {
  }

  /** `extract`: AND the word with the field's mask, then shift right by
      fromBit. The mask is below 2^(fromBit + width), and Python's `&` with
      such a mask sees only the low fromBit + width bits of the word's
      two's-complement pattern, which are the word modulo that power for
      any integer, negative ones included. The result is the field's
      contents as an unsigned number. */
  function Extract(f: BitField, word: int): (r: nat)
    ensures r == (word / Pow2(f.fromBit)) % Pow2(f.Width())
    ensures r < Pow2(f.Width())
  {
    ExtractClosedForm(f, word);
    NatAnd(MaskSum(f.fromBit, f.toBit), word % Pow2(f.fromBit + f.Width())) / Pow2(f.fromBit)
  }

  lemma ExtractClosedForm(f: BitField, word: int)
    ensures NatAnd(MaskSum(f.fromBit, f.toBit), word % Pow2(f.fromBit + f.Width())) / Pow2(f.fromBit)
         == (word / Pow2(f.fromBit)) % Pow2(f.Width())
  {
    var p, q := Pow2(f.fromBit), Pow2(f.Width());
    var low := word % Pow2(f.fromBit + f.Width());
    var y := (low / p) % q;
    var anded := NatAnd(MaskSum(f.fromBit, f.toBit), low);
    MaskSumClosed(f.fromBit, f.toBit);
    AndShiftedOnes(f.fromBit, f.Width(), low);
    assert anded == p * y;
    DivModUnique(anded, p, y, 0);
    Pow2Add(f.fromBit, f.Width());
    WindowQuotient(word, p, q, Pow2(f.fromBit + f.Width()));
  }

  /** Reducing modulo p * q first does not change the digit in base q of
      the quotient by p. */
  lemma WindowQuotient(word: int, p: int, q: int, t: int)
    requires p >= 1 && q >= 1 && t == p * q
    ensures ((word % t) / p) % q == (word / p) % q
  {
    var a, low := word / t, word % t;
    var m, l := low / p, low % p;
    assert m < q by {
      if m >= q {
        MulMonotone(q, m, p);
      }
    }
    assert word == (q * a + m) * p + l by {
      Distribute(m, q, a, p);
    }
    DivModUnique(word, p, q * a + m, l);
    DivModUnique(q * a + m, q, a, m);
    DivModUnique(m, q, 0, m);
  }

  /** Every field of the zero word is zero. */
  lemma ExtractOfZero(f: BitField)
    ensures Extract(f, 0) == 0
  {
    DivModUnique(0, Pow2(f.fromBit), 0, 0);
    DivModUnique(0, Pow2(f.Width()), 0, 0);
  }

  /** The two's-complement reading of a pattern e of the given width:
      e itself when bit width-1 is clear, e - 2^width when it is set. */
  function SignedReading(e: nat, width: nat): int
  {
    if width >= 1 && e >= Pow2(width - 1) then e - Pow2(width) else e
  }

  /** For a pattern that fits in width bits, bit width-1 is set exactly when
      the pattern is at least 2^(width-1). */
  lemma TopBit(e: nat, width: nat)
    requires width >= 1 && e < Pow2(width)
    ensures Bit(e, width - 1) <==> e >= Pow2(width - 1)
  {
    var p := Pow2(width - 1);
    if e >= p {
      DivModUnique(e, p, 1, e - p);
    } else {
      DivModUnique(e, p, 0, e);
    }
  }

  /** `sign_extend`: reads bit width-1 as a sign bit. The source asserts
      width > 1 and field < 2^(width+1); on a field that fits in width bits
      the result is the two's-complement reading. */
  function SignExtend(field: nat, width: nat): (r: int)
    requires width > 1 && field < Pow2(width + 1)
    ensures field < Pow2(width) ==> r == (if Bit(field, width - 1) then field - Pow2(width) else field)
    ensures -Pow2(width - 1) <= r
  {
    var signBit := Pow2(width - 1);
    var mask := signBit - 1;
    SignExtendMasks(field, width);
    if NatAnd(field, signBit) != 0 then NatAnd(field, mask) - signBit else field
  }

  lemma SignExtendMasks(field: nat, width: nat)
    requires width > 1
    ensures NatAnd(field, Pow2(width - 1)) != 0 <==> Bit(field, width - 1)
    ensures NatAnd(field, Pow2(width - 1) - 1) == field % Pow2(width - 1)
    ensures field < Pow2(width) && Bit(field, width - 1) ==>
              field % Pow2(width - 1) - Pow2(width - 1) == field - Pow2(width)
  {
    var p := Pow2(width - 1);
    NatAndCommutes(field, p);
    AndShiftedOnes(width - 1, 1, field);
    assert p * (Pow2(1) - 1) == p;
    NatAndCommutes(field, p - 1);
    AndLowOnes(width - 1, field);
    if field < Pow2(width) && Bit(field, width - 1) {
      TopBit(field, width);
      DivModUnique(field, p, 1, field - p);
    }
  }

  /** `sign_extend` restricted to patterns that fit in width bits, as its
      documentation says: the result is the signed value whose width-bit
      two's-complement pattern is field. */
  function SignExtendFitting(field: nat, width: nat): (r: int)
    requires width > 1 && field < Pow2(width)
    ensures -Pow2(width - 1) <= r < Pow2(width - 1)
    ensures r == field || r == field - Pow2(width)
    ensures r == SignedReading(field, width)
  {
    Pow2Monotone(width, width + 1);
    TopBit(field, width);
    SignExtend(field, width)
  }

  /** The assertion in `sign_extend` admits patterns of width+1 bits; such
      a pattern with a clear sign bit comes back unchanged, outside the
      signed range of the field. */
  lemma SignExtendAdmitsWidePattern()
    ensures SignExtend(4, 2) == 4
    ensures !(-Pow2(1) <= SignExtend(4, 2) < Pow2(1))
  {
    assert !Bit(4, 1);
  }

  lemma SignExtendExamples()
    ensures SignExtend(7, 3) == -1
    ensures SignExtend(7, 4) == 7
  {
    assert Bit(7, 2);
    assert !Bit(7, 3);
  }

  /** One term of `extract_signed`'s accumulation: digit k weighted by its
      place value, negated for the leading digit when negateLead holds. */
  function DigitTerm(ds: seq<int>, k: nat, negateLead: bool): int
    requires k < |ds|
  {
    if k == 0 && negateLead then -Pow2(|ds| - 1) * ds[0]
    else Pow2(|ds| - 1 - k) * ds[k]
  }

  /** The accumulator of `extract_signed` after its first i digits. */
  function WalkSum(ds: seq<int>, i: nat, negateLead: bool): int
    requires i <= |ds|
  {
    if i == 0 then 0 else WalkSum(ds, i - 1, negateLead) + DigitTerm(ds, i - 1, negateLead)
  }

  /** After i digits the walk holds the value of those digits at their
      place values, less twice the leading digit's weight when it is negated. */
  lemma {:induction false} WalkSumValue(ds: seq<int>, i: nat, negateLead: bool)
    requires i <= |ds|
    ensures WalkSum(ds, i, negateLead)
         == FromBits(ds[..i]) * Pow2(|ds| - i) - (if negateLead && i > 0 then Pow2(|ds|) * ds[0] else 0)
  {
    var n := |ds|;
    if i > 0 {
      WalkSumValue(ds, i - 1, negateLead);
      var prev, d := FromBits(ds[..i - 1]), ds[i - 1];
      var w := Pow2(n - i);
      assert FromBits(ds[..i]) == 2 * prev + d by {
        assert ds[..i][..i - 1] == ds[..i - 1];
      }
      assert Pow2(n - i + 1) == 2 * w;
      Twice(prev, w);
      Distribute2(prev, d, w);
      if i == 1 {
        assert prev == 0 by {
          assert ds[..0] == [];
        }
        assert Pow2(n) == 2 * w;
        Twice(w, d);
      }
    }
  }

  /** The walk over Digits(e) with the lead negated exactly when the digit
      count equals the field width gives the two's-complement reading. */
  lemma WalkIsSignedReading(e: nat, width: int, w: nat)
    requires w == (if width >= 0 then width else 0) && e < Pow2(w)
    ensures var ds := Digits(e);
            WalkSum(ds, |ds|, width == |ds|) == SignedReading(e, w)
  {
    var ds := Digits(e);
    var n := |ds|;
    WalkSumValue(ds, n, width == n);
    assert ds[..n] == ds;
    assert Pow2(n - n) == 1;
    if e >= 1 {
      if n > w {
        Pow2Monotone(w, n - 1);
        assert false;
      }
      if n < w {
        Pow2Monotone(n, w - 1);
        assert e < Pow2(w - 1);
      }
    }
  }

  /** `extract_signed`: walks the binary digits of the extracted value from
      the most significant end, negating the leading digit's weight when the
      digit count equals the field width. */
  method ExtractSigned(f: BitField, word: int) returns (res: int)
    ensures res == SignedReading(Extract(f, word), f.Width())
    ensures f.Width() >= 2 ==> res == SignExtendFitting(Extract(f, word), f.Width())
    ensures f.Width() >= 1 ==> -Pow2(f.Width() - 1) <= res < Pow2(f.Width() - 1)
    ensures f.Width() == 1 ==> res == 0 || res == -1
  {
    var e := Extract(f, word);
    var extracted := Digits(e);
    var n := |extracted|;
    var width := f.toBit - f.fromBit + 1;
    res := 0;
    var i := 0;
    while i < n
      invariant 0 <= i <= n
      invariant res == WalkSum(extracted, i, width == n)
    {
      if i == 0 && width == n {
        res := res - Pow2(n - 1) * extracted[i];
      } else {
        res := res + Pow2(n - 1 - i) * extracted[i];
      }
      i := i + 1;
    }
    WalkIsSignedReading(e, width, f.Width());
  }

  /** A number assembled from a low part below p, a middle part below q
      shifted by p, and a high part below top shifted by t = p * q, taken
      apart again. */
  lemma Assemble(lo: int, v: int, hi: int, p: int, q: int, t: int, top: int)
    requires p >= 1 && q >= 1 && t == p * q
    requires 0 <= lo < p && 0 <= v < q && 0 <= hi < top
    ensures var x := lo + v * p + hi * t;
            && x % p == lo
            && (x / p) % q == v
            && x / t == hi
            && 0 <= x < t * top
  {
    var x := lo + v * p + hi * t;
    var m := v + q * hi;
    assert x == m * p + lo by {
      Distribute(v, q, hi, p);
    }
    DivModUnique(x, p, m, lo);
    DivModUnique(m, q, hi, v);
    assert lo + v * p < t by {
      MulBelow(v, q, p);
    }
    DivModUnique(x, t, hi, lo + v * p);
    assert x < t * (hi + 1);
    MulMonotone(hi + 1, top, t);
  }

  /** The facts about `insert`'s three summands that its contract needs:
      lo is the word's bits below the field, hi its bits toBit+1..32. */
  lemma InsertLayout(f: BitField, lo: int, v: int, hi: int, word: int)
    requires f.Valid() && 0 <= v < Pow2(f.Width())
    requires lo == word % Pow2(f.fromBit)
    requires hi == (word / Pow2(f.toBit + 1)) % Pow2(WordSize - f.toBit)
    ensures var p, q := Pow2(f.fromBit), Pow2(f.Width());
            var x := lo + v * p + hi * Pow2(f.toBit + 1);
            && x % p == word % p
            && (x / p) % q == v
            && x / Pow2(f.toBit + 1) == hi
            && 0 <= x < Pow2(WordSize + 1)
            && Extract(f, x) == v
  {
    var p, q := Pow2(f.fromBit), Pow2(f.Width());
    var t, top := Pow2(f.toBit + 1), Pow2(WordSize - f.toBit);
    assert t == p * q by {
      Pow2Add(f.fromBit, f.Width());
    }
    assert Pow2(WordSize + 1) == t * top by {
      Pow2Add(f.toBit + 1, WordSize - f.toBit);
    }
    Assemble(lo, v, hi, p, q, t, top);
  }

  /** `insert`: the word with the field's old contents replaced by value.
      Bits 0..fromBit-1 and toBit+1..32 of the word are kept and higher bits
      dropped. A negative value is first replaced by the field's bits of
      2^31 + value - 1, exactly as the source computes it. The source does
      not check that a non-negative value fits; the documented requirement
      that it does is a precondition here. */
  function Insert(f: BitField, value: int, word: int): (r: nat)
    requires f.Valid()
    requires value < Pow2(f.Width())
    ensures 0 <= value ==> Extract(f, r) == value
    ensures r % Pow2(f.fromBit) == word % Pow2(f.fromBit)
    ensures r / Pow2(f.toBit + 1) == (word / Pow2(f.toBit + 1)) % Pow2(WordSize - f.toBit)
    ensures r < Pow2(WordSize + 1)
  {
    var v := if value < 0 then Extract(f, TwoTo31 + value - 1) else value;
    var rightHalf := Extract(f.Below(), word);
    var leftHalf := Extract(f.Above(), word);
    OutsideParts(f, word);
    InsertLayout(f, rightHalf, v, leftHalf, word);
    rightHalf + v * Pow2(f.fromBit) + leftHalf * Pow2(f.toBit + 1)
  }

  /** The contents of the field below f and above f, as plain arithmetic. */
  lemma OutsideParts(f: BitField, word: int)
    requires f.Valid()
    ensures Extract(f.Below(), word) == word % Pow2(f.fromBit)
    ensures Extract(f.Above(), word) == (word / Pow2(f.toBit + 1)) % Pow2(WordSize - f.toBit)
  {
    assert f.Below().Width() == f.fromBit && f.Above().Width() == WordSize - f.toBit;
    assert Pow2(0) == 1;
  }

  /** Inserting twice into the same field keeps only the second value. */
  lemma InsertTwice(f: BitField, v1: int, v2: int, word: int)
    requires f.Valid()
    requires v1 < Pow2(f.Width()) && v2 < Pow2(f.Width())
    ensures Insert(f, v2, Insert(f, v1, word)) == Insert(f, v2, word)
  {
    var w1 := Insert(f, v1, word);
    var m := Pow2(WordSize - f.toBit);
    var hi := (word / Pow2(f.toBit + 1)) % m;
    OutsideParts(f, word);
    OutsideParts(f, w1);
    assert w1 / Pow2(f.toBit + 1) == hi;
    DivModUnique(hi, m, 0, hi);
  }

  /** `insert` of a value that fits, as plain arithmetic on the word. */
  lemma InsertArithmetic(f: BitField, v: nat, word: int)
    requires f.Valid() && v < Pow2(f.Width())
    ensures Insert(f, v, word)
         == word % Pow2(f.fromBit) + v * Pow2(f.fromBit)
            + ((word / Pow2(f.toBit + 1)) % Pow2(WordSize - f.toBit)) * Pow2(f.toBit + 1)
  {
    OutsideParts(f, word);
  }

  /** The documented example: bits 3..5 of 0b110 set to 0b101 give 0b101110. */
  lemma InsertDocExample(f: BitField, value: int, word: int)
    requires f == BitField(3, 5) && value == 5 && word == 6
    ensures Insert(f, value, word) == 46
  {
    assert Pow2(3) == 8 && Pow2(6) == 64;
    DivModUnique(0, Pow2(27), 0, 0);
    DivModUnique(6, 8, 0, 6);
    DivModUnique(6, 64, 0, 6);
    InsertArithmetic(f, 5, 6);
  }

  /** The example the module checks when run: -1 into bits 3..5 of 0 gives 56. */
  lemma InsertNegativeExample(f: BitField, value: int, word: int)
    requires f == BitField(3, 5) && value == -1 && word == 0
    ensures Insert(f, value, word) == 56
  {
    ExtractOfZero(f.Below());
    ExtractOfZero(f.Above());
    assert Pow2(3) == 8;
    DivModUnique(TwoTo31 - 2, 8, 0xFFF_FFFF, 6);
    DivModUnique(0xFFF_FFFF, 8, 0x1FF_FFFF, 7);
    assert Extract(f, TwoTo31 - 2) == 7;
  }

  /** Bits of a number r that agrees with word below the field and holds
      value in the field: the part below the field. */
  lemma ReplacedBitBelow(f: BitField, r: nat, word: int, i: nat)
    requires f.Valid() && i < f.fromBit
    requires r % Pow2(f.fromBit) == word % Pow2(f.fromBit)
    ensures Bit(r, i) == Bit(word, i)
  {
    LowBitsAgree(r, word, f.fromBit, i);
  }

  lemma ReplacedBitInside(f: BitField, r: nat, value: nat, i: nat)
    requires f.Valid() && value < Pow2(f.Width()) && f.fromBit <= i <= f.toBit
    requires (r / Pow2(f.fromBit)) % Pow2(f.Width()) == value
    ensures Bit(r, i) == Bit(value, i - f.fromBit)
  {
    var j := i - f.fromBit;
    BitOfQuotient(r, f.fromBit, j);
    DivModUnique(value, Pow2(f.Width()), 0, value);
    LowBitsAgree(r / Pow2(f.fromBit), value, f.Width(), j);
  }

  lemma ReplacedBitAbove(r: nat, word: int, a: nat, n: nat, j: nat)
    requires j < n
    requires r / Pow2(a) == (word / Pow2(a)) % Pow2(n)
    ensures Bit(r, a + j) == Bit(word, a + j)
  {
    var m := Pow2(n);
    var high := word / Pow2(a);
    var x := high % m;
    assert Bit(r, a + j) == Bit(x, j) by {
      BitOfQuotient(r, a, j);
    }
    assert Bit(x, j) == Bit(high, j) by {
      DivModUnique(x, m, 0, x);
      LowBitsAgree(x, high, n, j);
    }
    assert Bit(high, j) == Bit(word, a + j) by {
      BitOfQuotient(word, a, j);
    }
  }

  /** Bit by bit, `insert` of a value that fits takes bits fromBit..toBit
      from the value, keeps every other bit up to bit 32 from the word, and
      clears the bits above. */
  lemma InsertBits(f: BitField, value: nat, word: int, i: nat)
    requires f.Valid() && value < Pow2(f.Width())
    ensures Bit(Insert(f, value, word), i)
         == if i < f.fromBit then Bit(word, i)
            else if i <= f.toBit then Bit(value, i - f.fromBit)
            else if i <= WordSize then Bit(word, i)
            else false
  {
    var r := Insert(f, value, word);
    assert Extract(f, r) == value;
    if i < f.fromBit {
      ReplacedBitBelow(f, r, word, i);
    } else if i <= f.toBit {
      ReplacedBitInside(f, r, value, i);
    } else if i <= WordSize {
      ReplacedBitAbove(r, word, f.toBit + 1, WordSize - f.toBit, i - f.toBit - 1);
    } else {
      HighBitsClear(r, WordSize + 1, i);
    }
  }

  /** `insert` of a negative value, as plain arithmetic on the word: the
      field receives the field's own bits of 2^31 + value - 1. */
  lemma InsertNegativeArithmetic(f: BitField, value: int, word: int)
    requires f.Valid() && value < 0
    ensures Insert(f, value, word)
         == word % Pow2(f.fromBit) + Extract(f, TwoTo31 + value - 1) * Pow2(f.fromBit)
            + ((word / Pow2(f.toBit + 1)) % Pow2(WordSize - f.toBit)) * Pow2(f.toBit + 1)
  {
    OutsideParts(f, word);
  }

  /** The negative branch of `insert` does not store the two's-complement
      pattern: -1 into the 4-bit field 0..3 stores 0b1110, which reads back
      as -2, where the pattern of -1 is 0b1111. */
  lemma InsertNegativeLowField(f: BitField, value: int, word: int)
    requires f == BitField(0, 3) && value == -1 && word == 0
    ensures Insert(f, value, word) == 14
    ensures SignedReading(Extract(f, Insert(f, value, word)), f.Width()) == -2
  {
    assert Pow2(0) == 1 && Pow2(4) == 16;
    assert Extract(f, TwoTo31 - 2) == 14 by {
      DivModUnique(TwoTo31 - 2, 16, 0x7FF_FFFF, 14);
    }
    var x := Insert(f, value, word);
    assert x == 14 by {
      InsertNegativeArithmetic(f, value, word);
      DivModUnique(0, Pow2(WordSize - 3), 0, 0);
      DivModUnique(0, Pow2(4), 0, 0);
    }
    LowFieldReadsFourteen(f, x);
  }

  /** The pattern 0b1110 in the 4-bit field 0..3 reads back as -2. */
  lemma LowFieldReadsFourteen(f: BitField, x: nat)
    requires f == BitField(0, 3) && x == 14
    ensures SignedReading(Extract(f, x), f.Width()) == -2
  {
    assert Pow2(0) == 1 && Pow2(4) == 16 && Pow2(3) == 8;
    DivModUnique(x, 16, 0, 14);
  }

  /** A value in the signed range of a width-bit field is the two's-complement
      reading of its remainder modulo 2^width. */
  lemma WrapReading(value: int, width: nat)
    requires width >= 1
    ensures -Pow2(width - 1) <= value < Pow2(width - 1) ==>
              SignedReading(value % Pow2(width), width) == value
  {
    var q := Pow2(width);
    if -Pow2(width - 1) <= value < 0 {
      DivModUnique(value, q, -1, value + q);
    } else if 0 <= value < Pow2(width - 1) {
      DivModUnique(value, q, 0, value);
    }
  }

  /** `insert` with a negative value reduced to its two's-complement
      pattern of the field's width (value mod 2^width) before it is stored. */
  function InsertWrapped(f: BitField, value: int, word: int): (r: nat)
    requires f.Valid() && value < Pow2(f.Width())
    ensures Extract(f, r) == value % Pow2(f.Width())
    ensures -Pow2(f.Width() - 1) <= value < Pow2(f.Width() - 1) ==>
              SignedReading(Extract(f, r), f.Width()) == value
    ensures r % Pow2(f.fromBit) == word % Pow2(f.fromBit)
    ensures r / Pow2(f.toBit + 1) == (word / Pow2(f.toBit + 1)) % Pow2(WordSize - f.toBit)
    ensures 0 <= value ==> r == Insert(f, value, word)
  {
    var q := Pow2(f.Width());
    WrapReading(value, f.Width());
    if 0 <= value then DivModUnique(value, q, 0, value); Insert(f, value, word)
    else Insert(f, value % q, word)
  }

  /** With the correction, -1 into bits 0..3 stores the pattern 0b1111. */
  lemma InsertWrappedNegativeOne(f: BitField, value: int, word: int)
    requires f == BitField(0, 3) && value == -1 && word == 0
    ensures InsertWrapped(f, value, word) == 15
  {
    assert Pow2(0) == 1 && Pow2(4) == 16;
    DivModUnique(-1, 16, -1, 15);
    ExtractOfZero(f.Below());
    ExtractOfZero(f.Above());
  }
}
