/** Unbounded binary arithmetic shared by the bit-field codec and the
    bit-list exercise: powers of two, Python's `&` and `|` on non-negative
    integers, most-significant-first digit lists, and the division facts
    the proofs about them need. */
module Binary {

  /** 2^n. */
  function Pow2(n: nat): (r: int)
    ensures r >= 1
  {
    if n == 0 then 1 else 2 * Pow2(n - 1)
  }

  lemma {:induction false} Pow2Add(a: nat, b: nat)
    ensures Pow2(a + b) == Pow2(a) * Pow2(b)
  {
    if b > 0 {
      Pow2Add(a, b - 1);
      assert Pow2(a + b) == 2 * Pow2(a + b - 1);
      assert Pow2(b) == 2 * Pow2(b - 1);
    }
  }

  lemma {:induction false} Pow2Strict(a: nat, b: nat)
    requires a < b
    ensures 2 * Pow2(a) <= Pow2(b)
  {
    if a + 1 < b {
      Pow2Strict(a, b - 1);
    }
  }

  lemma Pow2Monotone(a: nat, b: nat)
    requires a <= b
    ensures Pow2(a) <= Pow2(b)
  {
    if a < b {
      Pow2Strict(a, b);
    }
  }

  /** Division by a positive divisor is determined by quotient and remainder. */
  lemma DivModUnique(x: int, d: int, q: int, r: int)
    requires d > 0 && 0 <= r < d && x == q * d + r
    ensures x / d == q && x % d == r
  {
    var q', r' := x / d, x % d;
    assert (q' - q) * d == r - r';
    if q' > q {
      MulAtLeast(q' - q, d);
    } else if q' < q {
      MulAtLeast(q - q', d);
    }
  }

  lemma MulAtLeast(a: int, d: int)
    requires a >= 1 && d > 0
    ensures a * d >= d
  {
  }

  lemma MulBelow(a: int, b: int, d: int)
    requires 0 <= a < b && d > 0
    ensures a * d + d <= b * d
  {
    MulAtLeast(b - a, d);
    assert b * d - a * d == (b - a) * d;
  }

  lemma MulMonotone(a: int, b: int, c: int)
    requires 0 <= a <= b && c >= 0
    ensures a * c <= b * c
  {
  }

  lemma Distribute(v: int, q: int, hi: int, p: int)
    ensures v * p + hi * (p * q) == (v + q * hi) * p
  {
  }

  lemma Twice(p: int, y: int)
    ensures 2 * (p * y) == (2 * p) * y == p * (2 * y)
  {
  }

  lemma Distribute2(a: int, d: int, w: int)
    ensures (2 * a + d) * w == a * (2 * w) + d * w
  {
  }

  /** Dividing twice is dividing by the product. */
  lemma DivDiv(x: int, a: int, b: int)
    requires a > 0 && b > 0
    ensures x / a / b == x / (a * b)
    ensures (x / a) % b == (x % (a * b)) / a
  {
    var q, r := x / a, x % a;
    var q2, r2 := q / b, q % b;
    assert x == q2 * (a * b) + (r2 * a + r);
    MulBelow(r2, b, a);
    DivModUnique(x, a * b, q2, r2 * a + r);
    DivModUnique(r2 * a + r, a, r2, r);
  }

  /** Python's `x & y` on non-negative integers, one binary digit at a time. */
  function NatAnd(x: nat, y: nat): nat
    decreases x + y
  {
    if x == 0 && y == 0 then 0
    else 2 * NatAnd(x / 2, y / 2) + (x % 2) * (y % 2)
  }

  /** Python's `x | y` on non-negative integers, one binary digit at a time. */
  function NatOr(x: nat, y: nat): nat
    decreases x + y
  {
    if x == 0 && y == 0 then 0
    else 2 * NatOr(x / 2, y / 2) + (if x % 2 == 1 || y % 2 == 1 then 1 else 0)
  }

  lemma {:induction false} NatAndCommutes(x: nat, y: nat)
    ensures NatAnd(x, y) == NatAnd(y, x)
    decreases x + y
  {
    if x != 0 || y != 0 {
      NatAndCommutes(x / 2, y / 2);
    }
  }

  /** The digit-by-digit equation behind NatAnd, for every pair of arguments. */
  lemma NatAndUnfold(x: nat, y: nat)
    ensures NatAnd(x, y) == 2 * NatAnd(x / 2, y / 2) + (x % 2) * (y % 2)
  {
  }

  /** The remainder modulo 2^k, built from the remainder of w / 2 modulo 2^(k-1). */
  lemma ModPow2Step(k: nat, w: nat)
    requires k > 0
    ensures w % Pow2(k) == 2 * ((w / 2) % Pow2(k - 1)) + w % 2
  {
    var p := Pow2(k - 1);
    var q, r := (w / 2) / p, (w / 2) % p;
    assert w / 2 == q * p + r;
    assert w == 2 * (w / 2) + w % 2;
    assert w == q * Pow2(k) + (2 * r + w % 2);
    DivModUnique(w, Pow2(k), q, 2 * r + w % 2);
  }

  lemma {:induction false} NatAndZero(w: nat)
    ensures NatAnd(0, w) == 0
  {
    if w != 0 {
      NatAndZero(w / 2);
    }
  }

  /** Masking with k low one-bits keeps the remainder modulo 2^k. */
  lemma {:induction false} AndLowOnes(k: nat, w: nat)
    ensures NatAnd(Pow2(k) - 1, w) == w % Pow2(k)
  {
    if k > 0 {
      var m := Pow2(k) - 1;
      assert m / 2 == Pow2(k - 1) - 1 && m % 2 == 1;
      NatAndUnfold(m, w);
      AndLowOnes(k - 1, w / 2);
      ModPow2Step(k, w);
    } else {
      NatAndZero(w);
    }
  }

  /** Masking with an even number is masking with its half one place up. */
  lemma AndDoubled(x: nat, w: nat)
    ensures NatAnd(2 * x, w) == 2 * NatAnd(x, w / 2)
  {
    assert (2 * x) / 2 == x && (2 * x) % 2 == 0;
    NatAndUnfold(2 * x, w);
  }

  /** Masking with k one-bits starting at bit lo selects bits lo..lo+k-1 in place. */
  lemma {:induction false} AndShiftedOnes(lo: nat, k: nat, w: nat)
    ensures NatAnd(Pow2(lo) * (Pow2(k) - 1), w) == Pow2(lo) * ((w / Pow2(lo)) % Pow2(k))
  {
    if lo == 0 {
      AndLowOnes(k, w);
    } else {
      var p, m := Pow2(lo - 1), Pow2(k) - 1;
      var y := (w / Pow2(lo)) % Pow2(k);
      assert Pow2(lo) == 2 * p;
      Twice(p, m);
      Twice(p, y);
      AndDoubled(p * m, w);
      assert NatAnd(p * m, w / 2) == p * y by {
        AndShiftedOnes(lo - 1, k, w / 2);
        DivDiv(w, 2, p);
      }
    }
  }

  /** Bit i of x. */
  predicate Bit(x: int, i: nat) {
    (x / Pow2(i)) % 2 == 1
  }

  /** Taking the remainder by a multiple of a first does not change the remainder by a. */
  lemma ModMod(x: int, a: int, b: int)
    requires a > 0 && b > 0
    ensures (x % (a * b)) % a == x % a
  {
    var q, r := x / (a * b), x % (a * b);
    assert x == (q * b + r / a) * a + r % a;
    DivModUnique(x, a, q * b + r / a, r % a);
  }

  /** Bit j of x / 2^a is bit a + j of x. */
  lemma BitOfQuotient(x: int, a: nat, j: nat)
    ensures Bit(x / Pow2(a), j) == Bit(x, a + j)
  {
    DivDiv(x, Pow2(a), Pow2(j));
    Pow2Add(a, j);
  }

  /** Numbers with the same remainder modulo 2^n agree on bits 0..n-1. */
  lemma LowBitsAgree(x: int, y: int, n: nat, i: nat)
    requires x % Pow2(n) == y % Pow2(n) && i < n
    ensures Bit(x, i) == Bit(y, i)
  {
    var a := Pow2(i);
    Pow2Add(i + 1, n - i - 1);
    DivDiv(x, a, 2);
    DivDiv(y, a, 2);
    assert Pow2(i + 1) == a * 2;
    ModMod(x, a * 2, Pow2(n - i - 1));
    ModMod(y, a * 2, Pow2(n - i - 1));
  }

  /** No bit at or above position n is set in a number below 2^n. */
  lemma HighBitsClear(x: nat, n: nat, i: nat)
    requires x < Pow2(n) && n <= i
    ensures !Bit(x, i)
  {
    Pow2Monotone(n, i);
    DivModUnique(x, Pow2(i), 0, x);
  }

  /** The value of a most-significant-first list of digits (Horner's rule). */
  function FromBits(s: seq<int>): int
  {
    if |s| == 0 then 0 else 2 * FromBits(s[..|s| - 1]) + s[|s| - 1]
  }

  predicate IsBitList(s: seq<int>) {
    forall i :: 0 <= i < |s| ==> s[i] == 0 || s[i] == 1
  }

  /** Python's `[int(c) for c in bin(e)[2:]]`: the binary digits of e,
      most significant first, with no leading zero except for e == 0. */
  function Digits(e: nat): (ds: seq<int>)
    ensures |ds| >= 1 && IsBitList(ds)
    ensures FromBits(ds) == e
    ensures ds[0] == (if e == 0 then 0 else 1)
    ensures e >= 1 ==> Pow2(|ds| - 1) <= e < Pow2(|ds|)
  {
    if e < 2 then [e]
    else
      var ds := Digits(e / 2) + [e % 2];
      assert ds[..|ds| - 1] == Digits(e / 2);
      ds
  }

  /** A list of binary digits denotes a number below 2^length. */
  lemma {:induction false} FromBitsRange(s: seq<int>)
    requires IsBitList(s)
    ensures 0 <= FromBits(s) < Pow2(|s|)
  {
    if |s| > 0 {
      FromBitsRange(s[..|s| - 1]);
    }
  }

  /** Appending digits shifts the value of the prefix up by their count. */
  lemma {:induction false} FromBitsAppend(a: seq<int>, b: seq<int>)
    ensures FromBits(a + b) == FromBits(a) * Pow2(|b|) + FromBits(b)
  {
    if |b| == 0 {
      assert a + b == a;
    } else {
      var c := b[..|b| - 1];
      assert (a + b)[..|a + b| - 1] == a + c;
      FromBitsAppend(a, c);
      Twice(FromBits(a), Pow2(|c|));
    }
  }

  /** Leading zero digits do not change the value. */
  lemma {:induction false} FromBitsZeros(k: nat, s: seq<int>)
    ensures FromBits(seq(k, _ => 0) + s) == FromBits(s)
  {
    if k > 0 {
      var z := seq(k, _ => 0);
      assert z == seq(k - 1, _ => 0) + [0];
      assert z + s == seq(k - 1, _ => 0) + ([0] + s);
      FromBitsZeros(k - 1, [0] + s);
      FromBitsAppend([0], s);
      assert [0][..0] == [];
    } else {
      assert seq(k, _ => 0) + s == s;
    }
  }

  /** One step of `|` and `&`: the last digits combine, the rest recurse. */
  lemma OrAndStep(x: nat, d: int, y: nat, e: int)
    requires (d == 0 || d == 1) && (e == 0 || e == 1)
    ensures NatOr(2 * x + d, 2 * y + e) == 2 * NatOr(x, y) + (if d == 1 || e == 1 then 1 else 0)
    ensures NatAnd(2 * x + d, 2 * y + e) == 2 * NatAnd(x, y) + d * e
  {
    assert (2 * x + d) / 2 == x && (2 * x + d) % 2 == d;
    assert (2 * y + e) / 2 == y && (2 * y + e) % 2 == e;
  }
}
