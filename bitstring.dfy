/** Powers of two and the unsigned integer denoted by a string of bits,
    least significant bit first. This is the arithmetic the magnitude of an
    MPI is measured with; nothing here is specific to limbs. */
module BitString {

  // Sequence facts, stated once so that the proofs using them do not need
  // to reason about sequence equality themselves.

  lemma {:induction false} SplitAt<T>(s: seq<T>, k: nat)
    requires k <= |s|
    ensures s == s[..k] + s[k..]
  {
  }

  lemma {:induction false} SplitLast<T>(s: seq<T>)
    requires s != []
    ensures s == s[..|s| - 1] + [s[|s| - 1]]
  {
  }

  lemma {:induction false} ConsAppend<T>(p: seq<T>, q: seq<T>)
    requires p != []
    ensures (p + q)[0] == p[0] && (p + q)[1..] == p[1..] + q
  {
  }

  lemma {:induction false} EmptyAppend<T>(p: seq<T>, q: seq<T>)
    requires p == []
    ensures p + q == q
  {
  }

  /** 2^n. */
  function Pow2(n: nat): (r: nat)
    ensures r >= 1
  {
    if n == 0 then 1 else 2 * Pow2(n - 1)
  }

  lemma {:induction false} MulNonNegative(a: int, b: int)
    requires a >= 0 && b >= 0
    ensures a * b >= 0
  {
  }

  lemma {:induction false} MulTwice(m: int, y: int)
    ensures 2 * (m * y) == (2 * m) * y
  {
  }

  lemma {:induction false} MulDistribute(a: int, b: int, c: int)
    ensures a * (b + c) == a * b + a * c
  {
  }

  lemma {:induction false} MulMonotone(c: int, a: int, b: int)
    requires c >= 0 && a <= b
    ensures c * a <= c * b
  {
    MulNonNegative(c, b - a);
    MulDistribute(c, a, b - a);
  }

  /** Regrouping one step of a positional sum: digit a, base c, lower
      part x, upper part y of weight m. */
  lemma {:induction false} DigitStep(a: int, c: int, x: int, m: int, y: int)
    ensures a + c * (x + m * y) == (a + c * x) + (c * m) * y
  {
    MulDistribute(c, x, m * y);
    assert c * (m * y) == (c * m) * y;
  }

  /** A non-zero multiple of d is at least d away from zero. */
  lemma {:induction false} MulAwayFromZero(d: int, k: int)
    requires d > 0
    ensures k >= 1 ==> d * k >= d
    ensures k <= -1 ==> d * k <= -d
  {
    if k >= 1 {
      MulNonNegative(d, k - 1);
      MulDistribute(d, k - 1, 1);
    } else if k <= -1 {
      MulNonNegative(d, -k - 1);
      MulDistribute(d, -k - 1, 1);
    }
  }

  /** x + w * v lies between w * lo and w * hi when x is a digit below w
      and lo <= v < hi. */
  lemma {:induction false} ScaleBounds(x: int, w: int, v: int, lo: int, hi: int)
    requires 0 <= x < w && lo <= v < hi
    ensures w * lo <= x + w * v < w * hi
  {
    MulMonotone(w, lo, v);
    MulMonotone(w, v + 1, hi);
    MulDistribute(w, v, 1);
  }

  /** Euclidean division is determined by any quotient/remainder pair. */
  lemma {:induction false} DivModUnique(x: int, d: int, q: int, r: int)
    requires 0 < d && 0 <= r < d && x == d * q + r
    ensures x / d == q && x % d == r
  {
    var q', r' := x / d, x % d;
    MulDistribute(d, q - q', q');
    MulAwayFromZero(d, q - q');
  }

  lemma {:induction false} Pow2Add(a: nat, b: nat)
    ensures Pow2(a + b) == Pow2(a) * Pow2(b)
  {
    if a > 0 {
      Pow2Add(a - 1, b);
      MulTwice(Pow2(a - 1), Pow2(b));
    }
  }

  /** A number whose top digit in base 2^k is v, with r binary digits, has
      k + r binary digits. */
  lemma {:induction false} ScaleDigits(val: int, x: int, lv: int, k: nat, r: nat, nb: nat)
    requires val == x + Pow2(k) * lv
    requires 0 <= x < Pow2(k)
    requires r > 0 && Pow2(r - 1) <= lv < Pow2(r)
    requires nb == k + r
    ensures Pow2(nb - 1) <= val < Pow2(nb)
  {
    Pow2Add(k, r - 1);
    Pow2Add(k, r);
    ScaleBounds(x, Pow2(k), lv, Pow2(r - 1), Pow2(r));
  }

  lemma {:induction false} Pow2Monotone(a: nat, b: nat)
    requires a <= b
    ensures Pow2(a) <= Pow2(b)
  {
    if a < b {
      Pow2Monotone(a, b - 1);
    }
  }

  /** The value of a bit string, b[0] weighing 2^0. */
  function BitsValue(b: seq<bool>): nat
  {
    if b == [] then 0 else Weight(b[0]) + 2 * BitsValue(b[1..])
  }

  /** A string of n bits denotes a number below 2^n. */
  lemma {:induction false} BitsValueBound(b: seq<bool>)
    ensures BitsValue(b) < Pow2(|b|)
  {
    if b != [] {
      BitsValueBound(b[1..]);
    }
  }

  /** The weight of one bit: 1 when set, 0 when clear. */
  function Weight(b: bool): nat
  {
    if b then 1 else 0
  }

  /** One step of BitsValue from position i. */
  lemma {:induction false} BitsValueStep(x: seq<bool>, i: nat)
    requires i < |x|
    ensures BitsValue(x[i..]) == Weight(x[i]) + 2 * BitsValue(x[i + 1..])
  {
    assert x[i..][1..] == x[i + 1..];
  }

  /** The value of an eight-bit string written out term by term. */
  lemma {:induction false} BitsValueOfEight(x: seq<bool>)
    requires |x| == 8
    ensures BitsValue(x) == Weight(x[0]) + 2 * Weight(x[1]) + 4 * Weight(x[2]) + 8 * Weight(x[3])
      + 16 * Weight(x[4]) + 32 * Weight(x[5]) + 64 * Weight(x[6]) + 128 * Weight(x[7])
  {
    assert x[0..] == x;
    BitsValueStep(x, 0);
    BitsValueStep(x, 1);
    BitsValueStep(x, 2);
    BitsValueStep(x, 3);
    BitsValueStep(x, 4);
    BitsValueStep(x, 5);
    BitsValueStep(x, 6);
    BitsValueStep(x, 7);
    assert x[8..] == [];
  }

  /** A byte has 256 values. */
  lemma {:induction false} Pow2Byte()
    ensures Pow2(8) == 256
  {
    assert Pow2(4) == 16;
  }

  /** A 32-bit string read as four 8-bit strings, least significant first. */
  lemma {:induction false} BitsValueOfFour(b: seq<bool>)
    requires |b| == 32
    ensures BitsValue(b) == BitsValue(b[0..8]) + 256 * (BitsValue(b[8..16])
      + 256 * (BitsValue(b[16..24]) + 256 * BitsValue(b[24..32])))
  {
    var b0, b1, b2, b3 := b[0..8], b[8..16], b[16..24], b[24..32];
    assert b == b0 + (b1 + (b2 + b3));
    BitsValueAppend(b2, b3);
    BitsValueAppend(b1, b2 + b3);
    BitsValueAppend(b0, b1 + (b2 + b3));
    Pow2Byte();
  }

  /** A string of n clear bits. */
  function Zeros(n: nat): (z: seq<bool>)
    ensures |z| == n && forall i :: 0 <= i < n ==> !z[i]
  {
    seq(n, _ => false)
  }

  /** Concatenation places the second string above the first. */
  lemma {:induction false} BitsValueAppend(p: seq<bool>, q: seq<bool>)
    ensures BitsValue(p + q) == BitsValue(p) + Pow2(|p|) * BitsValue(q)
  {
    if p == [] {
      assert p + q == q;
    } else {
      var tail, h := p[1..], Weight(p[0]);
      assert (p + q)[1..] == tail + q;
      assert (p + q)[0] == p[0];
      BitsValueAppend(tail, q);
      var m, y := Pow2(|tail|), BitsValue(q);
      assert BitsValue(p + q) == h + 2 * (BitsValue(tail) + m * y);
      MulTwice(m, y);
      assert Pow2(|p|) == 2 * m;
    }
  }

  /** Every bit of b from position n upwards is clear. */
  predicate ClearFrom(b: seq<bool>, n: nat)
  {
    forall i :: n <= i < |b| ==> !b[i]
  }

  /** A string whose bits are all clear denotes zero. */
  lemma {:induction false} BitsValueAllClear(b: seq<bool>)
    requires ClearFrom(b, 0)
    ensures BitsValue(b) == 0
  {
    if b != [] {
      BitsValueAllClear(b[1..]);
    }
  }

  /** Dropping the low n bits is floor division by 2^n. */
  lemma {:induction false} BitsValueDrop(b: seq<bool>, n: nat)
    requires n <= |b|
    ensures BitsValue(b[n..]) == BitsValue(b) / Pow2(n)
  {
    assert b == b[..n] + b[n..];
    BitsValueAppend(b[..n], b[n..]);
    BitsValueBound(b[..n]);
    DivModUnique(BitsValue(b), Pow2(n), BitsValue(b[n..]), BitsValue(b[..n]));
  }

  /** Dropping the low n bits and filling n clear bits in at the top is
      floor division by 2^n. */
  lemma {:induction false} BitsValueShift(b: seq<bool>, n: nat, z: seq<bool>)
    requires n <= |b| && z == b[n..] + Zeros(n)
    ensures BitsValue(z) == BitsValue(b) / Pow2(n)
  {
    BitsValueAppend(b[n..], Zeros(n));
    BitsValueAllClear(Zeros(n));
    BitsValueDrop(b, n);
  }

  /** Bit k of the value is b[k] inside the string and clear above it. */
  lemma {:induction false} BitsValueBit(b: seq<bool>, k: nat)
    ensures (BitsValue(b) / Pow2(k)) % 2 == (if k < |b| && b[k] then 1 else 0)
  {
    if k < |b| {
      BitsValueDrop(b, k);
      var rest := b[k..];
      assert rest[0] == b[k] && rest[1..] == b[k + 1..];
      DivModUnique(BitsValue(rest), 2, BitsValue(rest[1..]), if b[k] then 1 else 0);
    } else {
      Pow2Monotone(|b|, k);
      BitsValueBound(b);
      DivModUnique(BitsValue(b), Pow2(k), 0, BitsValue(b));
    }
  }

  /** A string whose top bit is set denotes at least 2^(|b|-1). */
  lemma {:induction false} BitsValueTopSet(b: seq<bool>)
    requires |b| > 0 && b[|b| - 1]
    ensures Pow2(|b| - 1) <= BitsValue(b)
  {
    var n := |b| - 1;
    assert b == b[..n] + b[n..];
    BitsValueAppend(b[..n], b[n..]);
    assert b[n..] == [true];
    assert BitsValue(b[n..]) == 1;
  }

  /** High clear bits do not contribute to the value. */
  lemma {:induction false} BitsValueLowPart(b: seq<bool>, n: nat)
    requires n <= |b| && ClearFrom(b, n)
    ensures BitsValue(b) == BitsValue(b[..n])
  {
    var lo, hi := b[..n], b[n..];
    assert b == lo + hi;
    assert ClearFrom(hi, 0) by {
      forall i | 0 <= i < |hi|
        ensures !hi[i]
      {
        assert hi[i] == b[n + i];
      }
    }
    BitsValueAllClear(hi);
    BitsValueAppend(lo, hi);
    assert Pow2(n) * BitsValue(hi) == 0;
  }

  /** Setting a clear bit k adds exactly 2^k. */
  lemma {:induction false} BitsValueSetBit(b: seq<bool>, k: nat)
    requires k < |b| && !b[k]
    ensures BitsValue(b[k := true]) == BitsValue(b) + Pow2(k)
  {
    var lo, hi := b[..k], b[k + 1..];
    var cleared, raised := [false] + hi, [true] + hi;
    assert b == lo + cleared;
    assert b[k := true] == lo + raised;
    BitsValueAppend(lo, cleared);
    BitsValueAppend(lo, raised);
    assert cleared[1..] == hi && raised[1..] == hi;
    assert BitsValue(raised) == BitsValue(cleared) + 1;
    MulDistribute(Pow2(k), BitsValue(cleared), 1);
  }

  /** The length of b without its clear high bits: one more than the
      position of the highest set bit, or 0 when no bit is set. */
  function SignificantBits(b: seq<bool>): (r: nat)
    ensures r <= |b|
    ensures r > 0 ==> b[r - 1]
    ensures ClearFrom(b, r)
    ensures (r == 0) == ClearFrom(b, 0)
  {
    if b == [] then 0
    else if b[|b| - 1] then |b|
    else SignificantBits(b[..|b| - 1])
  }

  /** A string with r significant bits denotes a number of r binary digits. */
  lemma {:induction false} SignificantBitsValue(b: seq<bool>)
    ensures var r := SignificantBits(b);
      && (r == 0 ==> BitsValue(b) == 0)
      && (r > 0 ==> Pow2(r - 1) <= BitsValue(b) < Pow2(r))
  {
    var r := SignificantBits(b);
    BitsValueLowPart(b, r);
    if r > 0 {
      BitsValueTopSet(b[..r]);
      BitsValueBound(b[..r]);
    } else {
      BitsValueAllClear(b);
    }
  }
}
