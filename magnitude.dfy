/** The magnitude of an MPI: the limbs in use, d[0..nlimbs), least
    significant limb first, denoting sum d[i] * 2^(W * i) with W = 32.
    The read-only operations of mpi-bit.c (mpi_get_nbits, mpi_test_bit) are
    functions of this sequence; the updates performed by the other
    operations are described here by functions of the old sequence, and
    what they do to the value is proved once, here. */
module Magnitude {
  import opened BitString
  import opened Limb

  /** The unsigned integer denoted by the limbs s. */
  function Value(s: seq<bv32>): nat
  {
    if s == [] then 0 else LimbValue(s[0]) + LimbBase * Value(s[1..])
  }

  /** The bits of s, bit 0 of limb 0 first. */
  function Bits(s: seq<bv32>): (b: seq<bool>)
    ensures |b| == LimbBits * |s|
  {
    if s == [] then [] else LimbBitsOf(s[0]) + Bits(s[1..])
  }

  lemma {:induction false} ValueBits(s: seq<bv32>)
    ensures Value(s) == BitsValue(Bits(s))
  {
    if s != [] {
      ValueBits(s[1..]);
      BitsValueAppend(LimbBitsOf(s[0]), Bits(s[1..]));
      LimbBaseIsPow2();
    }
  }

  /** Bit p of the string is bit p % W of limb p / W. */
  lemma {:induction false} BitsAt(s: seq<bv32>, p: nat)
    requires p < LimbBits * |s|
    ensures Bits(s)[p] == LimbBit(s[p / LimbBits], p % LimbBits)
  {
    if p >= LimbBits {
      var t := s[1..];
      BitsAt(t, p - LimbBits);
      LimbAbove(p);
      assert t[(p - LimbBits) / LimbBits] == s[p / LimbBits];
    }
  }

  /** Bit p lies one limb above bit p - W. */
  lemma {:induction false} LimbAbove(p: nat)
    requires p >= LimbBits
    ensures (p - LimbBits) / LimbBits + 1 == p / LimbBits && (p - LimbBits) % LimbBits == p % LimbBits
  {
  }

  lemma {:induction false} BitsAppend(p: seq<bv32>, q: seq<bv32>)
    ensures Bits(p + q) == Bits(p) + Bits(q)
  {
    if p == [] {
      EmptyAppend(p, q);
    } else {
      ConsAppend(p, q);
      BitsAppend(p[1..], q);
    }
  }

  /** Limbs placed above p weigh 2^(W * |p|). */
  lemma {:induction false} ValueAppend(p: seq<bv32>, q: seq<bv32>)
    ensures Value(p + q) == Value(p) + Pow2(LimbBits * |p|) * Value(q)
  {
    ValueBits(p + q);
    ValueBits(p);
    ValueBits(q);
    BitsAppend(p, q);
    BitsValueAppend(Bits(p), Bits(q));
  }

  /** k limbs denote a number below 2^(W * k). */
  lemma {:induction false} ValueBound(s: seq<bv32>)
    ensures Value(s) < Pow2(LimbBits * |s|)
  {
    ValueBits(s);
    BitsValueBound(Bits(s));
  }

  lemma {:induction false} ValueOne(v: bv32)
    ensures Value([v]) == LimbValue(v)
  {
    assert [v][1..] == [];
  }

  /** Limbs that are all zero denote zero. */
  lemma {:induction false} ValueAllZero(s: seq<bv32>)
    requires forall i :: 0 <= i < |s| ==> s[i] == 0
    ensures Value(s) == 0
  {
    if s != [] {
      ZeroLimbBits(s[0]);
      BitsValueAllClear(LimbBitsOf(s[0]));
      ValueAllZero(s[1..]);
    }
  }

  lemma {:induction false} ValueAllZeroFrom(s: seq<bv32>, k: nat)
    requires k <= |s|
    requires forall i :: k <= i < |s| ==> s[i] == 0
    ensures Value(s[k..]) == 0
  {
    ValueAllZero(s[k..]);
  }

  lemma {:induction false} ValueAppendZero(p: seq<bv32>, q: seq<bv32>)
    requires Value(q) == 0
    ensures Value(p + q) == Value(p)
  {
    ValueAppend(p, q);
  }

  /** Zero limbs at the top do not change the value. */
  lemma {:induction false} ValueDropZeros(s: seq<bv32>, k: nat)
    requires k <= |s|
    requires forall i :: k <= i < |s| ==> s[i] == 0
    ensures Value(s) == Value(s[..k])
  {
    SplitAt(s, k);
    ValueAllZeroFrom(s, k);
    ValueAppendZero(s[..k], s[k..]);
  }

  /** The top limb in use is non-zero, or no limb is in use (what
      MPN_NORMALIZE establishes). */
  predicate Normalized(s: seq<bv32>)
  {
    s == [] || s[|s| - 1] != 0
  }

  /** mpi_test_bit: 1 when bit n of the limbs is set; 0 when it is clear or
      lies beyond the limbs in use. */
  function TestBit(s: seq<bv32>, n: nat): (r: int)
    ensures r == 0 || r == 1
    ensures n / LimbBits >= |s| ==> r == 0
    ensures n / LimbBits < |s| ==> (r == 1 <==> LimbBit(s[n / LimbBits], n % LimbBits))
  {
    var limbno, bitno := n / LimbBits, n % LimbBits;
    if limbno >= |s| then
      0
    else
      var limb := s[limbno];
      MaskTest(limb, bitno);
      if limb & Mask(bitno) != 0 then 1 else 0
  }

  /** Bit m reads the same in s and in its k lowest limbs, when those hold
      it. */
  lemma {:induction false} TestBitPrefix(s: seq<bv32>, k: nat, m: nat)
    ensures m / LimbBits < k <= |s| ==> TestBit(s[..k], m) == TestBit(s, m)
  {
  }

  /** Inside the limbs, TestBit reads the bit string. */
  lemma {:induction false} TestBitBits(s: seq<bv32>, n: nat)
    requires n < LimbBits * |s|
    ensures (TestBit(s, n) == 1) == Bits(s)[n]
  {
    BitsAt(s, n);
  }

  /** TestBit(s, n) is binary digit n of the value. */
  lemma {:induction false} TestBitValue(s: seq<bv32>, n: nat)
    ensures TestBit(s, n) == (Value(s) / Pow2(n)) % 2
  {
    ValueBits(s);
    BitsValueBit(Bits(s), n);
    if n < LimbBits * |s| {
      TestBitBits(s, n);
    }
  }

  /** mpi_get_nbits: the number of bits, counting a zero top limb as
      contributing none of its W bits. */
  function NBits(s: seq<bv32>): (r: nat)
    ensures s == [] ==> r == 0
    ensures s != [] && s[|s| - 1] != 0 ==> LimbBits * (|s| - 1) < r <= LimbBits * |s|
    ensures s != [] && s[|s| - 1] != 0 ==> r == LimbBits * (|s| - 1) + BitLength(s[|s| - 1])
    ensures s != [] && s[|s| - 1] == 0 ==> r == LimbBits * (|s| - 1)
  {
    if |s| != 0 then
      var alimb := s[|s| - 1];
      var n := if alimb != 0 then CountLeadingZeros(alimb) else LimbBits;
      LimbBits - n + (|s| - 1) * LimbBits
    else
      0
  }

  /** mpi_test_bit reads 0 at every position from mpi_get_nbits upwards,
      whether or not the top limb is zero. */
  lemma {:induction false} TestBitAboveNBits(s: seq<bv32>, m: nat)
    ensures m >= NBits(s) ==> TestBit(s, m) == 0
  {
    if s != [] && m >= NBits(s) && m / LimbBits < |s| {
      var k := |s| - 1;
      DivModUnique(m, LimbBits, k, m - LimbBits * k);
      if s[k] == 0 {
        ZeroLimbBit(m % LimbBits);
      }
    }
  }

  /** On normalised limbs, NBits is the length of the value in binary. */
  lemma {:induction false} NBitsValue(s: seq<bv32>)
    requires Normalized(s)
    ensures NBits(s) == 0 ==> Value(s) == 0
    ensures NBits(s) > 0 ==> Pow2(NBits(s) - 1) <= Value(s) < Pow2(NBits(s))
  {
    if s != [] {
      var k := |s| - 1;
      var low, top := s[..k], s[k];
      SplitLast(s);
      ValueAppend(low, [top]);
      ValueOne(top);
      ValueBound(low);
      SignificantBitsValue(LimbBitsOf(top));
      ScaleDigits(Value(s), Value(low), LimbValue(top), LimbBits * k, BitLength(top), NBits(s));
    }
  }

  /** Normalised limbs denote zero only when there are none. */
  lemma {:induction false} NormalizedZero(s: seq<bv32>)
    requires Normalized(s)
    ensures Value(s) == 0 <==> s == []
  {
    NBitsValue(s);
  }

  /** Limbs s with bit n set; the limb holding bit n must be in use. */
  function SetLimbBit(s: seq<bv32>, n: nat): seq<bv32>
    requires n / LimbBits < |s|
  {
    var limbno := n / LimbBits;
    s[limbno := s[limbno] | Mask(n % LimbBits)]
  }

  /** SetLimbBit sets bit n and no other bit. */
  lemma {:induction false} SetLimbBitTest(s: seq<bv32>, n: nat, m: nat)
    ensures n / LimbBits < |s| ==>
      TestBit(SetLimbBit(s, n), m) == if m == n then 1 else TestBit(s, m)
  {
    if n / LimbBits < |s| && m / LimbBits == n / LimbBits {
      SetMaskBit(s[n / LimbBits], n % LimbBits, m % LimbBits);
    }
  }

  /** Setting bit n commutes with keeping the k lowest limbs, when bit n
      lies in one of them. */
  lemma {:induction false} SetLimbBitPrefix(s: seq<bv32>, n: nat, k: nat)
    ensures n / LimbBits < k <= |s| ==> SetLimbBit(s, n)[..k] == SetLimbBit(s[..k], n)
  {
  }

  /** Setting a clear bit n adds 2^n to the value; setting a set bit adds
      nothing. */
  lemma {:induction false} SetLimbBitValue(s: seq<bv32>, n: nat)
    requires n / LimbBits < |s|
    ensures Value(SetLimbBit(s, n)) == Value(s) + (if TestBit(s, n) == 1 then 0 else Pow2(n))
  {
    var t := SetLimbBit(s, n);
    var b := Bits(s);
    assert n < LimbBits * |s|;
    TestBitBits(s, n);
    assert Bits(t) == b[n := true] by {
      forall p | 0 <= p < |b|
        ensures Bits(t)[p] == b[n := true][p]
      {
        TestBitBits(s, p);
        TestBitBits(t, p);
        SetLimbBitTest(s, n, p);
      }
    }
    ValueBits(s);
    ValueBits(t);
    if b[n] {
      assert b[n := true] == b;
    } else {
      BitsValueSetBit(b, n);
    }
  }

  /** Setting a bit twice is setting it once. */
  lemma {:induction false} SetLimbBitTwice(s: seq<bv32>, n: nat)
    requires n / LimbBits < |s|
    ensures SetLimbBit(SetLimbBit(s, n), n) == SetLimbBit(s, n)
  {
    var t := SetLimbBit(s, n);
    SetLimbBitTest(s, n, n);
    SetMaskNoChange(t[n / LimbBits], n % LimbBits);
  }

  /** Setting a bit that is already set changes nothing: this is why a
      second mpi_set_bit of the same bit leaves the MPI as the first left
      it. */
  lemma {:induction false} SetLimbBitNoChange(s: seq<bv32>, n: nat)
    requires n / LimbBits < |s| && TestBit(s, n) == 1
    ensures SetLimbBit(s, n) == s
  {
    SetMaskNoChange(s[n / LimbBits], n % LimbBits);
  }

  /** Limbs s with bit n clear; nothing changes when bit n lies beyond the
      limbs in use. */
  function ClearLimbBit(s: seq<bv32>, n: nat): seq<bv32>
  {
    var limbno := n / LimbBits;
    if limbno >= |s| then s else s[limbno := s[limbno] & !Mask(n % LimbBits)]
  }

  /** ClearLimbBit clears bit n and no other bit. */
  lemma {:induction false} ClearLimbBitTest(s: seq<bv32>, n: nat, m: nat)
    ensures TestBit(ClearLimbBit(s, n), m) == if m == n then 0 else TestBit(s, m)
  {
    if n / LimbBits < |s| && m / LimbBits == n / LimbBits {
      ClearMaskBit(s[n / LimbBits], n % LimbBits, m % LimbBits);
    }
  }

  /** Clearing a set bit n takes 2^n from the value; clearing a clear bit
      takes nothing. */
  lemma {:induction false} ClearLimbBitValue(s: seq<bv32>, n: nat)
    ensures Value(ClearLimbBit(s, n)) + (if TestBit(s, n) == 1 then Pow2(n) else 0) == Value(s)
  {
    var t := ClearLimbBit(s, n);
    if n / LimbBits < |s| {
      var b := Bits(t);
      assert n < LimbBits * |s|;
      ClearLimbBitTest(s, n, n);
      TestBitBits(t, n);
      assert Bits(s) == b[n := TestBit(s, n) == 1] by {
        forall p | 0 <= p < |b|
          ensures Bits(s)[p] == b[n := TestBit(s, n) == 1][p]
        {
          TestBitBits(s, p);
          TestBitBits(t, p);
          ClearLimbBitTest(s, n, p);
        }
      }
      ValueBits(s);
      ValueBits(t);
      if TestBit(s, n) == 1 {
        BitsValueSetBit(b, n);
      } else {
        assert b[n := false] == b;
      }
    }
  }

  /** Clearing a bit twice is clearing it once. */
  lemma {:induction false} ClearLimbBitTwice(s: seq<bv32>, n: nat)
    ensures ClearLimbBit(ClearLimbBit(s, n), n) == ClearLimbBit(s, n)
  {
    var t := ClearLimbBit(s, n);
    if n / LimbBits < |s| {
      ClearLimbBitTest(s, n, n);
      ClearMaskNoChange(t[n / LimbBits], n % LimbBits);
    }
  }

  /** Clearing a bit that is already clear, or that lies beyond the limbs,
      changes nothing. */
  lemma {:induction false} ClearLimbBitNoChange(s: seq<bv32>, n: nat)
    requires TestBit(s, n) == 0
    ensures ClearLimbBit(s, n) == s
  {
    if n / LimbBits < |s| {
      ClearMaskNoChange(s[n / LimbBits], n % LimbBits);
    }
  }

  /** What mpihelp_rshift stores: every limb shifted right by cnt, with the
      low cnt bits of the next limb (none for the top limb) brought in at
      the top. */
  function ShiftedLimbs(s: seq<bv32>, cnt: nat): (t: seq<bv32>)
    requires 0 < cnt < LimbBits
    ensures |t| == |s|
  {
    if s == [] then [] else [ShiftedLimb(s[0], NextLimb(s, 0), cnt)] + ShiftedLimbs(s[1..], cnt)
  }

  /** The limb above limb i, or zero above the top limb. */
  function NextLimb(s: seq<bv32>, i: nat): bv32
  {
    if i + 1 < |s| then s[i + 1] else 0
  }

  /** Limb i of the shifted limbs is limb i shifted right by cnt, with the
      low bits of the limb above brought in at the top. */
  lemma {:induction false} ShiftedLimbsAt(s: seq<bv32>, cnt: nat, i: nat)
    requires 0 < cnt < LimbBits && i < |s|
    ensures ShiftedLimbs(s, cnt)[i] == ShiftedLimb(s[i], NextLimb(s, i), cnt)
  {
    if i > 0 {
      ShiftedLimbsAt(s[1..], cnt, i - 1);
    }
  }

  /** Bit p of the shifted limbs is bit p + cnt of s, clear beyond s. */
  lemma {:induction false} ShiftedBitAt(s: seq<bv32>, cnt: nat, p: nat)
    requires 0 < cnt < LimbBits && p < LimbBits * |s|
    ensures LimbBit(ShiftedLimbs(s, cnt)[p / LimbBits], p % LimbBits) ==
      (p + cnt < LimbBits * |s| && LimbBit(s[(p + cnt) / LimbBits], (p + cnt) % LimbBits))
  {
    var q, r := p / LimbBits, p % LimbBits;
    ShiftIndex(p, cnt);
    ShiftedLimbsAt(s, cnt, q);
    ShiftedLimbBit(s[q], NextLimb(s, q), cnt, r);
    if r + cnt >= LimbBits && q + 1 >= |s| {
      ZeroLimbBit(r + cnt - LimbBits);
    }
  }

  /** Where bit p + cnt lies, for a shift cnt below the limb width. */
  lemma {:induction false} ShiftIndex(p: nat, cnt: nat)
    requires cnt < LimbBits
    ensures var q, r := p / LimbBits, p % LimbBits;
      if r + cnt < LimbBits then (p + cnt) / LimbBits == q && (p + cnt) % LimbBits == r + cnt
      else (p + cnt) / LimbBits == q + 1 && (p + cnt) % LimbBits == r + cnt - LimbBits
  {
  }

  /** The shifted limbs hold the bits of s from cnt upwards, then cnt clear
      bits. */
  lemma {:induction false} ShiftedBits(s: seq<bv32>, cnt: nat)
    requires 0 < cnt < LimbBits && s != []
    ensures Bits(ShiftedLimbs(s, cnt)) == Bits(s)[cnt..] + Zeros(cnt)
  {
    var b := Bits(s);
    var z := b[cnt..] + Zeros(cnt);
    forall p | 0 <= p < |z|
      ensures Bits(ShiftedLimbs(s, cnt))[p] == z[p]
    {
      BitsAt(ShiftedLimbs(s, cnt), p);
      ShiftedBitAt(s, cnt, p);
      if p + cnt < |b| {
        BitsAt(s, p + cnt);
      }
    }
  }

  /** mpihelp_rshift divides the value by 2^cnt, rounding down. */
  lemma {:induction false} ShiftedLimbsValue(s: seq<bv32>, cnt: nat)
    requires 0 < cnt < LimbBits
    ensures Value(ShiftedLimbs(s, cnt)) == Value(s) / Pow2(cnt)
  {
    if s != [] {
      ShiftedBits(s, cnt);
      ShiftedValue(s, ShiftedLimbs(s, cnt), cnt);
    } else {
      DivModUnique(Value(s), Pow2(cnt), 0, 0);
    }
  }

  lemma {:induction false} ShiftedValue(s: seq<bv32>, t: seq<bv32>, cnt: nat)
    requires cnt <= LimbBits * |s|
    requires Bits(t) == Bits(s)[cnt..] + Zeros(cnt)
    ensures Value(t) == Value(s) / Pow2(cnt)
  {
    ValueBits(s);
    ValueBits(t);
    BitsValueShift(Bits(s), cnt, Bits(t));
  }

  /** Limbs whose byte lanes are consecutive groups of four bytes of g denote
      the little-endian value of those bytes. */
  lemma {:induction false} LanesValue(s: seq<bv32>, g: seq<bv8>, m: nat)
    requires m <= |s| && LimbBytes * m <= |g|
    requires forall k :: 0 <= k < m ==> LanesOf(s[k]) == g[LimbBytes * k..LimbBytes * k + LimbBytes]
    ensures Value(s[..m]) == BytesValue(g[..LimbBytes * m])
  {
    if m > 0 {
      var k := m - 1;
      LanesValue(s, g, k);
      var lanes := g[LimbBytes * k..LimbBytes * m];
      assert s[..m] == s[..k] + [s[k]];
      assert g[..LimbBytes * m] == g[..LimbBytes * k] + lanes;
      ValueAppend(s[..k], [s[k]]);
      ValueOne(s[k]);
      LimbValueBytes(s[k]);
      BytesValueAppend(g[..LimbBytes * k], lanes);
      assert 8 * (LimbBytes * k) == LimbBits * k;
    }
  }
}
