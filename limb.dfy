/** One limb (mpi_limb_t) of a multi-precision integer, fixed at 32 bits:
    its bits, the single-bit masks `1 << bitno`, the two-limb shift of
    mpihelp_rshift, its byte lanes, the unsigned value it denotes and
    count_leading_zeros.

    Facts about bit-vector operations are stated over `bv5` bit numbers
    (`bv3` inside a byte) as implications; each fact about a `nat` bit
    number is then obtained at BitIndex(j). */
module Limb {
  import opened BitString

  /** BITS_PER_MPI_LIMB and BYTES_PER_MPI_LIMB. */
  const LimbBits: nat := 32
  const LimbBytes: nat := 4

  /** 2^W, the weight of the limb above. */
  const LimbBase: nat := 0x1_0000_0000

  lemma {:induction false} LimbBaseIsPow2()
    ensures Pow2(LimbBits) == LimbBase
  {
    assert Pow2(16) == 0x1_0000 by {
      Pow2Byte();
    }
    Pow2Add(16, 16);
  }

  /** Bit a of v, bit 0 being the least significant. */
  predicate Bit(v: bv32, a: bv5)
  {
    (v >> a) & 1 == 1
  }

  /** The bit number j, taken modulo the limb width, as a shift amount. */
  function BitIndex(j: int): bv5
  {
    (j % LimbBits) as bv5
  }

  lemma {:induction false} IndexValue(j: nat)
    ensures j < LimbBits ==> BitIndex(j) as int == j
  {
  }

  lemma {:induction false} IndexDistinct(j: nat, k: nat)
    requires j < LimbBits && k < LimbBits && j != k
    ensures BitIndex(j) != BitIndex(k)
  {
    IndexValue(j);
    IndexValue(k);
  }

  lemma {:induction false} IndexOnto(a: bv5)
    ensures BitIndex(a as int) == a
  {
  }

  /** Bit j of limb v, for a bit number j below the limb width. */
  predicate LimbBit(v: bv32, j: nat)
    requires j < LimbBits
  {
    Bit(v, BitIndex(j))
  }

  /** The single-bit mask `1 << bitno`. */
  function Mask(j: nat): bv32
    requires j < LimbBits
  {
    1 << BitIndex(j)
  }

  lemma {:induction false} MaskBit(v: bv32, a: bv5)
    ensures (v & (1 << a) != 0) == Bit(v, a)
  {
  }

  lemma {:induction false} OrMaskSame(v: bv32, a: bv5)
    ensures Bit(v | (1 << a), a)
  {
  }

  lemma {:induction false} OrMaskOther(v: bv32, a: bv5, b: bv5)
    ensures a != b ==> Bit(v | (1 << a), b) == Bit(v, b)
  {
  }

  lemma {:induction false} AndNotMaskSame(v: bv32, a: bv5)
    ensures !Bit(v & !(1 << a), a)
  {
  }

  lemma {:induction false} AndNotMaskOther(v: bv32, a: bv5, b: bv5)
    ensures a != b ==> Bit(v & !(1 << a), b) == Bit(v, b)
  {
  }

  lemma {:induction false} OrMaskSet(v: bv32, a: bv5)
    ensures Bit(v, a) ==> v | (1 << a) == v
  {
  }

  lemma {:induction false} AndNotMaskClear(v: bv32, a: bv5)
    ensures !Bit(v, a) ==> v & !(1 << a) == v
  {
  }

  /** `limb & (1 << bitno)` is non-zero exactly when bit bitno is set. */
  lemma {:induction false} MaskTest(v: bv32, j: nat)
    requires j < LimbBits
    ensures (v & Mask(j) != 0) == LimbBit(v, j)
  {
    MaskBit(v, BitIndex(j));
  }

  lemma {:induction false} SetMaskSame(v: bv32, j: nat)
    requires j < LimbBits
    ensures LimbBit(v | Mask(j), j)
  {
    OrMaskSame(v, BitIndex(j));
  }

  lemma {:induction false} SetMaskOther(v: bv32, j: nat, k: nat)
    requires j < LimbBits && k < LimbBits && j != k
    ensures LimbBit(v | Mask(j), k) == LimbBit(v, k)
  {
    IndexDistinct(j, k);
    OrMaskOther(v, BitIndex(j), BitIndex(k));
  }

  /** `limb |= 1 << bitno` sets bit bitno and no other. */
  lemma {:induction false} SetMaskBit(v: bv32, j: nat, k: nat)
    requires j < LimbBits && k < LimbBits
    ensures LimbBit(v | Mask(j), k) == (k == j || LimbBit(v, k))
  {
    if j == k {
      SetMaskSame(v, j);
    } else {
      SetMaskOther(v, j, k);
    }
  }

  lemma {:induction false} ClearMaskSame(v: bv32, j: nat)
    requires j < LimbBits
    ensures !LimbBit(v & !Mask(j), j)
  {
    AndNotMaskSame(v, BitIndex(j));
  }

  lemma {:induction false} ClearMaskOther(v: bv32, j: nat, k: nat)
    requires j < LimbBits && k < LimbBits && j != k
    ensures LimbBit(v & !Mask(j), k) == LimbBit(v, k)
  {
    IndexDistinct(j, k);
    AndNotMaskOther(v, BitIndex(j), BitIndex(k));
  }

  /** `limb &= ~(1 << bitno)` clears bit bitno and no other. */
  lemma {:induction false} ClearMaskBit(v: bv32, j: nat, k: nat)
    requires j < LimbBits && k < LimbBits
    ensures LimbBit(v & !Mask(j), k) == (k != j && LimbBit(v, k))
  {
    if j == k {
      ClearMaskSame(v, j);
    } else {
      ClearMaskOther(v, j, k);
    }
  }

  /** Setting a bit that is already set leaves the limb as it is. */
  lemma {:induction false} SetMaskNoChange(v: bv32, j: nat)
    requires j < LimbBits
    ensures LimbBit(v, j) ==> v | Mask(j) == v
  {
    OrMaskSet(v, BitIndex(j));
  }

  /** Clearing a bit that is already clear leaves the limb as it is. */
  lemma {:induction false} ClearMaskNoChange(v: bv32, j: nat)
    requires j < LimbBits
    ensures !LimbBit(v, j) ==> v & !Mask(j) == v
  {
    AndNotMaskClear(v, BitIndex(j));
  }

  lemma {:induction false} ZeroBit(a: bv5)
    ensures !Bit(0, a)
  {
  }

  lemma {:induction false} ZeroLimbBit(j: nat)
    requires j < LimbBits
    ensures !LimbBit(0, j)
  {
    ZeroBit(BitIndex(j));
  }

  lemma {:induction false} AllBitsClear(v: bv32)
    ensures (!Bit(v, 0) && !Bit(v, 1) && !Bit(v, 2) && !Bit(v, 3) && !Bit(v, 4) && !Bit(v, 5) && !Bit(v, 6) && !Bit(v, 7)
      && !Bit(v, 8) && !Bit(v, 9) && !Bit(v, 10) && !Bit(v, 11) && !Bit(v, 12) && !Bit(v, 13) && !Bit(v, 14) && !Bit(v, 15)
      && !Bit(v, 16) && !Bit(v, 17) && !Bit(v, 18) && !Bit(v, 19) && !Bit(v, 20) && !Bit(v, 21) && !Bit(v, 22) && !Bit(v, 23)
      && !Bit(v, 24) && !Bit(v, 25) && !Bit(v, 26) && !Bit(v, 27) && !Bit(v, 28) && !Bit(v, 29) && !Bit(v, 30) && !Bit(v, 31))
      ==> v == 0
  {
  }

  lemma {:induction false} AllIndicesClear(v: bv32)
    ensures (forall a: bv5 :: !Bit(v, a)) ==> v == 0
  {
    AllBitsClear(v);
  }

  /** The bits of v, least significant first. */
  function LimbBitsOf(v: bv32): (b: seq<bool>)
    ensures |b| == LimbBits
    ensures forall j :: 0 <= j < LimbBits ==> b[j] == LimbBit(v, j)
  {
    seq(LimbBits, j => Bit(v, BitIndex(j)))
  }

  /** A limb whose 32 bits are all clear is zero. */
  lemma {:induction false} ClearLimbIsZero(v: bv32)
    ensures ClearFrom(LimbBitsOf(v), 0) ==> v == 0
  {
    var b := LimbBitsOf(v);
    if ClearFrom(b, 0) {
      forall a: bv5
        ensures !Bit(v, a)
      {
        IndexOnto(a);
        assert !b[a as int];
      }
      AllIndicesClear(v);
    }
  }

  /** A limb is zero exactly when its bit string has no bit set. */
  lemma {:induction false} ZeroLimbBits(v: bv32)
    ensures (v == 0) == ClearFrom(LimbBitsOf(v), 0)
  {
    ClearLimbIsZero(v);
    if v == 0 {
      forall j | 0 <= j < LimbBits
        ensures !LimbBitsOf(v)[j]
      {
        ZeroLimbBit(j);
      }
    }
  }

  /** The unsigned integer a limb denotes: bit j weighs 2^j. */
  function LimbValue(v: bv32): nat
  {
    BitsValue(LimbBitsOf(v))
  }

  /** The number of significant bits of v. */
  function BitLength(v: bv32): (r: nat)
    ensures r <= LimbBits
    ensures r == 0 <==> v == 0
    ensures r > 0 ==> LimbBit(v, r - 1)
    ensures forall j :: r <= j < LimbBits ==> !LimbBit(v, j)
  {
    ZeroLimbBits(v);
    SignificantBits(LimbBitsOf(v))
  }

  /** A limb whose bit j is set and whose bits above j are clear has
      j + 1 significant bits. */
  lemma {:induction false} BitLengthUnique(v: bv32, j: nat)
    requires j < LimbBits && LimbBit(v, j)
    requires forall k :: j < k < LimbBits ==> !LimbBit(v, k)
    ensures BitLength(v) == j + 1
  {
  }

  /** count_leading_zeros: the number of clear bits above the highest set
      bit of a non-zero limb. */
  function CountLeadingZeros(v: bv32): (n: nat)
    requires v != 0
    ensures n < LimbBits
    ensures LimbBit(v, LimbBits - 1 - n)
    ensures forall j :: LimbBits - n <= j < LimbBits ==> !LimbBit(v, j)
  {
    LimbBits - BitLength(v)
  }

  /** (lo >> c) | (hi << (W - c)): the limb a right shift by c stores when
      the pair hi:lo is shifted. */
  function Funnel(lo: bv32, hi: bv32, c: bv5): bv32
  {
    (lo >> c) | (hi << (32 - c as bv32))
  }

  lemma {:induction false} FunnelLow(lo: bv32, hi: bv32, c: bv5, a: bv5)
    ensures c != 0 && (a as bv32) + (c as bv32) < 32 ==> Bit(Funnel(lo, hi, c), a) == Bit(lo, a + c)
  {
  }

  lemma {:induction false} FunnelHigh(lo: bv32, hi: bv32, c: bv5, a: bv5)
    ensures c != 0 && 32 <= (a as bv32) + (c as bv32) ==> Bit(Funnel(lo, hi, c), a) == Bit(hi, a + c)
  {
  }

  lemma {:induction false} BitSumLow(a: bv5, c: bv5, t: bv5)
    ensures t as int == a as int + c as int ==> (a as bv32) + (c as bv32) < 32 && t == a + c
  {
  }

  lemma {:induction false} BitSumHigh(a: bv5, c: bv5, t: bv5)
    ensures t as int + 32 == a as int + c as int ==> 32 <= (a as bv32) + (c as bv32) && t == a + c
  {
  }

  lemma {:induction false} IndexSumLow(j: nat, c: nat)
    requires 0 < c && j + c < LimbBits
    ensures BitIndex(c) != 0
    ensures (BitIndex(j) as bv32) + (BitIndex(c) as bv32) < 32
    ensures BitIndex(j + c) == BitIndex(j) + BitIndex(c)
  {
    IndexValue(j);
    IndexValue(c);
    IndexValue(j + c);
    BitSumLow(BitIndex(j), BitIndex(c), BitIndex(j + c));
  }

  lemma {:induction false} IndexSumHigh(j: nat, c: nat)
    requires j < LimbBits && 0 < c < LimbBits && LimbBits <= j + c
    ensures BitIndex(c) != 0
    ensures 32 <= (BitIndex(j) as bv32) + (BitIndex(c) as bv32)
    ensures BitIndex(j + c - LimbBits) == BitIndex(j) + BitIndex(c)
  {
    IndexValue(j);
    IndexValue(c);
    IndexValue(j + c - LimbBits);
    BitSumHigh(BitIndex(j), BitIndex(c), BitIndex(j + c - LimbBits));
  }

  /** The limb mpihelp_rshift stores at position i: limb i shifted right by
      cnt with the low cnt bits of limb i + 1 brought in at the top. */
  function ShiftedLimb(lo: bv32, hi: bv32, cnt: nat): bv32
    requires 0 < cnt < LimbBits
  {
    Funnel(lo, hi, BitIndex(cnt))
  }

  lemma {:induction false} ShiftedLimbLow(lo: bv32, hi: bv32, cnt: nat, j: nat)
    requires 0 < cnt < LimbBits && j + cnt < LimbBits
    ensures LimbBit(ShiftedLimb(lo, hi, cnt), j) == LimbBit(lo, j + cnt)
  {
    IndexSumLow(j, cnt);
    FunnelLow(lo, hi, BitIndex(cnt), BitIndex(j));
  }

  lemma {:induction false} ShiftedLimbHigh(lo: bv32, hi: bv32, cnt: nat, j: nat)
    requires 0 < cnt < LimbBits && j < LimbBits <= j + cnt
    ensures LimbBit(ShiftedLimb(lo, hi, cnt), j) == LimbBit(hi, j + cnt - LimbBits)
  {
    IndexSumHigh(j, cnt);
    FunnelHigh(lo, hi, BitIndex(cnt), BitIndex(j));
  }

  /** Bit j of a shifted limb is bit j + cnt of the pair hi:lo. */
  lemma {:induction false} ShiftedLimbBit(lo: bv32, hi: bv32, cnt: nat, j: nat)
    requires 0 < cnt < LimbBits && j < LimbBits
    ensures LimbBit(ShiftedLimb(lo, hi, cnt), j)
         == if j + cnt < LimbBits then LimbBit(lo, j + cnt) else LimbBit(hi, j + cnt - LimbBits)
  {
    if j + cnt < LimbBits {
      ShiftedLimbLow(lo, hi, cnt, j);
    } else {
      ShiftedLimbHigh(lo, hi, cnt, j);
    }
  }

  // Byte lanes. Lane 0 is the least significant byte of the limb.

  /** Bit i of byte b. */
  predicate ByteBit(b: bv8, i: bv3)
  {
    (b >> i) & 1 == 1
  }

  /** The bit number i, taken modulo 8, as a shift amount within a byte. */
  function ByteIndex(i: int): bv3
  {
    (i % 8) as bv3
  }

  /** The bits of a byte, least significant first. */
  function ByteBitsOf(b: bv8): (r: seq<bool>)
    ensures |r| == 8
    ensures forall i :: 0 <= i < 8 ==> r[i] == ByteBit(b, ByteIndex(i))
  {
    seq(8, i => ByteBit(b, ByteIndex(i)))
  }

  lemma {:induction false} ByteWeights(b: bv8)
    ensures b as int == Weight(ByteBit(b, 0)) + 2 * Weight(ByteBit(b, 1))
      + 4 * Weight(ByteBit(b, 2)) + 8 * Weight(ByteBit(b, 3))
      + 16 * Weight(ByteBit(b, 4)) + 32 * Weight(ByteBit(b, 5))
      + 64 * Weight(ByteBit(b, 6)) + 128 * Weight(ByteBit(b, 7))
  {
  }

  /** The bits of a byte denote the byte's unsigned value. */
  lemma {:induction false} ByteBitsValue(b: bv8)
    ensures BitsValue(ByteBitsOf(b)) == b as int
  {
    var x := ByteBitsOf(b);
    BitsValueOfEight(x);
    assert ByteIndex(0) == 0 && ByteIndex(1) == 1 && ByteIndex(2) == 2 && ByteIndex(3) == 3;
    assert ByteIndex(4) == 4 && ByteIndex(5) == 5 && ByteIndex(6) == 6 && ByteIndex(7) == 7;
    ByteWeights(b);
  }

  /** The shift that brings byte lane `lane` to the bottom of the limb. */
  function LaneShift(lane: nat): (s: bv5)
    requires lane < LimbBytes
    ensures s == 0 || s == 8 || s == 16 || s == 24
  {
    if lane == 0 then 0 else if lane == 1 then 8 else if lane == 2 then 16 else 24
  }

  lemma {:induction false} LaneShiftValue(lane: nat)
    requires lane < LimbBytes
    ensures LaneShift(lane) as int == 8 * lane
  {
  }

  lemma {:induction false} ByteIndexValue(i: nat)
    ensures i < 8 ==> ByteIndex(i) as int == i
  {
  }

  lemma {:induction false} LaneShiftDistinct(l: nat, m: nat)
    requires l < LimbBytes && m < LimbBytes && l != m
    ensures LaneShift(l) != LaneShift(m)
  {
  }

  /** Byte lane `lane` of v. */
  function GetByte(v: bv32, lane: nat): bv8
    requires lane < LimbBytes
  {
    ((v >> LaneShift(lane)) & 0xFF) as bv8
  }

  lemma {:induction false} LaneBit(v: bv32, s: bv5, i: bv3, a: bv5)
    ensures (s == 0 || s == 8 || s == 16 || s == 24) && a == s + i as bv5
      ==> Bit(v, a) == ByteBit(((v >> s) & 0xFF) as bv8, i)
  {
  }

  lemma {:induction false} LaneSum(s: bv5, i: bv3, a: bv5)
    ensures a as int == s as int + i as int ==> a == s + i as bv5
  {
  }

  lemma {:induction false} LaneIndexSum(lane: nat, i: nat)
    requires lane < LimbBytes && i < 8
    ensures BitIndex(8 * lane + i) == LaneShift(lane) + ByteIndex(i) as bv5
  {
    IndexValue(8 * lane + i);
    LaneShiftValue(lane);
    ByteIndexValue(i);
    LaneSum(LaneShift(lane), ByteIndex(i), BitIndex(8 * lane + i));
  }

  /** Bit i of lane `lane` is bit 8 * lane + i of the limb. */
  lemma {:induction false} LaneByteBit(v: bv32, lane: nat, i: nat)
    requires lane < LimbBytes && i < 8
    ensures LimbBit(v, 8 * lane + i) == ByteBit(GetByte(v, lane), ByteIndex(i))
  {
    LaneIndexSum(lane, i);
    LaneBit(v, LaneShift(lane), ByteIndex(i), BitIndex(8 * lane + i));
  }

  /** The eight bits of lane `lane` are the limb's bits 8 * lane to 8 * lane + 7. */
  lemma {:induction false} LaneSlice(v: bv32, lane: nat)
    requires lane < LimbBytes
    ensures LimbBitsOf(v)[8 * lane..8 * lane + 8] == ByteBitsOf(GetByte(v, lane))
  {
    var b, c := LimbBitsOf(v)[8 * lane..8 * lane + 8], ByteBitsOf(GetByte(v, lane));
    forall i | 0 <= i < 8
      ensures b[i] == c[i]
    {
      LaneByteBit(v, lane, i);
    }
  }

  /** The little-endian value of a byte string: bs[i] weighs 256^i. */
  function BytesValue(bs: seq<bv8>): nat
  {
    if bs == [] then 0 else bs[0] as int + 256 * BytesValue(bs[1..])
  }

  /** Bytes q placed after bytes p weigh 2^(8 * |p|). */
  lemma {:induction false} BytesValueAppend(p: seq<bv8>, q: seq<bv8>)
    ensures BytesValue(p + q) == BytesValue(p) + Pow2(8 * |p|) * BytesValue(q)
  {
    if p == [] {
      EmptyAppend(p, q);
    } else {
      var a, x, y, m := p[0] as int, BytesValue(p[1..]), BytesValue(q), Pow2(8 * (|p| - 1));
      calc {
        BytesValue(p + q);
      == { ConsAppend(p, q); }
        a + 256 * BytesValue(p[1..] + q);
      == { BytesValueAppend(p[1..], q); }
        a + 256 * (x + m * y);
      == { DigitStep(a, 256, x, m, y); }
        (a + 256 * x) + (256 * m) * y;
      == { Pow2Add(8, 8 * (|p| - 1)); Pow2Byte(); }
        BytesValue(p) + Pow2(8 * |p|) * y;
      }
    }
  }

  /** The four byte lanes of v, lane 0 first. */
  function LanesOf(v: bv32): (bs: seq<bv8>)
    ensures |bs| == LimbBytes
    ensures forall l :: 0 <= l < LimbBytes ==> bs[l] == GetByte(v, l)
  {
    [GetByte(v, 0), GetByte(v, 1), GetByte(v, 2), GetByte(v, 3)]
  }

  lemma {:induction false} BytesValueStep(bs: seq<bv8>, i: nat)
    requires i < |bs|
    ensures BytesValue(bs[i..]) == bs[i] as int + 256 * BytesValue(bs[i + 1..])
  {
    assert bs[i..][1..] == bs[i + 1..];
  }

  lemma {:induction false} FourBytesValue(bs: seq<bv8>)
    requires |bs| == 4
    ensures BytesValue(bs) == bs[0] as int + 256 * (bs[1] as int + 256 * (bs[2] as int + 256 * bs[3] as int))
  {
    assert bs[0..] == bs;
    BytesValueStep(bs, 0);
    BytesValueStep(bs, 1);
    BytesValueStep(bs, 2);
    BytesValueStep(bs, 3);
    assert bs[4..] == [];
  }

  /** A limb's value is the little-endian value of its byte lanes. */
  lemma {:induction false} LimbValueBytes(v: bv32)
    ensures LimbValue(v) == BytesValue(LanesOf(v))
  {
    BitsValueOfFour(LimbBitsOf(v));
    LaneSlice(v, 0);
    LaneSlice(v, 1);
    LaneSlice(v, 2);
    LaneSlice(v, 3);
    ByteBitsValue(GetByte(v, 0));
    ByteBitsValue(GetByte(v, 1));
    ByteBitsValue(GetByte(v, 2));
    ByteBitsValue(GetByte(v, 3));
    FourBytesValue(LanesOf(v));
  }

  /** (v & ~(0xFF << s)) | (b << s): v with the byte at shift s replaced. */
  function StoreLane(v: bv32, s: bv5, b: bv8): bv32
  {
    (v & !(0xFF << s)) | ((b as bv32) << s)
  }

  lemma {:induction false} StoreLaneSame(v: bv32, s: bv5, b: bv8, w: bv32)
    ensures (s == 0 || s == 8 || s == 16 || s == 24) && w == StoreLane(v, s, b) ==> ((w >> s) & 0xFF) as bv8 == b
  {
  }

  lemma {:induction false} StoreLaneOther(v: bv32, s: bv5, b: bv8, t: bv5)
    ensures (s == 0 || s == 8 || s == 16 || s == 24) && (t == 0 || t == 8 || t == 16 || t == 24) && s != t
      ==> ((StoreLane(v, s, b) >> t) & 0xFF) as bv8 == ((v >> t) & 0xFF) as bv8
  {
  }

  /** v with byte lane `lane` replaced by b: a store through a byte pointer
      into the limb. */
  function PutByte(v: bv32, lane: nat, b: bv8): bv32
    requires lane < LimbBytes
  {
    StoreLane(v, LaneShift(lane), b)
  }

  /** The stored lane reads back the byte stored. */
  lemma {:induction false} PutByteSame(v: bv32, lane: nat, b: bv8)
    requires lane < LimbBytes
    ensures GetByte(PutByte(v, lane, b), lane) == b
  {
    StoreLaneSame(v, LaneShift(lane), b, PutByte(v, lane, b));
  }

  /** Every other lane is left as it was. */
  lemma {:induction false} PutByteOther(v: bv32, lane: nat, b: bv8, l: nat)
    requires lane < LimbBytes && l < LimbBytes && l != lane
    ensures GetByte(PutByte(v, lane, b), l) == GetByte(v, l)
  {
    LaneShiftDistinct(lane, l);
    StoreLaneOther(v, LaneShift(lane), b, LaneShift(l));
  }

  /** Storing byte b in lane `lane` of v gives w: lane `lane` of w reads b,
      every other lane reads as in v. */
  lemma {:induction false} PutByteLanes(v: bv32, lane: nat, b: bv8, w: bv32)
    requires lane < LimbBytes && w == PutByte(v, lane, b)
    ensures forall l :: 0 <= l < LimbBytes ==> GetByte(w, l) == if l == lane then b else GetByte(v, l)
  {
    PutByteSame(v, lane, b);
    forall l | 0 <= l < LimbBytes && l != lane
      ensures GetByte(w, l) == GetByte(v, l)
    {
      PutByteOther(v, lane, b, l);
    }
  }
}
