/** mpi/mpi-bit.c: the bit-level operations on an MPI.

    An MPI is a limb array d of capacity alloced, of which the nlimbs
    lowest limbs are in use, and a sign. The operations that only read an
    MPI (mpi_get_nbits, mpi_test_bit) are the functions Magnitude.NBits and
    Magnitude.TestBit applied to Limbs(); the ones that update it in place
    are the methods of class Mpi below. */
module MpiBit {
  import opened BitString
  import opened Limb
  import opened Magnitude
  import Mpn

  /** The byte lane that byte offset i of a limb occupies: a store through
      `(byte*)(a->d + n)` at offset i reaches lane i on a little-endian host
      and lane B - 1 - i on a big-endian one. */
  function OffsetLane(i: nat, littleEndian: bool): (lane: nat)
    requires i < LimbBytes
    ensures lane < LimbBytes
  {
    if littleEndian then i else LimbBytes - 1 - i
  }

  /** The lane receiving the k-th of count bytes that mpi_set_bytes writes
      into one limb: the low lanes in order on a little-endian host, the
      top count lanes in order on a big-endian one. */
  function FillLane(k: nat, count: nat, littleEndian: bool): (lane: nat)
    requires k < count <= LimbBytes
    ensures lane < LimbBytes
  {
    if littleEndian then k else LimbBytes - count + k
  }

  /** Whether mpi_set_bytes writes lane l when it stores count bytes into
      one limb. */
  predicate Filled(l: nat, count: nat, littleEndian: bool)
  {
    if littleEndian then l < count else LimbBytes - count <= l
  }

  /** A full limb gets its four bytes in generator order, least significant
      first, on either host: the k-th byte goes to lane k. */
  lemma {:induction false} FullLimbLanes(k: nat, littleEndian: bool)
    requires k < LimbBytes
    ensures FillLane(k, LimbBytes, littleEndian) == k
  {
  }

  /** The resize guard of mpi_set_bit and mpi_set_highbit as written:
      grow the array when alloced >= limbno. */
  predicate GrowsAsWritten(alloced: nat, limbno: nat)
  {
    alloced >= limbno
  }

  /** The guard evidently intended: grow the array when limb limbno is not
      allocated, that is when alloced <= limbno. */
  predicate GrowsWhenNeeded(alloced: nat, limbno: nat)
  {
    alloced <= limbno
  }

  /** With the guard as written, an MPI with one limb allocated is not grown
      for limb 2, which lies beyond its capacity: the store that follows
      writes past the end of the array. */
  lemma {:induction false} GuardAsWrittenOverruns()
    ensures !GrowsAsWritten(1, 2) && !(2 < 1)
  {
  }

  /** The number of limbs mpi_set_bytes counts in for nbits bits: the
      least multiple of W that holds them, in limbs. */
  function LimbsFor(nbits: nat): (k: nat)
    ensures nbits <= LimbBits * k < nbits + LimbBits
  {
    if nbits % LimbBits != 0 then nbits / LimbBits + 1 else nbits / LimbBits
  }

  /** The number of whole bytes mpi_set_bytes writes into the partial limb:
      the whole bytes among the nbits % W bits left over. */
  function PartialBytes(nbits: nat): (r: nat)
    ensures r < LimbBytes
    ensures 8 * r <= nbits % LimbBits < 8 * r + 8
  {
    (nbits % LimbBits) / 8
  }

  /** mpi_set_bytes calls the generator once per whole byte of nbits: four
      times per full limb and once per whole byte of the partial one. */
  lemma {:induction false} BytesUsed(nbits: nat)
    ensures LimbBytes * (nbits / LimbBits) + PartialBytes(nbits) == nbits / 8
  {
    var q, r := nbits / LimbBits, nbits % LimbBits;
    assert nbits == LimbBits * q + r;
    DivModUnique(nbits, 8, LimbBytes * q + PartialBytes(nbits), r % 8);
  }

  /** A limb whose four lanes were filled in generator order, as
      mpi_set_bytes fills a full limb on either host, holds those four
      bytes, least significant first. */
  lemma {:induction false} FullLimb(w: bv32, g: seq<bv8>, start: nat, littleEndian: bool)
    requires start + LimbBytes <= |g|
    requires forall k :: 0 <= k < LimbBytes ==> GetByte(w, FillLane(k, LimbBytes, littleEndian)) == g[start + k]
    ensures LanesOf(w) == g[start..start + LimbBytes]
  {
    forall k | 0 <= k < LimbBytes
      ensures LanesOf(w)[k] == g[start..start + LimbBytes][k]
    {
      FullLimbLanes(k, littleEndian);
    }
  }

  /** What mpi_rshift leaves, as sequences: s are the source limbs in use,
      u the destination's first |s| limbs after mpihelp_rshift and t the
      limbs left after MPN_NORMALIZE. t denotes the source value divided by
      2^n, and a zero source leaves no limb in use. */
  lemma {:induction false} RShiftState(s: seq<bv32>, u: seq<bv32>, t: seq<bv32>, n: nat)
    requires 0 < n < LimbBits
    requires u == ShiftedLimbs(s, n)
    requires Normalized(t) && Value(t) == Value(u)
    ensures Value(t) == Value(s) / Pow2(n)
    ensures Value(s) == 0 ==> t == []
  {
    ShiftedLimbsValue(s, n);
    NormalizedZero(t);
    if Value(s) == 0 {
      DivModUnique(0, Pow2(n), 0, 0);
    }
  }

  /** The top limb mpi_set_highbit leaves: x is w = v | 2^b with the bits
      above b cleared, so it holds bit b and the bits of v below b. */
  lemma {:induction false} HighLimb(v: bv32, b: nat, w: bv32, x: bv32)
    requires b < LimbBits && w == v | Mask(b)
    requires forall j :: 0 <= j < LimbBits ==> LimbBit(x, j) == (j < b + 1 && LimbBit(w, j))
    ensures forall j :: 0 <= j < LimbBits ==> LimbBit(x, j) == (j == b || (j < b && LimbBit(v, j)))
  {
    forall j | 0 <= j < LimbBits
      ensures LimbBit(x, j) == (j == b || (j < b && LimbBit(v, j)))
    {
      SetMaskBit(v, b, j);
    }
  }

  /** The limbs mpi_set_highbit leaves: limb n / W on top, holding bit
      n % W and the bits of v below it. Bit n is set, no bit above it is,
      and the value has n + 1 bits. */
  lemma {:induction false} HighBitTop(s: seq<bv32>, n: nat, v: bv32)
    requires |s| == n / LimbBits + 1
    requires forall j :: 0 <= j < LimbBits ==>
      LimbBit(s[n / LimbBits], j) == (j == n % LimbBits || (j < n % LimbBits && LimbBit(v, j)))
    ensures TestBit(s, n) == 1
    ensures forall m: nat :: m > n ==> TestBit(s, m) == 0
    ensures NBits(s) == n + 1
  {
    var top := s[n / LimbBits];
    ZeroLimbBit(n % LimbBits);
    BitLengthUnique(top, n % LimbBits);
  }

  /** What mpi_set_bit does to the limb array, as sequences: o and on are
      the array and nlimbs before, t the array after the resize step (which
      keeps o), u the array after the store and nl the new nlimbs. */
  lemma {:induction false} SetBitState(o: seq<bv32>, on: nat, t: seq<bv32>, u: seq<bv32>, nl: nat, n: nat)
    requires on <= |o| <= |t| && t[..|o|] == o
    requires nl == (if n / LimbBits < on then on else n / LimbBits + 1) && nl <= |t|
    requires u == SetLimbBit(t, n)
    ensures TestBit(u[..nl], n) == 1
    ensures NBits(u[..nl]) > n
    ensures forall m: nat :: m != n && m / LimbBits < on ==> TestBit(u[..nl], m) == TestBit(o[..on], m)
    ensures n / LimbBits < on ==> u[..nl] == SetLimbBit(o[..on], n)
    ensures n / LimbBits < |o| ==> u[..|o|] == SetLimbBit(o, n)
    ensures n / LimbBits >= |o| ==> u[..|o|] == o
  {
    var low := t[..nl];
    SetLimbBitPrefix(t, n, nl);
    SetLimbBitTest(low, n, n);
    TestBitAboveNBits(u[..nl], n);
    assert low[..on] == o[..on];
    forall m: nat | m != n && m / LimbBits < on
      ensures TestBit(u[..nl], m) == TestBit(o[..on], m)
    {
      SetLimbBitTest(low, n, m);
      TestBitPrefix(low, on, m);
    }
    if n / LimbBits < |o| {
      SetLimbBitPrefix(t, n, |o|);
    }
  }

  /** What mpi_set_highbit does to the limb array, as sequences: o and on
      are the array and nlimbs before, t the array after the resize step
      (which keeps o), u the array after the loop, which changed limb n / W
      only: it holds bit n % W and the bits of v = t[n / W] below it. */
  lemma {:induction false} HighBitState(o: seq<bv32>, on: nat, t: seq<bv32>, u: seq<bv32>, n: nat, nl: nat)
    requires on <= |o| <= |t| && t[..|o|] == o
    requires nl == n / LimbBits + 1 && n / LimbBits <= |o| && nl <= |t| == |u|
    requires u == t[n / LimbBits := u[n / LimbBits]]
    requires forall j :: 0 <= j < LimbBits ==>
      (LimbBit(u[n / LimbBits], j) == (j == n % LimbBits || (j < n % LimbBits && LimbBit(t[n / LimbBits], j))))
    ensures TestBit(u[..nl], n) == 1
    ensures forall m: nat :: m > n ==> TestBit(u[..nl], m) == 0
    ensures NBits(u[..nl]) == n + 1
    ensures forall m: nat :: m < n && m / LimbBits < on ==> TestBit(u[..nl], m) == TestBit(o[..on], m)
    ensures u[..n / LimbBits] == o[..n / LimbBits]
    ensures n / LimbBits < |o| ==> forall j :: 0 <= j < LimbBits ==>
      LimbBit(u[n / LimbBits], j) == (j == n % LimbBits || (j < n % LimbBits && LimbBit(o[n / LimbBits], j)))
  {
    var limbno := n / LimbBits;
    if limbno < |o| {
      assert t[..|o|][limbno] == t[limbno];
    }
    var s := u[..limbno + 1];
    HighBitTop(s, n, t[limbno]);
    forall m: nat | m < n && m / LimbBits < on
      ensures TestBit(s, m) == TestBit(o[..on], m)
    {
      if m / LimbBits < limbno {
        assert s[m / LimbBits] == o[m / LimbBits];
      }
    }
  }

  /** mpi_set_highbit leaves the allocated limbs above limb n / W as they
      were: o is the array before, t after the resize step, u at the end. */
  lemma {:induction false} HighBitAbove(o: seq<bv32>, t: seq<bv32>, u: seq<bv32>, n: nat)
    requires |o| <= |t| == |u| && t[..|o|] == o && n / LimbBits < |t|
    requires u == t[n / LimbBits := u[n / LimbBits]]
    ensures forall j :: n / LimbBits < j < |o| ==> u[j] == o[j]
  {
    forall j | n / LimbBits < j < |o|
      ensures u[j] == o[j]
    {
      assert t[..|o|][j] == t[j];
    }
  }

  /** What mpi_clear_bit does to the limb array, as sequences: t is the
      array before, nl its nlimbs and u the array after. */
  lemma {:induction false} ClearBitState(t: seq<bv32>, nl: nat, u: seq<bv32>, n: nat)
    requires nl <= |t|
    requires u == if n / LimbBits < nl then t[n / LimbBits := t[n / LimbBits] & !Mask(n % LimbBits)] else t
    ensures u[..nl] == ClearLimbBit(t[..nl], n)
    ensures u[nl..] == t[nl..]
    ensures TestBit(u[..nl], n) == 0
    ensures forall m: nat :: m != n ==> TestBit(u[..nl], m) == TestBit(t[..nl], m)
  {
    ClearLimbBitTest(t[..nl], n, n);
    forall m: nat | m != n
      ensures TestBit(u[..nl], m) == TestBit(t[..nl], m)
    {
      ClearLimbBitTest(t[..nl], n, m);
    }
  }

  /** One pass of mpi_set_highbit's loop: clearing bit b of w, whose bits
      from `from` to b - 1 are already clear, extends the clear run to b. */
  lemma {:induction false} ClearStep(w: bv32, b: nat, from: nat, v: bv32, u: bv32)
    requires from <= b < LimbBits && u == w & !Mask(b)
    requires forall j :: 0 <= j < LimbBits ==> LimbBit(w, j) == ((j < from || b <= j) && LimbBit(v, j))
    ensures forall j :: 0 <= j < LimbBits ==>
      LimbBit(u, j) == ((j < from || b + 1 <= j) && LimbBit(v, j))
  {
    forall j | 0 <= j < LimbBits
      ensures LimbBit(u, j) == ((j < from || b + 1 <= j) && LimbBit(v, j))
    {
      ClearMaskBit(w, b, j);
    }
  }

  class Mpi {
    /** The limb array; d[0] is the least significant limb. */
    var d: array<bv32>
    /** The capacity of d. */
    var alloced: nat
    /** The number of limbs in use. */
    var nlimbs: nat
    /** The sign; none of these operations interprets it. */
    var sign: int

    ghost predicate Valid()
      reads this
    {
      alloced == d.Length && nlimbs <= alloced
    }

    /** mpi_alloc(k): an MPI with room for k limbs, none in use, sign 0. */
    constructor (k: nat)
      ensures Valid() && fresh(d)
      ensures alloced == k && nlimbs == 0 && sign == 0
    {
      d := new bv32[k];
      alloced := k;
      nlimbs := 0;
      sign := 0;
    }

    /** The limbs in use, least significant first. */
    function Limbs(): seq<bv32>
      reads this, d
      requires Valid()
    {
      d[..nlimbs]
    }

    /** mpi_resize(a, k): make room for at least k limbs. The limbs already
        allocated keep their contents; nothing is promised about the new
        ones. Nothing changes when there is room already. */
    method Resize(k: nat)
      requires Valid()
      modifies this
      ensures Valid()
      ensures alloced >= k && alloced >= old(alloced)
      ensures d == old(d) || fresh(d)
      ensures d[..old(alloced)] == old(d[..])
      ensures k <= old(alloced) ==> d == old(d) && alloced == old(alloced)
      ensures nlimbs == old(nlimbs) && sign == old(sign)
    {
      if k > alloced {
        var nd := new bv32[k];
        forall i | 0 <= i < alloced {
          nd[i] := d[i];
        }
        d, alloced := nd, k;
      }
    }

    /** The store `a->d[i] = v`. */
    method Store(i: nat, v: bv32)
      requires i < d.Length
      modifies d
      ensures d[i] == v
      ensures d[..] == old(d[..])[i := v]
      ensures forall j :: 0 <= j < d.Length && j != i ==> d[j] == old(d[j])
    {
      d[i] := v;
    }

    /** The resize step shared by mpi_set_bit and mpi_set_highbit: when
        limb limbno is not in use, grow the array if alloced >= limbno and
        count limbs up to limbno in, without clearing them. The source does
        not grow the array when alloced < limbno, and its later store is then
        out of bounds; the second requires rules that case out. */
    method Grow(limbno: nat)
      requires Valid()
      requires limbno < nlimbs || limbno <= alloced
      modifies this
      ensures Valid()
      ensures sign == old(sign)
      ensures nlimbs == if limbno < old(nlimbs) then old(nlimbs) else limbno + 1
      ensures d == old(d) || fresh(d)
      ensures alloced >= old(alloced)
      ensures d[..old(alloced)] == old(d[..])
      ensures limbno < old(alloced) ==> d == old(d) && alloced == old(alloced)
      ensures limbno < alloced
    {
      if limbno >= nlimbs {
        if GrowsAsWritten(alloced, limbno) {
          Resize(limbno + 1);
        }
        nlimbs := limbno + 1;
      }
    }

    /** The resize step of mpi_set_bit and mpi_set_highbit with the guard
        evidently intended (GrowsWhenNeeded): on every valid MPI, limb
        limbno is allocated afterwards, so the store that follows is in
        bounds. Otherwise it does what Grow does. */
    method GrowWhenNeeded(limbno: nat)
      requires Valid()
      modifies this
      ensures Valid()
      ensures limbno < alloced
      ensures sign == old(sign)
      ensures nlimbs == if limbno < old(nlimbs) then old(nlimbs) else limbno + 1
      ensures d == old(d) || fresh(d)
      ensures alloced >= old(alloced)
      ensures d[..old(alloced)] == old(d[..])
      ensures limbno < old(alloced) ==> d == old(d) && alloced == old(alloced)
    {
      if limbno >= nlimbs {
        if GrowsWhenNeeded(alloced, limbno) {
          Resize(limbno + 1);
        }
        nlimbs := limbno + 1;
      }
    }

    /** The loop of mpi_set_highbit: clear bits from, from + 1, ..., W - 1
        of limb i, one mask at a time. */
    method ClearBitsFrom(i: nat, from: nat)
      requires i < d.Length
      modifies d
      ensures d[..] == old(d[..])[i := d[i]]
      ensures forall j :: 0 <= j < LimbBits ==> LimbBit(d[i], j) == (j < from && LimbBit(old(d[i]), j))
    {
      ghost var v := d[i];
      var b := from;
      while b < LimbBits
        invariant from <= b
        invariant d[..] == old(d[..])[i := d[i]]
        invariant forall j :: 0 <= j < LimbBits ==>
          LimbBit(d[i], j) == ((j < from || b <= j) && LimbBit(v, j))
      {
        var w := d[i] & !Mask(b);
        ClearStep(d[i], b, from, v, w);
        Store(i, w);
        b := b + 1;
      }
    }

    /** mpi_set_bit(a, n). When limb n / W is not in use it is counted in
        (after growing the array) without being cleared first. */
    method SetBit(n: nat)
      requires Valid()
      requires n / LimbBits < nlimbs || n / LimbBits <= alloced
      modifies this, d
      ensures Valid()
      ensures sign == old(sign)
      ensures nlimbs == if n / LimbBits < old(nlimbs) then old(nlimbs) else n / LimbBits + 1
      ensures d == old(d) || fresh(d)
      ensures alloced >= old(alloced)
      ensures n / LimbBits < old(alloced) ==> d == old(d) && alloced == old(alloced)
      ensures TestBit(Limbs(), n) == 1
      ensures NBits(Limbs()) > n
      ensures forall m: nat :: m != n && m / LimbBits < old(nlimbs) ==>
        TestBit(Limbs(), m) == old(TestBit(Limbs(), m))
      ensures n / LimbBits < old(nlimbs) ==> Limbs() == SetLimbBit(old(Limbs()), n)
      ensures n / LimbBits < old(alloced) ==> d[..old(alloced)] == SetLimbBit(old(d[..]), n)
      ensures n / LimbBits >= old(alloced) ==> d[..old(alloced)] == old(d[..])
    {
      var limbno, bitno := n / LimbBits, n % LimbBits;
      Grow(limbno);
      ghost var t := d[..];
      Store(limbno, d[limbno] | Mask(bitno));
      SetBitState(old(d[..]), old(nlimbs), t, d[..], nlimbs, n);
    }

    /** mpi_set_highbit(a, n): set bit n, clear every bit above it and make
        limb n / W the top limb in use. The array is grown as in SetBit;
        limbs between the old top and limb n / W are not cleared. */
    method SetHighBit(n: nat)
      requires Valid()
      requires n / LimbBits < nlimbs || n / LimbBits <= alloced
      modifies this, d
      ensures Valid()
      ensures sign == old(sign)
      ensures nlimbs == n / LimbBits + 1
      ensures d == old(d) || fresh(d)
      ensures alloced >= old(alloced)
      ensures TestBit(Limbs(), n) == 1
      ensures forall m: nat :: m > n ==> TestBit(Limbs(), m) == 0
      ensures NBits(Limbs()) == n + 1
      ensures forall m: nat :: m < n && m / LimbBits < old(nlimbs) ==>
        TestBit(Limbs(), m) == old(TestBit(Limbs(), m))
      ensures d[..n / LimbBits] == old(d[..n / LimbBits])
      ensures forall j :: n / LimbBits < j < old(alloced) ==> d[j] == old(d[j])
      ensures n / LimbBits < old(alloced) ==> d == old(d) && alloced == old(alloced)
      ensures n / LimbBits < old(alloced) ==> forall j :: 0 <= j < LimbBits ==>
        LimbBit(d[n / LimbBits], j) == (j == n % LimbBits || (j < n % LimbBits && LimbBit(old(d[n / LimbBits]), j)))
    {
      var limbno, bitno := n / LimbBits, n % LimbBits;
      Grow(limbno);
      ghost var t := d[..];
      ghost var v := d[limbno];
      Store(limbno, d[limbno] | Mask(bitno));
      ghost var w := d[limbno];
      ClearBitsFrom(limbno, bitno + 1);
      HighLimb(v, bitno, w, d[limbno]);
      nlimbs := limbno + 1;
      ghost var o := old(d[..]);
      ghost var u := d[..];
      HighBitState(o, old(nlimbs), t, u, n, nlimbs);
      HighBitAbove(o, t, u, n);
      forall j | limbno < j < old(alloced)
        ensures d[j] == old(d[j])
      {
        assert u[j] == o[j];
      }
    }

    /** mpi_clear_bit(a, n): clear bit n; nothing happens when bit n lies
        beyond the limbs in use. The top limb is not renormalised. */
    method ClearBit(n: nat)
      requires Valid()
      modifies d
      ensures Limbs() == ClearLimbBit(old(Limbs()), n)
      ensures d[nlimbs..] == old(d[nlimbs..])
      ensures TestBit(Limbs(), n) == 0
      ensures forall m: nat :: m != n ==> TestBit(Limbs(), m) == old(TestBit(Limbs(), m))
    {
      var limbno, bitno := n / LimbBits, n % LimbBits;
      if limbno >= nlimbs {
        ClearBitState(d[..], nlimbs, d[..], n);
        return;
      }
      ghost var t := d[..];
      Store(limbno, d[limbno] & !Mask(bitno));
      ClearBitState(t, nlimbs, d[..], n);
    }

    /** One inner loop of mpi_set_bytes: count bytes g[start..start + count)
        stored through p = (byte*)(a->d + n), at offsets 0 up to count - 1
        on a little-endian host and at offsets count - 1 down to 0 on a
        big-endian one. The k-th byte lands in lane FillLane(k, count, _);
        the other lanes and the other limbs keep their contents. */
    method FillLimb(n: nat, count: nat, g: seq<bv8>, start: nat, littleEndian: bool)
      requires n < d.Length && count <= LimbBytes && start + count <= |g|
      modifies d
      ensures forall j :: 0 <= j < d.Length && j != n ==> d[j] == old(d[j])
      ensures forall k :: 0 <= k < count ==> GetByte(d[n], FillLane(k, count, littleEndian)) == g[start + k]
      ensures forall l :: 0 <= l < LimbBytes && !Filled(l, count, littleEndian) ==>
        GetByte(d[n], l) == GetByte(old(d[n]), l)
    {
      ghost var v := d[n];
      if littleEndian {
        var i := 0;
        while i < count
          invariant i <= count
          invariant forall j :: 0 <= j < d.Length && j != n ==> d[j] == old(d[j])
          invariant forall l :: 0 <= l < LimbBytes ==>
            GetByte(d[n], l) == if l < i then g[start + l] else GetByte(v, l)
        {
          var lane := OffsetLane(i, true);
          var w := PutByte(d[n], lane, g[start + i]);
          PutByteLanes(d[n], lane, g[start + i], w);
          Store(n, w);
          i := i + 1;
        }
      } else {
        var i: int := count - 1;
        while i >= 0
          invariant -1 <= i < count
          invariant forall j :: 0 <= j < d.Length && j != n ==> d[j] == old(d[j])
          invariant forall l :: 0 <= l < LimbBytes ==>
            GetByte(d[n], l) ==
              if LimbBytes - count <= l && l + i < LimbBytes - 1 then g[start + l + count - LimbBytes]
              else GetByte(v, l)
        {
          var lane := OffsetLane(i, false);
          var w := PutByte(d[n], lane, g[start + count - 1 - i]);
          PutByteLanes(d[n], lane, g[start + count - 1 - i], w);
          Store(n, w);
          i := i - 1;
        }
      }
    }

    /** The outer loop of mpi_set_bytes over the full limbs: limbs 0 to
        count - 1 get four bytes each from g, in order, and used counts the
        bytes drawn. The limbs above keep their contents. */
    method FillFullLimbs(count: nat, g: seq<bv8>, littleEndian: bool) returns (used: nat)
      requires count <= d.Length && LimbBytes * count <= |g|
      modifies d
      ensures used == LimbBytes * count
      ensures forall j :: count <= j < d.Length ==> d[j] == old(d[j])
      ensures forall k :: 0 <= k < count ==> LanesOf(d[k]) == g[LimbBytes * k..LimbBytes * k + LimbBytes]
    {
      used := 0;
      var n := 0;
      while n < count
        invariant n <= count && used == LimbBytes * n
        invariant forall j :: n <= j < d.Length ==> d[j] == old(d[j])
        invariant forall k :: 0 <= k < n ==> LanesOf(d[k]) == g[LimbBytes * k..LimbBytes * k + LimbBytes]
      {
        FillLimb(n, LimbBytes, g, used, littleEndian);
        FullLimb(d[n], g, used, littleEndian);
        used := used + LimbBytes;
        n := n + 1;
      }
    }

    /** mpi_set_bytes(a, nbits, fnc, opaque): make a hold nbits / 8 bytes
        drawn from the generator, modelled as the sequence g read from the
        front; used is how many were drawn. The full limbs get four bytes
        each, least significant first on either host; the partial limb gets
        PartialBytes(nbits) bytes in its low lanes on a little-endian host
        and in its high lanes on a big-endian one; its other lanes, and the
        bits of a remainder shorter than a byte, are not written. */
    method SetBytes(nbits: nat, g: seq<bv8>, littleEndian: bool) returns (used: nat)
      requires Valid()
      requires nbits / 8 <= |g|
      modifies this, d
      ensures Valid()
      ensures sign == old(sign)
      ensures d == old(d) || fresh(d)
      ensures alloced >= old(alloced)
      ensures nlimbs == LimbsFor(nbits)
      ensures used == nbits / 8
      ensures forall k :: 0 <= k < nbits / LimbBits ==>
        LanesOf(d[k]) == g[LimbBytes * k..LimbBytes * k + LimbBytes]
      ensures nbits % LimbBits != 0 ==> forall k :: 0 <= k < PartialBytes(nbits) ==>
        GetByte(d[nbits / LimbBits], FillLane(k, PartialBytes(nbits), littleEndian))
          == g[LimbBytes * (nbits / LimbBits) + k]
      ensures nbits % LimbBits != 0 && nbits / LimbBits < old(alloced) ==>
        forall l :: 0 <= l < LimbBytes && !Filled(l, PartialBytes(nbits), littleEndian) ==>
          GetByte(d[nbits / LimbBits], l) == GetByte(old(d[nbits / LimbBits]), l)
      ensures forall j :: nlimbs <= j < old(alloced) ==> d[j] == old(d[j])
      ensures LimbsFor(nbits) <= old(alloced) ==> d == old(d) && alloced == old(alloced)
    {
      var full := nbits / LimbBits;
      var xbits := nbits % LimbBits;
      var nlimbs2 := if xbits != 0 then full + 1 else full;
      var xbytes := xbits / 8;
      if alloced < nlimbs2 {
        Resize(nlimbs2);
      }
      nlimbs := nlimbs2;
      used := FillFullLimbs(full, g, littleEndian);
      if xbytes != 0 {
        FillLimb(full, xbytes, g, used, littleEndian);
        used := used + xbytes;
      }
      BytesUsed(nbits);
    }

    /** mpi_rshift(x, a, n) with x this MPI: x takes a's sign and a's limbs
        shifted right by n bits, normalised. The array is grown when it has
        fewer than a->nlimbs limbs. x and a must be distinct, and n must be
        a shift within a limb, as mpihelp_rshift requires. */
    method RShift(a: Mpi, n: nat)
      requires Valid() && a.Valid()
      requires a != this && a.d != d
      requires 0 < n < LimbBits
      modifies this, d
      ensures Valid()
      ensures d == old(d) || fresh(d)
      ensures alloced >= old(alloced)
      ensures a.nlimbs <= old(alloced) ==> d == old(d) && alloced == old(alloced)
      ensures sign == a.sign
      ensures Value(Limbs()) == Value(a.Limbs()) / Pow2(n)
      ensures Normalized(Limbs())
      ensures nlimbs <= a.nlimbs
      ensures Value(a.Limbs()) == 0 ==> nlimbs == 0
    {
      var xsize := a.nlimbs;
      sign := a.sign;
      if alloced < xsize {
        Resize(xsize);
      }
      if xsize != 0 {
        Mpn.RShift(d, a.d, xsize, n);
        xsize := Mpn.Normalize(d, xsize);
      }
      nlimbs := xsize;
      RShiftState(a.Limbs(), d[..a.nlimbs], Limbs(), n);
    }
  }
}
