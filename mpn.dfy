/** The two low-level limb-vector routines mpi_rshift relies on:
    mpihelp_rshift (shift a vector of limbs right by fewer than W bits) and
    MPN_NORMALIZE (drop zero limbs from the top). Both act on a raw array
    and an explicit size, as the mpn layer does. */
module Mpn {
  import opened Limb
  import opened Magnitude

  /** mpihelp_rshift(wp, up, usize, cnt): store in wp[0..usize) the limbs
      up[0..usize) shifted right by cnt bits, the low cnt bits of each limb
      above being brought in at the top; the bits shifted out of up[0] are
      lost. Source and destination are distinct arrays. */
  method RShift(wp: array<bv32>, up: array<bv32>, usize: nat, cnt: nat)
    requires wp != up
    requires 0 < usize <= wp.Length && usize <= up.Length
    requires 0 < cnt < LimbBits
    modifies wp
    ensures wp[..usize] == ShiftedLimbs(up[..usize], cnt)
    ensures wp[usize..] == old(wp[usize..])
  {
    ghost var s := up[..usize];
    var i := 0;
    while i < usize
      invariant 0 <= i <= usize
      invariant forall j :: 0 <= j < i ==> wp[j] == ShiftedLimbs(s, cnt)[j]
      invariant wp[usize..] == old(wp[usize..])
    {
      var hi: bv32 := if i + 1 < usize then up[i + 1] else 0;
      ShiftedLimbsAt(s, cnt, i);
      wp[i] := ShiftedLimb(up[i], hi, cnt);
      i := i + 1;
    }
  }

  /** MPN_NORMALIZE(wp, size): the number of limbs left once the zero limbs
      at the top of wp[0..size) are dropped. */
  method Normalize(wp: array<bv32>, size: nat) returns (n: nat)
    requires size <= wp.Length
    ensures n <= size
    ensures Normalized(wp[..n])
    ensures forall i :: n <= i < size ==> wp[i] == 0
    ensures Value(wp[..n]) == Value(wp[..size])
  {
    n := size;
    while n > 0 && wp[n - 1] == 0
      invariant n <= size
      invariant forall i :: n <= i < size ==> wp[i] == 0
    {
      n := n - 1;
    }
    ValueDropZeros(wp[..size], n);
    assert wp[..size][..n] == wp[..n];
  }
}
