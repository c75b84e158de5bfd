# Bit operations on GnuPG multi-precision integers

This project models `mpi/mpi-bit.c`, the bit-level layer of GnuPG's
multi-precision integers (MPIs), and proves what each operation does to the
number an MPI denotes.

An MPI is a record holding:

- a limb array `d`, with the least significant limb first;
- its capacity `alloced`;
- the number of limbs in use, `nlimbs`;
- a `sign`.

Limbs are 32 bits wide (W = 32, four bytes per limb). The magnitude of an
MPI is `Value(d[0..nlimbs)) = sum d[i] * 2^(32 i)`.

The project has five modules:

- `BitString` (bitstring.dfy): powers of two, and the value of a
  little-endian string of bits.
- `Limb` (limb.dfy): a single `bv32` limb. This covers:
  - its bits and the masks `1 << bitno`;
  - its bit length and the specification of `count_leading_zeros`;
  - the limb that a right shift by `cnt` stores;
  - its four byte lanes.
- `Magnitude` (magnitude.dfy): the limbs in use, as a sequence.
  - The two read-only operations are functions here: `mpi_get_nbits` is
    `NBits` and `mpi_test_bit` is `TestBit`.
  - The updates are described as functions of the old limbs: `SetLimbBit`,
    `ClearLimbBit` and `ShiftedLimbs`.
  - Their effect on the value is proved once, in this module.
- `Mpn` (mpn.dfy): the two limb-vector routines that `mpi_rshift` calls.
  - `mpihelp_rshift` is the method `RShift`.
  - `MPN_NORMALIZE` is the method `Normalize`.
  - Both work on raw arrays.
- `MpiBit` (mpi.dfy): the class `Mpi`, with the fields `d`, `alloced`,
  `nlimbs` and `sign`. Its methods carry out `mpi_set_bit`,
  `mpi_set_highbit`, `mpi_clear_bit`, `mpi_set_bytes` and `mpi_rshift` in
  place, as the C code does. Pure lemmas in the same module relate the
  array before and after each operation.

The model keeps several quirks of the C code, as written:

- `mpi_get_nbits` counts a zero top limb as contributing no bits, so it
  returns `(nlimbs - 1) * 32`.
- `mpi_set_bit` and `mpi_set_highbit` count newly used limbs without
  clearing them. Whatever those limbs held becomes part of the value.
- `mpi_clear_bit` does not renormalise.
- `mpi_set_bytes` fills a full limb least significant byte first on both
  hosts.
- The partial limb of `mpi_set_bytes` is filled differently by host:
  - a little-endian host fills its low lanes;
  - a big-endian host fills its high lanes.
- `mpi_set_bytes` never writes bits left over below a whole byte. When
  `nbits % 32 < 8`, the extra limb is counted but not written at all.

Two things are parameters of the model:

- The byte generator `fnc(opaque)` is the sequence `g`, read from the
  front. `SetBytes` returns how many bytes it drew.
- The build switch `LITTLE_ENDIAN_HOST` is the parameter `littleEndian`. A
  store `p[i]` through `(byte*)(a->d + n)` reaches:
  - lane `i` on a little-endian host;
  - lane `3 - i` on a big-endian host.

## Model

| member | source | states |
|---|---|---|
| `Magnitude.NBits` | mpi/mpi-bit.c:37-47 | With no limbs in use the result is 0. Otherwise it depends on the top limb. A non-zero top limb gives `32 (nlimbs - 1) + BitLength(top)`, which lies in `(32 (nlimbs - 1), 32 nlimbs]`. A zero top limb gives exactly `32 (nlimbs - 1)`. |
| `Magnitude.NBitsValue` | mpi/mpi-bit.c:37-47 | On normalised limbs, `NBits` is the binary length of the value. `2^(NBits - 1) <= Value < 2^NBits`, and the value is 0 when `NBits` is 0. |
| `Magnitude.NormalizedZero` | mpi/mpi-bit.c:37-47 | Normalised limbs denote 0 exactly when no limb is in use. |
| `Magnitude.TestBit` | mpi/mpi-bit.c:60-66 | The result is 0 or 1. It is 0 whenever `n / 32 >= nlimbs`. Otherwise it is 1 exactly when bit `n % 32` of limb `n / 32` is set. |
| `Magnitude.TestBitValue` | mpi/mpi-bit.c:60-66 | `TestBit(s, n)` is binary digit `n` of the value, `(Value / 2^n) % 2`, for every `n`, including bits beyond the limbs. |
| `Magnitude.TestBitAboveNBits` | mpi/mpi-bit.c:37-47 | Every bit at or above `NBits` reads 0, whether or not the top limb is zero. |
| `Magnitude.TestBitPrefix` | mpi/mpi-bit.c:63-65 | A bit reads the same in the limbs and in any prefix of them that holds it. |
| `Limb.CountLeadingZeros` | mpi/mpi-bit.c:39-40 | The specification of `count_leading_zeros` for a non-zero limb. Bit `31 - n` is set and every bit above it is clear. |
| `Limb.BitLength` | mpi/mpi-bit.c:39-43 | The significant bits of a limb. It is 0 only for 0, bit `r - 1` is set, and every bit from `r` up is clear. |
| `Limb.SetMaskBit` | mpi/mpi-bit.c:86 | `v OR (1 << j)` has bit `j` set and every other bit as in `v`. |
| `Limb.ClearMaskBit` | mpi/mpi-bit.c:124 | `v & ~(1 << j)` has bit `j` clear and every other bit as in `v`. |
| `Magnitude.SetLimbBitTest` | mpi/mpi-bit.c:86 | Setting bit `n` in the limb that holds it sets `n` and changes no other bit. |
| `Magnitude.SetLimbBitValue` | mpi/mpi-bit.c:86 | Setting bit `n` adds `2^n` to the value when the bit was clear, and adds nothing otherwise. |
| `Magnitude.SetLimbBitTwice` | mpi/mpi-bit.c:86 | Setting a bit twice gives the same limbs as setting it once. |
| `Magnitude.SetLimbBitNoChange` | mpi/mpi-bit.c:86 | Setting a bit that is already set changes nothing. After `SetBit(n)`, bit `n` reads 1 and limb `n / 32` is in use. A second `SetBit(n)` therefore leaves the limbs as the first one left them. |
| `Magnitude.SetLimbBitPrefix` | mpi/mpi-bit.c:86 | Setting bit `n` commutes with taking a prefix of the limbs that holds bit `n`. |
| `MpiBit.SetBitState` | mpi/mpi-bit.c:81-86 | This lemma relates the arrays before and after `mpi_set_bit`, including a grown array. Afterwards bit `n` reads 1 in the limbs in use, and `NBits > n`. Every other bit of the old limbs in use is unchanged. When limb `n / 32` was in use, the new limbs are `SetLimbBit` of the old ones. |
| `MpiBit.Mpi.SetBit` | mpi/mpi-bit.c:78-86 | Afterwards `nlimbs == max(old nlimbs, n / 32 + 1)`, bit `n` reads 1, `NBits > n`, and every other bit of the old limbs in use is unchanged. When limb `n / 32` was allocated, the array and the capacity are unchanged and the old allocated limbs become `SetLimbBit` of themselves, so newly counted limbs keep their old contents. When it was not (`n / 32 == old alloced`), the old allocated limbs are unchanged. The sign is unchanged. It requires `n / 32 < nlimbs` or `n / 32 <= alloced`, because the C code writes past the array otherwise. |
| `MpiBit.Mpi.Grow` | mpi/mpi-bit.c:81-85 | This is the resize step as written. `nlimbs` becomes `max(nlimbs, limbno + 1)`, and the limbs already allocated are kept. When `limbno < alloced`, the array and the capacity are unchanged. Under its precondition `limbno < nlimbs || limbno <= alloced`, limb `limbno` is allocated afterwards, so the store that follows is in bounds. |
| `MpiBit.Mpi.GrowWhenNeeded` | mpi/mpi-bit.c:81-85 | This is the resize step with the intended guard `alloced <= limbno`. On every valid MPI, limb `limbno` is allocated afterwards (`limbno < alloced`), so the store that follows is in bounds. Otherwise it does what `Grow` does. |
| `MpiBit.Mpi.Resize` | mpi/mpi-bit.c:83 | This is `mpi_resize`. The capacity becomes at least `k` and never shrinks. The allocated limbs keep their contents. Nothing changes when there is room already. |
| `MpiBit.HighLimb` | mpi/mpi-bit.c:105-107 | After the OR with `1 << bitno` and the loop that clears every higher bit, the limb holds bit `bitno` and the bits of the old limb below it. |
| `MpiBit.HighBitTop` | mpi/mpi-bit.c:105-108 | Limbs whose top limb holds bit `n % 32` and nothing above it have bit `n` set and every bit above `n` clear, and `NBits == n + 1`. |
| `MpiBit.HighBitState` | mpi/mpi-bit.c:100-108 | This lemma relates the arrays before and after `mpi_set_highbit`. Afterwards bit `n` reads 1, every bit above `n` reads 0, and `NBits == n + 1`. The bits below `n` in the old limbs in use are unchanged, and so are the limbs below `n / 32`. When limb `n / 32` was allocated, it now holds bit `n % 32` and its old bits below that. |
| `MpiBit.HighBitAbove` | mpi/mpi-bit.c:105-108 | `mpi_set_highbit` leaves the allocated limbs above limb `n / 32` as they were. Lowering `nlimbs` does not clear them. |
| `MpiBit.ClearStep` | mpi/mpi-bit.c:106-107 | One pass of `mpi_set_highbit`'s loop extends the run of cleared bits by one. |
| `MpiBit.Mpi.ClearBitsFrom` | mpi/mpi-bit.c:106-107 | This is the loop. Bits `from` to 31 of the limb are cleared, its lower bits are unchanged, and no other limb changes. |
| `MpiBit.Mpi.SetHighBit` | mpi/mpi-bit.c:97-108 | Afterwards `nlimbs == n / 32 + 1`, bit `n` reads 1, every bit `m > n` reads 0 and `NBits == n + 1`. The bits below `n` in the old limbs in use are unchanged. The allocated limbs above `n / 32` are left as they were. When limb `n / 32` was already allocated, the array and the capacity are unchanged, and that limb holds bit `n % 32` and its old bits below it. The sign is unchanged. It has the same precondition as `SetBit`. |
| `Magnitude.ClearLimbBitTest` | mpi/mpi-bit.c:122-124 | Clearing bit `n` clears it and changes no other bit. A bit beyond the limbs in use reads 0 already. |
| `Magnitude.ClearLimbBitValue` | mpi/mpi-bit.c:122-124 | Clearing a set bit `n` subtracts `2^n` from the value, and clearing a clear bit subtracts nothing. |
| `Magnitude.ClearLimbBitTwice` | mpi/mpi-bit.c:122-124 | Clearing a bit twice gives the same limbs as clearing it once. |
| `Magnitude.ClearLimbBitNoChange` | mpi/mpi-bit.c:122-124 | Clearing a bit that reads 0 changes nothing. That covers a bit beyond the limbs in use, which is the early return. |
| `MpiBit.ClearBitState` | mpi/mpi-bit.c:122-124 | This lemma relates the arrays before and after `mpi_clear_bit`. The limbs in use become `ClearLimbBit` of the old ones, and the limbs above them are untouched. Bit `n` reads 0 and every other bit is unchanged. |
| `MpiBit.Mpi.ClearBit` | mpi/mpi-bit.c:119-124 | The limbs in use become `ClearLimbBit(old limbs, n)`. `nlimbs` is not changed, so there is no renormalisation. Bit `n` reads 0, every other bit is unchanged, and the limbs above `nlimbs` are untouched. |
| `MpiBit.LimbsFor` | mpi/mpi-bit.c:136-138 | `nlimbs2` is `ceil(nbits / 32)`, that is `nbits <= 32 k < nbits + 32`. |
| `MpiBit.PartialBytes` | mpi/mpi-bit.c:137-139 | `xbytes` counts the whole bytes among the `nbits % 32` bits left over. It is below 4. |
| `MpiBit.BytesUsed` | mpi/mpi-bit.c:144-163 | The generator is called `4 (nbits / 32) + xbytes` times, which is `nbits / 8`. |
| `MpiBit.FullLimbLanes` | mpi/mpi-bit.c:146-152 | On both hosts, the `k`-th byte of a full limb lands in lane `k`. |
| `MpiBit.FullLimb` | mpi/mpi-bit.c:144-153 | A full limb filled in generator order holds its four bytes, least significant first. |
| `MpiBit.Mpi.FillLimb` | mpi/mpi-bit.c:145-161 | This is one inner loop, on either host. The `k`-th byte drawn lands in lane `FillLane(k, count, littleEndian)`. Lanes outside the filled range, and the other limbs, keep their contents. |
| `MpiBit.Mpi.FillFullLimbs` | mpi/mpi-bit.c:144-153 | This is the outer loop. Limb `k` gets bytes `g[4k..4k+4)` as its lanes 0 to 3, `4 count` bytes are drawn, and the limbs above are untouched. |
| `MpiBit.Mpi.SetBytes` | mpi/mpi-bit.c:136-163 | `nlimbs` becomes `ceil(nbits / 32)`, the capacity holds it, and `nbits / 8` bytes are drawn in order. Every full limb `k` has lanes `g[4k..4k+4)`. The partial limb gets `xbytes` bytes in its low lanes on a little-endian host and in its high lanes on a big-endian one. Its other lanes keep their contents. Limbs beyond `nlimbs` are untouched, and so is the sign. When the old capacity already holds `ceil(nbits / 32)` limbs, the array and the capacity are unchanged. |
| `Limb.LimbValueBytes` | mpi/mpi-bit.c:144-153 | A limb's value is the little-endian value of its four byte lanes. |
| `Limb.PutByteLanes` | mpi/mpi-bit.c:148 | A store `p[i] = b` changes one lane of the limb and no other. |
| `Limb.BytesValueAppend` | mpi/mpi-bit.c:144-153 | Bytes appended after `p` weigh `2^(8 len(p))`. |
| `Magnitude.LanesValue` | mpi/mpi-bit.c:144-153 | Limbs whose lanes are consecutive groups of four generator bytes denote the little-endian value of those bytes. With `SetBytes`, the full limbs denote the first `4 (nbits / 32)` bytes as a little-endian number on either host. |
| `Limb.ShiftedLimbBit` | mpi/mpi-bit.c:194 | Bit `j` of the limb that a right shift by `cnt` stores is bit `j + cnt` of the pair formed by the next limb and this one. |
| `Magnitude.ShiftedLimbsAt` | mpi/mpi-bit.c:194 | Limb `i` of the shifted limbs is limb `i` shifted right by `cnt`, with the low `cnt` bits of limb `i + 1` (zero above the top) brought in. |
| `Magnitude.ShiftedBits` | mpi/mpi-bit.c:194 | The bits of the shifted limbs are the old bits without the lowest `cnt`, followed by `cnt` zeros. |
| `Magnitude.ShiftedLimbsValue` | mpi/mpi-bit.c:194 | The shifted limbs denote `Value / 2^cnt`. |
| `Mpn.RShift` | mpi/mpi-bit.c:194 | This is `mpihelp_rshift` on distinct arrays, with `0 < cnt < 32`. `wp[0..usize)` becomes `ShiftedLimbs(up[0..usize), cnt)` and the rest of `wp` is untouched. |
| `Mpn.Normalize` | mpi/mpi-bit.c:195 | This is `MPN_NORMALIZE`. The new size is at most the old one, the limbs it keeps are normalised, the limbs it drops are zero, and the value is unchanged. |
| `Magnitude.ValueDropZeros` | mpi/mpi-bit.c:195 | Dropping zero limbs from the top keeps the value. |
| `MpiBit.RShiftState` | mpi/mpi-bit.c:193-197 | Shifted and normalised limbs denote the source value divided by `2^n`. A zero source leaves no limb in use. |
| `MpiBit.Mpi.RShift` | mpi/mpi-bit.c:188-197 | `x.sign == a.sign` and `Value(x) == Value(a) / 2^n`. `x` is normalised and `x.nlimbs <= a.nlimbs`, so `a.nlimbs == 0` gives `x.nlimbs == 0`. A source of value 0 leaves `x.nlimbs == 0`. The capacity never shrinks, and when it already holds `a.nlimbs` limbs the array and the capacity are unchanged. It requires `x != a`, distinct arrays and `0 < n < 32`. `a` is outside the method's frame, so it is unchanged. |
| `MpiBit.GuardAsWrittenOverruns` | mpi/mpi-bit.c:82-86 | With one limb allocated and `limbno == 2`, the guard as written does not resize, and limb 2 is beyond the capacity. |

## Left out

- `mpi_resize` and `RESIZE_IF_NEEDED` are defined outside this file. `Resize`
  states only that the capacity becomes at least `k` and that the allocated
  limbs are kept. Reallocation and out-of-memory paths are not modelled.
- `mpi_alloc` is defined outside this file. The constructor of `Mpi` gives
  an MPI with room for `k` limbs, none in use and sign 0.
- `count_leading_zeros` is inline assembly outside this file. It is the
  specification function `CountLeadingZeros`.
- The internals of `mpihelp_rshift` and `MPN_NORMALIZE` are not part of this
  model. Each is a method with the standard contract: a limb-by-limb right
  shift, and dropping zero limbs from the top.
- Byte stores through `(byte*)(a->d + n)` are modelled as replacing one byte
  lane of a `bv32` limb. The host's byte order is the parameter
  `littleEndian`.
- The generator `fnc(opaque)` is a sequence of bytes. Its randomness and its
  side effects are not modelled.
- The disabled `#if 0` block of `mpi_set_bytes` (lines 164-175) is dead code.
  The only trace of it is that the leftover bits `xbits % 8` are never
  written.
- Limbs are fixed at 32 bits. The masks are the `int` expression
  `1 << bitno`. With 64-bit limbs, `1 << 31` would be sign-extended into the
  upper half, and shifts of 32 or more would be undefined.
- `mpi_get_nbits` computes in `unsigned`. `NBits` returns the exact count and
  does not model a wrap-around for MPIs of 2^32 bits or more.
- `MpiBit.Mpi.RShift` does not model shifts of a whole limb or more
  (`n >= 32`) or a zero shift. The C code passes them to `mpihelp_rshift`,
  whose contract excludes them.
- `MpiBit.Mpi.RShift` does not model an aliased destination and source, which
  the C code flags as a FIXME.
- `MpiBit.Mpi.RShift` states the value and normalisation of the result, not
  the stale limbs above the new `nlimbs`.
- `MpiBit.Mpi.SetBytes` states the value of the full limbs through
  `LanesValue`, not in its own contract. The partial limb has no value to
  state, because its unwritten lanes keep whatever they held.
- `MpiBit.Mpi.SetBit` and `MpiBit.Mpi.SetHighBit` keep the resize guard as
  written. They require `n / 32 < nlimbs || n / 32 <= alloced`, which rules
  out the out-of-bounds store (see Findings). `MpiBit.Mpi.GrowWhenNeeded`
  is the resize step with the corrected guard and needs no such
  precondition.
- The sign is copied by `mpi_rshift` and otherwise left alone. Signed
  arithmetic, timing and thread safety are out of scope.

## Findings

| source | as written | input that shows it | evidently intended | confidence | as-written member | corrected member |
|---|---|---|---|---|---|---|
| mpi/mpi-bit.c:82-86 (also 101-105) | The array is grown only when `alloced >= limbno`. When `alloced < limbno` it is not grown, yet `nlimbs` becomes `limbno + 1` and `d[limbno]` is written. | `alloced == 1`, `nlimbs == 1`, `n == 64`, so `limbno == 2`: no resize, and the store goes past the one-limb array. | Grow when the limb is not allocated, `alloced <= limbno`. Then the store is always in bounds. | high; not executed | `MpiBit.GuardAsWrittenOverruns` | `MpiBit.Mpi.GrowWhenNeeded` |
