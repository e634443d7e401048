/** Carving a 16-byte-aligned object out of a stack buffer.

    The buffer holds the object's size plus 15 bytes; the object is placed
    at the buffer's address plus 15 with the low four bits cleared. The 15 is
    added to the byte array itself, before the cast to a pointer-sized
    unsigned integer (UINT_PTR, 64 bits): it is pointer arithmetic that lands
    on the buffer's byte 15, inside the buffer, so it never leaves the
    address space. Addresses are modelled as naturals below 2^64; and-ing
    with ~15 clears the four low bits, which takes the address down to a
    multiple of 16.
 */
module StackAlign {

  /** Number of distinct 64-bit addresses. */
  const ADDRESS_SPACE: nat := 0x1_0000_0000_0000_0000

  /** The alignment, and the extra bytes the buffer reserves for it. */
  const ALIGNMENT: nat := 16
  const SLACK: nat := 15

  /** A 64-bit address. */
  predicate IsAddress(x: int)
  {
    0 <= x < ADDRESS_SPACE
  }

  /** `x & ~15`: the address with its four low bits cleared. */
  function ClearLowBits(x: nat): (r: nat)
    requires IsAddress(x)
    ensures IsAddress(r)
    ensures r % ALIGNMENT == 0
    ensures r <= x < r + ALIGNMENT
  {
    x - x % ALIGNMENT
  }

  /** The buffer length reserved for an object of `size` bytes: longer than
      the object, and at least one alignment unit exactly when the object
      takes at least one byte. */
  function BufferLength(size: nat): (n: nat)
    ensures size < n
    ensures ALIGNMENT <= n <==> 1 <= size
  {
    size + SLACK
  }

  /** A buffer of an object of at least one byte that lies inside the address
      space leaves room for its byte 15: the address of that byte is itself
      an address, which is what `AlignedAddress` requires. */
  lemma NoBufferAtTop(space: nat, size: nat)
    requires 1 <= size && IsAddress(space) && space + BufferLength(size) <= ADDRESS_SPACE
    ensures space + SLACK < ADDRESS_SPACE
  {
  }

  /** Where the object goes in a buffer at address `space`: the address of
      the buffer's byte 15 with its low bits cleared. The result is an
      aligned address, not below `space` and at most 15 bytes above it. */
  function AlignedAddress(space: nat): (a: nat)
    requires IsAddress(space) && space + SLACK < ADDRESS_SPACE
    ensures IsAddress(a)
    ensures a % ALIGNMENT == 0
    ensures space <= a <= space + SLACK
  {
    ClearLowBits(space + SLACK)
  }

  /** The header's own expression on 64-bit words: `(space + 15) & ~15` has
      its four low bits clear, whatever `space` is. */
  lemma MaskedAddressAligned(space: bv64)
    ensures ((space + 15) & !15) & 15 == 0
  {
  }

  /** The header's own expression on 64-bit words: unless adding 15 wraps,
      `(space + 15) & ~15` lies in [space, space + 15]. */
  lemma MaskedAddressInRange(space: bv64)
    requires space <= 0xFFFF_FFFF_FFFF_FFF0
    ensures space <= (space + 15) & !15
    ensures ((space + 15) & !15) - space <= 15
  {
  }

  /** The object goes to the first multiple of 16 at or above the buffer's
      address: every aligned address not below `space` is at or above it. */
  lemma AlignedAddressIsLeast(space: nat, b: nat)
    requires IsAddress(space) && space + SLACK < ADDRESS_SPACE
    requires b % ALIGNMENT == 0 && space <= b
    ensures AlignedAddress(space) <= b
  {
  }

  /** An address that is already aligned is used as it is. */
  lemma AlignedAddressKeepsAligned(space: nat)
    requires IsAddress(space) && space % ALIGNMENT == 0
    ensures AlignedAddress(space) == space
  {
  }

  /** The object fits: when the buffer of `size` + 15 bytes lies inside the
      address space, the `size` bytes from the aligned address lie inside
      the buffer, i.e. the padding before the object plus the object take
      at most the buffer's length. */
  lemma ObjectFitsInBuffer(space: nat, size: nat)
    requires 1 <= size
    requires IsAddress(space) && space + BufferLength(size) <= ADDRESS_SPACE
    ensures space + SLACK < ADDRESS_SPACE
    ensures var a := AlignedAddress(space);
      && space <= a
      && a + size <= space + BufferLength(size)
  {
    NoBufferAtTop(space, size);
  }
}
