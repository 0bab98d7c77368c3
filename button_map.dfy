/**
 * Button bit remapping (src/vmmouse.c, `reverseMap`/`reverseBits` and the
 * native-to-PS/2-to-driver shuffle in `GetVMMouseMotionEvent`).
 *
 * A sample from the backdoor channel carries the host's native button bits.
 * `GetVMMouseMotionEvent` turns them into a PS/2-style byte and then into the
 * driver's internal mask; `VMMouseDoPostEvent` finally passes that mask
 * through `reverseBits` before numbering buttons for the X server.
 */
module ButtonMap {
  import opened Bits

  /** Native button bits of a backdoor sample (`VMMOUSE_*_BUTTON`). */
  const NativeLeft: bv32 := 0x20
  const NativeRight: bv32 := 0x10
  const NativeMiddle: bv32 := 0x08

  /** The fixed table `reverseMap`: entry `n` is `n` with bits 0 and 2 swapped. */
  const ReverseMap: seq<bv32> :=
    [ 0,  4,  2,  6,  1,  5,  3,  7,
      8, 12, 10, 14,  9, 13, 11, 15,
     16, 20, 18, 22, 17, 21, 19, 23,
     24, 28, 26, 30, 25, 29, 27, 31]

  /** Bits 0 and 2 of a four-bit value exchanged. */
  function SwapLowNibble(n: bv32): bv32
  {
    (n & 0x0a) | ((n & 1) << 2) | ((n & 4) >> 2)
  }

  /**
   * The macro `reverseBits(map, b)`: the low four bits replaced by their
   * entry in `reverseMap`, the rest kept.  Written with the bit swap the table
   * encodes; `ReverseBitsIsTableLookup` shows it is the table lookup.
   */
  function ReverseBits(b: bv32): bv32
  {
    (b & !0x0f) | SwapLowNibble(b & 0x0f)
  }

  /** Entry `n` of the table is `n` with bits 0 and 2 exchanged. */
  lemma ReverseMapEntry(n: bv32)
    requires n < 16
    ensures ReverseMap[n as int] == SwapLowNibble(n)
  {
    if n == 0 { assert ReverseMap[0] == SwapLowNibble(0); }
    else if n == 1 { assert ReverseMap[1] == SwapLowNibble(1); }
    else if n == 2 { assert ReverseMap[2] == SwapLowNibble(2); }
    else if n == 3 { assert ReverseMap[3] == SwapLowNibble(3); }
    else if n == 4 { assert ReverseMap[4] == SwapLowNibble(4); }
    else if n == 5 { assert ReverseMap[5] == SwapLowNibble(5); }
    else if n == 6 { assert ReverseMap[6] == SwapLowNibble(6); }
    else if n == 7 { assert ReverseMap[7] == SwapLowNibble(7); }
    else if n == 8 { assert ReverseMap[8] == SwapLowNibble(8); }
    else if n == 9 { assert ReverseMap[9] == SwapLowNibble(9); }
    else if n == 10 { assert ReverseMap[10] == SwapLowNibble(10); }
    else if n == 11 { assert ReverseMap[11] == SwapLowNibble(11); }
    else if n == 12 { assert ReverseMap[12] == SwapLowNibble(12); }
    else if n == 13 { assert ReverseMap[13] == SwapLowNibble(13); }
    else if n == 14 { assert ReverseMap[14] == SwapLowNibble(14); }
    else { assert ReverseMap[15] == SwapLowNibble(15); }
  }

  /** `ReverseBits` is the macro: keep the high bits, look the low four up in `reverseMap`. */
  lemma ReverseBitsIsTableLookup(b: bv32)
    ensures ReverseBits(b) == (b & !0x0f) | ReverseMap[(b & 0x0f) as int]
  {
    ReverseMapEntry(b & 0x0f);
  }

  /**
   * `reverseBits` exchanges bit 0 and bit 2 and keeps bit 1, bit 3 and every
   * bit above the low nibble.
   */
  lemma ReverseBitsSwapsBits(b: bv32)
    ensures ReverseBits(b) & !0x0f == b & !0x0f
    ensures ReverseBits(b) & 0x0a == b & 0x0a
    ensures (ReverseBits(b) & 0x01 != 0) == (b & 0x04 != 0)
    ensures (ReverseBits(b) & 0x04 != 0) == (b & 0x01 != 0)
  {
  }

  /** Applying `reverseBits` twice gives back the mask. */
  lemma ReverseBitsInvolution(b: bv32)
    ensures ReverseBits(ReverseBits(b)) == b
  {
  }

  /** `reverseBits` never maps two masks to one. */
  lemma ReverseBitsInjective(a: bv32, b: bv32)
    ensures ReverseBits(a) == ReverseBits(b) <==> a == b
  {
    ReverseBitsInvolution(a);
    ReverseBitsInvolution(b);
  }

  /** `reverseBits` commutes with exclusive or, so button changes can be found after remapping. */
  lemma ReverseBitsXor(a: bv32, b: bv32)
    ensures ReverseBits(a) ^ ReverseBits(b) == ReverseBits(a ^ b)
  {
  }

  /** `reverseBits` is a bit permutation, so it commutes with `&`. */
  lemma ReverseBitsAnd(a: bv32, b: bv32)
    ensures ReverseBits(a) & ReverseBits(b) == ReverseBits(a & b)
  {
  }

  /** The PS/2 byte built from the native bits: middle 0x04, right 0x02, left 0x01. */
  function Ps2Buttons(native: bv32): bv32
  {
    (if native & NativeMiddle != 0 then 0x04 else 0) |
    (if native & NativeRight != 0 then 0x02 else 0) |
    (if native & NativeLeft != 0 then 0x01 else 0)
  }

  /** The driver's mask built from the PS/2 byte (middle to 0x02, right to 0x01, left to 0x04). */
  function DriverButtons(ps2: bv32): bv32
  {
    ((ps2 & 0x04) >> 1) | ((ps2 & 0x02) >> 1) | ((ps2 & 0x01) << 2)
  }

  /** The mask `GetVMMouseMotionEvent` passes on for a sample's native bits. */
  function SampleButtons(native: bv32): bv32
  {
    DriverButtons(Ps2Buttons(native))
  }

  /**
   * After the shuffle and `reverseBits`, native left, middle and right land on
   * host bits 0, 1 and 2, that is X buttons 1, 2 and 3, and nothing else is set.
   */
  lemma NativeButtonsToHost(native: bv32)
    ensures ReverseBits(SampleButtons(native)) ==
      (if native & NativeLeft != 0 then 1 else 0) |
      (if native & NativeMiddle != 0 then 2 else 0) |
      (if native & NativeRight != 0 then 4 else 0)
    ensures SampleButtons(native) & !0x07 == 0
  {
  }
}
