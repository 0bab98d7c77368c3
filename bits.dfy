/**
 * Bit-level vocabulary for the driver's button masks.
 *
 * The driver keeps button state in C `int` masks and manipulates them with
 * `&`, `|`, `^`, `~`, `1 << (id - 1)` and libc `ffs`.  Here a mask is a
 * `bv32`, a bit position is an `Index` (also a `bv32`, so that shifting never
 * leaves the bit-vector theory), and `Ffs` is libc's "find first set",
 * returning a 1-based position or 0 for an empty mask.
 */
module Bits {

  /** A bit position inside a 32-bit mask. */
  type Index = i: bv32 | i < 32

  /** Bit `i` of `m` is set. */
  predicate Bit(m: bv32, i: Index)
  {
    m & (1 << i) != 0
  }

  /** The mask of the `n` lowest bits. */
  function LowMask(n: bv32): bv32
    requires n <= 32
  {
    (1 << n) - 1
  }

  /** No bit of `m` below position `k` is set. */
  predicate ClearBelow(m: bv32, k: bv32)
    requires k <= 32
  {
    m & LowMask(k) == 0
  }

  /** No bit of `m` at a position in `[p, k)` is set. */
  predicate ClearBetween(m: bv32, p: bv32, k: bv32)
    requires p <= k <= 32
  {
    m & LowMask(k) & !LowMask(p) == 0
  }

  /** `a` and `b` agree on every bit at position `k` or above. */
  predicate AgreeFrom(a: bv32, b: bv32, k: bv32)
    requires k <= 32
  {
    a & !LowMask(k) == b & !LowMask(k)
  }

  /** The position of the only set bit of a power of two. */
  function Log2(p: bv32): Index
  {
    (if p & 0xAAAA_AAAA != 0 then 1 else 0) |
    (if p & 0xCCCC_CCCC != 0 then 2 else 0) |
    (if p & 0xF0F0_F0F0 != 0 then 4 else 0) |
    (if p & 0xFF00_FF00 != 0 then 8 else 0) |
    (if p & 0xFFFF_0000 != 0 then 16 else 0)
  }

  /** libc `ffs`: one plus the position of the lowest set bit, 0 for 0. */
  function Ffs(m: bv32): (r: bv32)
    ensures r <= 32 && (r == 0 <==> m == 0)
  {
    if m == 0 then 0 else Log2(m & -m) + 1
  }

  lemma LowestBitIsolated(m: bv32)
    requires m != 0
    ensures var low := m & -m;
      low != 0 && low & (low - 1) == 0 && m & low == low && m & (low - 1) == 0
  {
  }

  lemma Log2OfPowerOfTwo(p: bv32)
    requires p != 0 && p & (p - 1) == 0
    ensures 1 << Log2(p) == p
  {
  }

  /** `Ffs` finds the lowest set bit: it is set and every bit below it is clear. */
  lemma FfsSpec(m: bv32)
    ensures Ffs(m) <= 32
    ensures Ffs(m) == 0 <==> m == 0
    ensures Ffs(m) != 0 ==> Bit(m, Ffs(m) - 1) && ClearBelow(m, Ffs(m) - 1)
  {
    if m != 0 {
      var low := m & -m;
      LowestBitIsolated(m);
      Log2OfPowerOfTwo(low);
      assert Ffs(m) - 1 == Log2(low);
      assert LowMask(Log2(low)) == low - 1;
    }
  }

  /** `m & ~(1 << (ffs(m) - 1))`: `m` with its lowest set bit cleared (0 stays 0). */
  function DropLowest(m: bv32): bv32
  {
    if m == 0 then 0 else m & !(1 << (Ffs(m) - 1))
  }

  /**
   * `ffs(m) - 1` is the lowest set bit of `m`, and `DropLowest(m)` is `m`
   * with exactly that bit cleared.
   */
  predicate LowestSet(m: bv32)
  {
    var k := Ffs(m) - 1;
    k < 32 && Bit(m, k) && ClearBelow(m, k) && DropLowest(m) == m & !(1 << k)
  }

  lemma FfsFindsLowest(m: bv32)
    ensures m != 0 ==> LowestSet(m)
  {
    FfsSpec(m);
  }

  /** Clearing the lowest set bit leaves no set bit at or below it... */
  lemma ClearLowestBit(m: bv32, k: Index)
    requires Bit(m, k) && ClearBelow(m, k)
    ensures ClearBelow(m & !(1 << k), k + 1)
  {
  }

  /** ...and keeps every bit above it. */
  lemma ClearBitKeepsHigher(m: bv32, k: Index)
    ensures AgreeFrom(m, m & !(1 << k), k + 1)
  {
  }

  lemma ClearBetweenStep(m: bv32, p: bv32, k: bv32)
    requires p < k <= 32 && ClearBetween(m, p, k)
    ensures !Bit(m, p) && ClearBetween(m, p + 1, k)
  {
  }

  lemma ClearBelowIsClearBetween(m: bv32, k: bv32)
    requires k <= 32 && ClearBelow(m, k)
    ensures ClearBetween(m, 0, k)
  {
  }

  lemma AgreeFromStep(a: bv32, b: bv32, k: Index)
    requires AgreeFrom(a, b, k)
    ensures Bit(a, k) == Bit(b, k) && AgreeFrom(a, b, k + 1)
  {
  }

  /** The mask of every bit at position `k` or above. */
  function HighMask(k: bv32): bv32
    requires k <= 32
  {
    !LowMask(k)
  }

  /** `m` with every bit of `change` inside `h` replaced by the bit of `now` at the same position. */
  function Replace(m: bv32, change: bv32, now: bv32, h: bv32): bv32
  {
    (m & !(change & h)) | (now & change & h)
  }

  /** Setting bit `k` when `down` holds, clearing it otherwise. */
  function SetBit(m: bv32, k: Index, down: bool): bv32
  {
    if down then m | (1 << k) else m & !(1 << k)
  }

  lemma HighMaskStep(k: Index)
    ensures HighMask(k) == HighMask(k + 1) | (1 << k)
    ensures HighMask(k + 1) & (1 << k) == 0
    ensures (1 as bv32) << k != 0 && ((1 as bv32) << k) & (((1 as bv32) << k) - 1) == 0
  {
  }

  /*
   * Replacing one more bit `b` just below the high part `h`, one lemma per
   * case: `b` unchanged, `b` set, `b` cleared.  Each is first stated on the
   * written-out formula, which the solver settles alone.
   */
  lemma ReplaceUnchangedBitFormula(m: bv32, c: bv32, n: bv32, h: bv32, b: bv32)
    requires h & b == 0 && c & b == 0
    ensures (m & !(c & h)) | (n & c & h) == (m & !(c & (h | b))) | (n & c & (h | b))
  {
  }

  lemma ReplaceSetBitFormula(m: bv32, c: bv32, n: bv32, h: bv32, b: bv32)
    requires h & b == 0 && c & b == b && n & b == b
    ensures ((m | b) & !(c & h)) | (n & c & h) == (m & !(c & (h | b))) | (n & c & (h | b))
  {
  }

  lemma ReplaceClearedBitFormula(m: bv32, c: bv32, n: bv32, h: bv32, b: bv32)
    requires h & b == 0 && c & b == b && n & b == 0
    ensures ((m & !b) & !(c & h)) | (n & c & h) == (m & !(c & (h | b))) | (n & c & (h | b))
  {
  }

  lemma ReplaceUnchangedBit(m: bv32, c: bv32, n: bv32, h: bv32, b: bv32)
    ensures h & b == 0 && c & b == 0 ==> Replace(m, c, n, h) == Replace(m, c, n, h | b)
  {
    if h & b == 0 && c & b == 0 {
      ReplaceUnchangedBitFormula(m, c, n, h, b);
    }
  }

  lemma ReplaceSetBit(m: bv32, c: bv32, n: bv32, h: bv32, b: bv32)
    ensures h & b == 0 && c & b == b && n & b == b ==> Replace(m | b, c, n, h) == Replace(m, c, n, h | b)
  {
    if h & b == 0 && c & b == b && n & b == b {
      ReplaceSetBitFormula(m, c, n, h, b);
    }
  }

  lemma ReplaceClearedBit(m: bv32, c: bv32, n: bv32, h: bv32, b: bv32)
    ensures h & b == 0 && c & b == b && n & b == 0 ==> Replace(m & !b, c, n, h) == Replace(m, c, n, h | b)
  {
    if h & b == 0 && c & b == b && n & b == 0 {
      ReplaceClearedBitFormula(m, c, n, h, b);
    }
  }

  /** A mask either holds all of a single-bit mask or none of it. */
  lemma SingleBit(x: bv32, b: bv32)
    requires b != 0 && b & (b - 1) == 0
    ensures x & b == 0 || x & b == b
  {
  }

  /** Bit `k` of `x` as a mask: all of `1 << k` when the bit is set, none of it otherwise. */
  lemma BitAsMask(x: bv32, k: Index)
    ensures Bit(x, k) ==> x & (1 << k) == 1 << k
    ensures !Bit(x, k) ==> x & (1 << k) == 0
  {
    HighMaskStep(k);
    SingleBit(x, 1 << k);
  }

  /*
   * Moving the replaced region down by one position, for each of the three
   * things that can happen to bit `k`.
   */
  lemma ReplaceStepSkip(m: bv32, change: bv32, now: bv32, k: Index)
    requires !Bit(change, k)
    ensures Replace(m, change, now, HighMask(k + 1)) == Replace(m, change, now, HighMask(k))
  {
    HighMaskStep(k);
    BitAsMask(change, k);
    ReplaceUnchangedBit(m, change, now, HighMask(k + 1), 1 << k);
  }

  lemma ReplaceStepSet(m: bv32, change: bv32, now: bv32, k: Index)
    requires Bit(change, k) && Bit(now, k)
    ensures Replace(SetBit(m, k, true), change, now, HighMask(k + 1)) == Replace(m, change, now, HighMask(k))
  {
    HighMaskStep(k);
    BitAsMask(change, k);
    BitAsMask(now, k);
    ReplaceSetBit(m, change, now, HighMask(k + 1), 1 << k);
  }

  lemma ReplaceStepClear(m: bv32, change: bv32, now: bv32, k: Index)
    requires Bit(change, k) && !Bit(now, k)
    ensures Replace(SetBit(m, k, false), change, now, HighMask(k + 1)) == Replace(m, change, now, HighMask(k))
  {
    HighMaskStep(k);
    BitAsMask(change, k);
    BitAsMask(now, k);
    ReplaceClearedBit(m, change, now, HighMask(k + 1), 1 << k);
  }

  lemma ReplaceAll(m: bv32, now: bv32)
    ensures Replace(m, now ^ m, now, HighMask(0)) == now
  {
  }

  lemma ReplaceNone(m: bv32, change: bv32, now: bv32)
    ensures Replace(m, change, now, HighMask(32)) == m
  {
  }
}
