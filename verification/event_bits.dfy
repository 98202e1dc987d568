/** The event-bit word of an event group (EventBits_t) and its arithmetic.

    EventBits_t has the width of TickType_t: 16 bits when configUSE_16_BIT_TICKS
    is 1, 32 bits otherwise.  The word is held here as a bv32 in both
    configurations; the top byte of the configured width is kept for the
    implementation, so only the low 8 (16-bit ticks) or low 24 (32-bit ticks)
    bits are usable by an application.

    Besides the word operations, the module gives every word an abstract view,
    BitSet(x), the set of indices of its set bits, and proves that union,
    subtraction and the ANY/ALL wait test mean on that view what the event
    group documentation says they mean. */
module EventBits {

  type Bits = bv32

  /** Width of the storage word. */
  const WordWidth: nat := 32

  /** The configUSE_16_BIT_TICKS setting: Ticks16 is 1, Ticks32 is 0. */
  datatype TickConfig = Ticks16 | Ticks32

  /** Number of bits an application may use in an event group. */
  function UsableBitCount(c: TickConfig): (n: nat)
    ensures n < WordWidth
  {
    if c.Ticks16? then 8 else 24
  }

  /** The word with exactly the usable bits set. */
  function UsableMask(c: TickConfig): Bits
  {
    if c.Ticks16? then 0xFF else 0xFF_FFFF
  }

  /** UsableMask(c) has bit k set exactly for the usable indices k. */
  lemma UsableMaskBits(c: TickConfig, k: nat)
    requires k < WordWidth
    ensures HasBit(UsableMask(c), k) <==> k < UsableBitCount(c)
  {
  }

  /** The word with only bit i set. */
  function Bit(i: bv5): Bits
  {
    1 << i
  }

  /** Bit i of x is set. */
  predicate HasBitAt(x: Bits, i: bv5)
  {
    x & Bit(i) != 0
  }

  /** Bit number k of x is set. */
  predicate HasBit(x: Bits, k: nat)
    requires k < WordWidth
  {
    HasBitAt(x, k as bv5)
  }

  /** The indices of the bits set in x. */
  ghost function BitSet(x: Bits): set<nat>
  {
    BitsFrom(x, 0)
  }

  /** The indices, from n up, of the bits set in x. */
  ghost function BitsFrom(x: Bits, n: nat): set<nat>
    requires n <= WordWidth
    decreases WordWidth - n
  {
    if n == WordWidth then {}
    else (if HasBit(x, n) then {n} else {}) + BitsFrom(x, n + 1)
  }

  lemma {:induction false} BitsFromMember(x: Bits, n: nat, k: nat)
    requires n <= WordWidth
    ensures k in BitsFrom(x, n) <==> n <= k < WordWidth && HasBit(x, k)
    decreases WordWidth - n
  {
    if n < WordWidth {
      BitsFromMember(x, n + 1, k);
    }
  }

  /** k is in BitSet(x) exactly when bit k of x is set. */
  lemma BitSetMember(x: Bits, k: nat)
    ensures k in BitSet(x) <==> k < WordWidth && HasBit(x, k)
  {
    BitsFromMember(x, 0, k);
  }

  /** x sets no bit outside `allowed`. */
  predicate Within(x: Bits, allowed: Bits)
  {
    x & !allowed == 0
  }

  /** x uses no bit outside the usable bits of configuration c. */
  predicate Usable(c: TickConfig, x: Bits)
  {
    Within(x, UsableMask(c))
  }

  /** The wait condition of xEventGroupWaitBits: with waitForAll every bit of
      mask must be set in value, otherwise one set bit of mask is enough. */
  predicate Satisfied(value: Bits, mask: Bits, waitForAll: bool)
  {
    if waitForAll then value & mask == mask else value & mask != 0
  }

  /* Setting bits is union (x | m) and clearing them is subtraction (x & !m).
     How each bit of a union, intersection, complement and subtraction
     depends on the same bit of the operands, and the same facts on the
     BitSet view. */

  /** Masking a union with any word b. */
  lemma OrMasked(x: Bits, y: Bits, b: Bits)
    ensures (x | y) & b != 0 ==> x & b != 0 || y & b != 0
    ensures x & b != 0 || y & b != 0 ==> (x | y) & b != 0
  {
  }

  lemma OrBitAt(x: Bits, y: Bits, i: bv5)
    ensures HasBitAt(x | y, i) <==> HasBitAt(x, i) || HasBitAt(y, i)
  {
    OrMasked(x, y, Bit(i));
  }

  lemma AndBitAt(x: Bits, y: Bits, i: bv5)
    ensures HasBitAt(x & y, i) <==> HasBitAt(x, i) && HasBitAt(y, i)
  {
  }

  lemma NotBitAt(y: Bits, i: bv5)
    ensures HasBitAt(!y, i) <==> !HasBitAt(y, i)
  {
  }

  lemma AndNotBitAt(x: Bits, y: Bits, i: bv5)
    ensures HasBitAt(x & !y, i) <==> HasBitAt(x, i) && !HasBitAt(y, i)
  {
    AndBitAt(x, !y, i);
    NotBitAt(y, i);
  }

  lemma OrBit(x: Bits, y: Bits, k: nat)
    requires k < WordWidth
    ensures HasBit(x | y, k) <==> HasBit(x, k) || HasBit(y, k)
  {
    OrBitAt(x, y, k as bv5);
  }

  lemma AndBit(x: Bits, y: Bits, k: nat)
    requires k < WordWidth
    ensures HasBit(x & y, k) <==> HasBit(x, k) && HasBit(y, k)
  {
    AndBitAt(x, y, k as bv5);
  }

  lemma AndNotBit(x: Bits, y: Bits, k: nat)
    requires k < WordWidth
    ensures HasBit(x & !y, k) <==> HasBit(x, k) && !HasBit(y, k)
  {
    AndNotBitAt(x, y, k as bv5);
  }

  lemma OrMember(x: Bits, y: Bits, k: nat)
    ensures k in BitSet(x | y) <==> k in BitSet(x) || k in BitSet(y)
  {
    BitSetMember(x | y, k);
    BitSetMember(x, k);
    BitSetMember(y, k);
    if k < WordWidth { OrBit(x, y, k); }
  }

  lemma AndMember(x: Bits, y: Bits, k: nat)
    ensures k in BitSet(x & y) <==> k in BitSet(x) && k in BitSet(y)
  {
    BitSetMember(x & y, k);
    BitSetMember(x, k);
    BitSetMember(y, k);
    if k < WordWidth { AndBit(x, y, k); }
  }

  lemma AndNotMember(x: Bits, y: Bits, k: nat)
    ensures k in BitSet(x & !y) <==> k in BitSet(x) && k !in BitSet(y)
  {
    BitSetMember(x & !y, k);
    BitSetMember(x, k);
    BitSetMember(y, k);
    if k < WordWidth { AndNotBit(x, y, k); }
  }

  /** Setting bits is union of the bit-index sets. */
  lemma OrBitSet(x: Bits, y: Bits)
    ensures BitSet(x | y) == BitSet(x) + BitSet(y)
  {
    forall k: nat ensures k in BitSet(x | y) <==> k in BitSet(x) + BitSet(y) {
      OrMember(x, y, k);
    }
  }

  /** Testing bits is intersection of the bit-index sets. */
  lemma AndBitSet(x: Bits, y: Bits)
    ensures BitSet(x & y) == BitSet(x) * BitSet(y)
  {
    forall k: nat ensures k in BitSet(x & y) <==> k in BitSet(x) * BitSet(y) {
      AndMember(x, y, k);
    }
  }

  /** Clearing bits is difference of the bit-index sets. */
  lemma AndNotBitSet(x: Bits, y: Bits)
    ensures BitSet(x & !y) == BitSet(x) - BitSet(y)
  {
    forall k: nat ensures k in BitSet(x & !y) <==> k in BitSet(x) - BitSet(y) {
      AndNotMember(x, y, k);
    }
  }

  /** The word with the bits below index n set. */
  function LowMask(n: nat): Bits
    requires n <= WordWidth
  {
    ((1 as Bits) << n) - 1
  }

  lemma LowMaskStep(n: nat)
    requires n < WordWidth
    ensures LowMask(n + 1) == LowMask(n) | Bit(n as bv5)
  {
  }

  lemma {:induction false} NoBitsBelow(x: Bits, n: nat)
    requires n <= WordWidth
    requires forall k | 0 <= k < n :: !HasBit(x, k)
    ensures x & LowMask(n) == 0
  {
    if n > 0 {
      NoBitsBelow(x, n - 1);
      assert !HasBit(x, n - 1);
      LowMaskStep(n - 1);
    }
  }

  /** A word is zero exactly when no bit index is set in it. */
  lemma ZeroIffNoBits(x: Bits)
    ensures x == 0 <==> BitSet(x) == {}
  {
    if BitSet(x) == {} {
      forall k | 0 <= k < WordWidth ensures !HasBit(x, k) {
        BitSetMember(x, k);
      }
      NoBitsBelow(x, WordWidth);
    }
    if x == 0 {
      forall k: nat ensures k !in BitSet(x) {
        BitSetMember(x, k);
      }
    }
  }

  /** A word is determined by its set of bit indices. */
  lemma BitSetInjective(x: Bits, y: Bits)
    ensures x == y <==> BitSet(x) == BitSet(y)
  {
    if BitSet(x) == BitSet(y) {
      AndNotBitSet(x, y);
      AndNotBitSet(y, x);
      ZeroIffNoBits(x & !y);
      ZeroIffNoBits(y & !x);
    }
  }

  /** Usable words are those whose bit indices all lie below the usable count. */
  lemma UsableMeaning(c: TickConfig, x: Bits)
    ensures Usable(c, x) <==> forall k | k in BitSet(x) :: k < UsableBitCount(c)
  {
    AndNotBitSet(x, UsableMask(c));
    ZeroIffNoBits(x & !UsableMask(c));
    if Usable(c, x) {
      forall k | k in BitSet(x) ensures k < UsableBitCount(c) {
        assert k !in BitSet(x & !UsableMask(c));
        BitSetMember(x, k);
        BitSetMember(UsableMask(c), k);
        UsableMaskBits(c, k);
      }
    } else {
      var k :| k in BitSet(x & !UsableMask(c));
      BitSetMember(x, k);
      BitSetMember(UsableMask(c), k);
      UsableMaskBits(c, k);
    }
  }

  /** The ANY/ALL test on words is the documented test on bit indices:
      ALL needs every bit of the mask set, ANY needs one of them set. */
  lemma SatisfiedMeaning(value: Bits, mask: Bits, waitForAll: bool)
    ensures Satisfied(value, mask, waitForAll) <==>
      if waitForAll then BitSet(mask) <= BitSet(value)
      else BitSet(mask) * BitSet(value) != {}
  {
    if waitForAll {
      AllMeaning(value, mask);
    } else {
      AnyMeaning(value, mask);
    }
  }

  lemma AllMeaning(value: Bits, mask: Bits)
    ensures value & mask == mask <==> BitSet(mask) <= BitSet(value)
  {
    NoneMissing(value, mask);
    AndNotBitSet(mask, value);
    ZeroIffNoBits(mask & !value);
  }

  /** All bits of mask are set in value exactly when none is missing. */
  lemma NoneMissing(value: Bits, mask: Bits)
    ensures value & mask == mask ==> mask & !value == 0
    ensures mask & !value == 0 ==> value & mask == mask
  {
  }

  lemma AnyMeaning(value: Bits, mask: Bits)
    ensures value & mask != 0 <==> BitSet(mask) * BitSet(value) != {}
  {
    AndBitSet(value, mask);
    ZeroIffNoBits(value & mask);
  }

  /** Clearing bits never satisfies a wait that was not satisfied before:
      a test that holds of a value holds of every value with more bits set. */
  lemma SatisfiedMonotone(smaller: Bits, larger: Bits, mask: Bits, waitForAll: bool)
    requires smaller & !larger == 0
    requires Satisfied(smaller, mask, waitForAll)
    ensures Satisfied(larger, mask, waitForAll)
  {
  }
}
