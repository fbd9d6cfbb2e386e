/** The 64-bit page-table descriptor of paging.h, and the record it encodes.

    A descriptor holds a 40-bit frame number in bits 12..51 and twelve flags in bits 0..11 (Intel
    SDM Volume 3A, section 4.5).  The page-table model works on the record `Entry`; the lemmas at
    the end of this module show that every helper of paging.h, which works on the raw word, computes
    the corresponding operation on the record.

    A machine word is modelled by the set of the positions of its one bits, so `|` is union, `&` is
    intersection and `& ~` is difference.
 */
module Descriptors {

  type Word = set<nat>

  const PRESENT: Word := {0}
  const WRITE: Word := {1}
  const KERNEL_PAGE: Word := PRESENT + WRITE

  /** The constants 0x0fff and 0xffffffffff000. */
  const FLAG_MASK: Word := set b | 0 <= b < 12
  const ADDRESS_MASK: Word := set b | 12 <= b < 52

  /** Frame numbers have 40 bits. */
  const FRAMES: nat := 0x100_0000_0000

  /** The flags by their bits: a descriptor is present by bit 0, and a kernel page is present and writable
      (bit 1) and nothing else, in particular not open to user programs (bit 2). */
  lemma FlagBits(e: Entry)
    ensures Present(e) <==> 0 in e.flags
    ensures forall b :: b in KERNEL_PAGE <==> b == 0 || b == 1
  {
    assert 0 in e.flags ==> 0 in e.flags * PRESENT;
  }

  lemma KernelFlags()
    ensures KERNEL_PAGE * FLAG_MASK == KERNEL_PAGE
  {
  }

  /** What the writes of paging.c make of an encodable descriptor is encodable. */
  lemma EncodableWrites(e: Entry, p: nat, f: Word)
    requires Encodable(e) && f <= FLAG_MASK
    ensures Encodable(Entry(e.frame, e.flags + f))
    ensures Encodable(Entry(BitOr(e.frame, p % FRAMES), f))
    ensures p < FRAMES ==> Encodable(Entry(p, f + PRESENT))
    ensures e.frame % FRAMES == e.frame && e.flags * FLAG_MASK == e.flags
  {
    BitOrNarrow(e.frame, p % FRAMES);
  }

  lemma FortyBitFrame(p: nat)
    requires p < FRAMES
    ensures p % FRAMES == p
  {
  }

  datatype Entry = Entry(frame: nat, flags: Word)

  const ZERO := Entry(0, {})

  /** What a 64-bit descriptor can hold. */
  predicate Encodable(e: Entry) {
    e.frame < FRAMES && e.flags <= FLAG_MASK
  }

  predicate Present(e: Entry) {
    e.flags * PRESENT != {}
  }

  // ---------------------------------------------------------------------------------------------
  // The helpers of paging.h on raw words.

  function SetAddress(d: Word, address: Word): Word {
    d + (address * ADDRESS_MASK)
  }

  function GetAddress(d: Word): Word {
    d * ADDRESS_MASK
  }

  predicate GetFlag(d: Word, flag: Word) {
    d * flag != {}
  }

  function SetFlag(d: Word, flag: Word, value: bool): Word {
    var cleared := d - flag;
    if value then cleared + flag else cleared
  }

  function SetFlags(d: Word, flags: Word): Word {
    (d - FLAG_MASK) + flags
  }

  // ---------------------------------------------------------------------------------------------
  // Numbers and their bits.

  predicate Bit(x: nat, k: nat) {
    if k == 0 then x % 2 == 1 else Bit(x / 2, k - 1)
  }

  /** Bitwise or on numbers of any width. */
  function BitOr(a: nat, b: nat): (r: nat)
    ensures a == 0 ==> r == b
    ensures b == 0 ==> r == a
    ensures a == b ==> r == a
  {
    if a == 0 then b
    else if b == 0 then a
    else 2 * BitOr(a / 2, b / 2) + (if a % 2 == 1 || b % 2 == 1 then 1 else 0)
  }

  lemma {:induction false} ZeroBits(k: nat)
    ensures !Bit(0, k)
  {
    if k > 0 {
      ZeroBits(k - 1);
    }
  }

  /** `BitOr` is the bitwise or. */
  lemma {:induction false} BitOrBits(a: nat, b: nat, k: nat)
    ensures Bit(BitOr(a, b), k) <==> Bit(a, k) || Bit(b, k)
  {
    ZeroBits(k);
    if a != 0 && b != 0 && k > 0 {
      assert BitOr(a, b) / 2 == BitOr(a / 2, b / 2);
      BitOrBits(a / 2, b / 2, k - 1);
    }
  }

  lemma {:induction false} BitsDetermine(a: nat, b: nat)
    requires forall k: nat :: Bit(a, k) <==> Bit(b, k)
    ensures a == b
    decreases a + b
  {
    if a != b {
      assert Bit(a, 0) <==> Bit(b, 0);
      forall k: nat
        ensures Bit(a / 2, k) <==> Bit(b / 2, k)
      {
        assert Bit(a, k + 1) <==> Bit(b, k + 1);
      }
      BitsDetermine(a / 2, b / 2);
    }
  }

  /** Every one bit of `a` is a one bit of `b`. */
  ghost predicate BitsWithin(a: nat, b: nat) {
    forall k: nat :: Bit(a, k) ==> Bit(b, k)
  }

  /** OR-ing a number into another leaves it as it is exactly when it adds no bit. */
  lemma BitOrSame(a: nat, b: nat)
    ensures BitOr(a, b) == b <==> BitsWithin(a, b)
  {
    if BitOr(a, b) == b {
      forall k: nat
        ensures Bit(a, k) ==> Bit(b, k)
      {
        BitOrBits(a, b, k);
      }
    }
    if BitsWithin(a, b) {
      forall k: nat
        ensures Bit(BitOr(a, b), k) <==> Bit(b, k)
      {
        BitOrBits(a, b, k);
      }
      BitsDetermine(BitOr(a, b), b);
    }
  }

  lemma {:induction false} BitOrPower(a: nat, b: nat, n: nat)
    requires a < Power(n) && b < Power(n)
    ensures BitOr(a, b) < Power(n)
  {
    if a != 0 && b != 0 {
      BitOrPower(a / 2, b / 2, n - 1);
    }
  }

  /** The bitwise or of two frame numbers is a frame number. */
  lemma BitOrNarrow(a: nat, b: nat)
    requires a < FRAMES && b < FRAMES
    ensures BitOr(a, b) < FRAMES
  {
    FortyBits();
    BitOrPower(a, b, 40);
  }

  // ---------------------------------------------------------------------------------------------
  // The encoding.

  predicate AddressBit(frame: nat, b: nat) {
    b >= 12 && Bit(frame, b - 12)
  }

  /** The physical address of a frame, its number shifted left by 12. */
  function Address(frame: nat): Word {
    set b: nat | 12 <= b < 52 && AddressBit(frame, b)
  }

  function Encode(e: Entry): Word {
    Address(e.frame) + e.flags
  }

  function Power(n: nat): nat {
    if n == 0 then 1 else 2 * Power(n - 1)
  }

  lemma {:induction false} HighBits(x: nat, n: nat, k: nat)
    requires x < Power(n) && n <= k
    ensures !Bit(x, k)
  {
    if n == 0 {
      ZeroBits(k);
    } else {
      HighBits(x / 2, n - 1, k - 1);
    }
  }

  lemma {:induction false} FortyBits()
    ensures Power(40) == FRAMES
  {
    assert Power(10) == 0x400;
    assert Power(20) == 0x10_0000;
    assert Power(30) == 0x4000_0000;
  }

  lemma AddressDetermines(a: nat, b: nat)
    requires a < FRAMES && b < FRAMES && Address(a) == Address(b)
    ensures a == b
  {
    FortyBits();
    forall k: nat
      ensures Bit(a, k) <==> Bit(b, k)
    {
      if k < 40 {
        assert k + 12 in Address(a) <==> AddressBit(a, k + 12);
        assert k + 12 in Address(b) <==> AddressBit(b, k + 12);
      } else {
        HighBits(a, 40, k);
        HighBits(b, 40, k);
      }
    }
    BitsDetermine(a, b);
  }

  lemma AddressOr(a: nat, b: nat)
    ensures Address(BitOr(a, b)) == Address(a) + Address(b)
  {
    forall n | 12 <= n < 52
      ensures n in Address(BitOr(a, b)) <==> n in Address(a) + Address(b)
    {
      BitOrBits(a, b, n - 12);
    }
  }

  // ---------------------------------------------------------------------------------------------
  // The helpers of paging.h on records.

  /** A descriptor determines its record, `GetAddress` reads the frame alone and `GetFlag` reads the
      flags alone. */
  lemma DescriptorReads(e: Entry, other: Entry, flag: Word)
    requires e.frame < FRAMES && other.frame < FRAMES
    requires e.flags <= FLAG_MASK && other.flags <= FLAG_MASK && flag <= FLAG_MASK
    ensures Encode(e) == Encode(other) <==> e == other
    ensures GetAddress(Encode(e)) == GetAddress(Encode(other)) <==> e.frame == other.frame
    ensures GetFlag(Encode(e), flag) <==> e.flags * flag != {}
  {
    assert GetAddress(Encode(e)) == Address(e.frame);
    assert GetAddress(Encode(other)) == Address(other.frame);
    assert e.flags == Encode(e) * FLAG_MASK;
    assert other.flags == Encode(other) * FLAG_MASK;
    assert Encode(e) * flag == e.flags * flag;
    if Address(e.frame) == Address(other.frame) {
      AddressDetermines(e.frame, other.frame);
    }
  }

  /** An address is OR-ed into the frame and leaves the flags; setting or clearing one flag,
      replacing the flags and OR-ing flags leave the frame. */
  lemma DescriptorUpdates(e: Entry, frame: nat, flag: Word, value: bool)
    requires e.flags <= FLAG_MASK && flag <= FLAG_MASK
    ensures SetAddress(Encode(e), Address(frame)) == Encode(Entry(BitOr(e.frame, frame), e.flags))
    ensures SetFlag(Encode(e), flag, value)
         == Encode(Entry(e.frame, if value then e.flags + flag else e.flags - flag))
    ensures SetFlags(Encode(e), flag) == Encode(Entry(e.frame, flag))
    ensures Encode(e) + flag == Encode(Entry(e.frame, e.flags + flag))
  {
    AddressOr(e.frame, frame);
  }
}
