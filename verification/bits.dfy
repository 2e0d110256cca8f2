/** 64-bit words and the numbers they denote. */
module Bits {

  const TWO_59 := 0x0800_0000_0000_0000
  const TWO_64 := 0x1_0000_0000_0000_0000

  function Half(w: bv64): bv64 {
    w >> 1
  }

  function Bit(w: bv64): (b: nat)
    ensures b < 2
  {
    if w & 1 == 1 then 1 else 0
  }

  function Or(x: bv64, y: bv64): bv64 {
    x | y
  }

  predicate Apart(x: bv64, y: bv64) {
    x & y == 0
  }

  /** The number a word denotes, bit by bit. */
  function Num(w: bv64): (n: nat)
    decreases w
  {
    if w == 0 then 0 else Halved(w); 2 * Num(Half(w)) + Bit(w)
  }

  lemma Halved(w: bv64)
    requires w != 0
    ensures Half(w) < w
  {
  }

  lemma ZeroHalf()
    ensures Half(0) == 0 && Bit(0) == 0
  {
  }

  /** Every word is its half and its low bit. */
  lemma NumStep(w: bv64)
    ensures Num(w) == 2 * Num(Half(w)) + Bit(w)
  {
    hide Half, Bit;
    ZeroHalf();
  }

  /** A shift left by one doubles a word whose top bit is clear. */
  lemma Doubled(w: bv64)
    requires w < 0x8000_0000_0000_0000
    ensures Num(w << 1) == 2 * Num(w)
  {
    ShiftBack(w);
    hide *;
    NumStep(w << 1);
  }

  lemma ShiftBack(w: bv64)
    requires w < 0x8000_0000_0000_0000
    ensures Half(w << 1) == w && Bit(w << 1) == 0
  {
  }

  lemma {:induction false} NumShrinks(w: bv64)
    requires w != 0
    ensures Num(Half(w)) < Num(w)
    decreases w
  {
    Halved(w);
    NumStep(w);
    if Half(w) != 0 { NumShrinks(Half(w)); } else { LowBit(w); }
  }

  lemma LowBit(w: bv64)
    requires w != 0 && Half(w) == 0
    ensures Bit(w) == 1
  {
  }

  /** Words with no bit in common: or is sum. */
  lemma {:induction false} OrIsSum(x: bv64, y: bv64)
    requires Apart(x, y)
    ensures Num(Or(x, y)) == Num(x) + Num(y)
    decreases Num(x)
  {
    hide *;
    if x == 0 {
      OrZero(y);
    } else {
      NumShrinks(x);
      OrHalves(x, y);
      OrIsSum(Half(x), Half(y));
      OrStep(x, y);
    }
  }

  lemma OrStep(x: bv64, y: bv64)
    requires Apart(x, y) && Num(Or(Half(x), Half(y))) == Num(Half(x)) + Num(Half(y))
    ensures Num(Or(x, y)) == Num(x) + Num(y)
  {
    hide *;
    OrHalves(x, y);
    NumStep(x);
    NumStep(y);
    NumStep(Or(x, y));
  }

  lemma OrZero(y: bv64)
    ensures Or(0, y) == y && Num(0) == 0
  {
  }

  lemma OrHalves(x: bv64, y: bv64)
    requires Apart(x, y)
    ensures Half(Or(x, y)) == Or(Half(x), Half(y)) && Apart(Half(x), Half(y))
    ensures Bit(Or(x, y)) == Bit(x) + Bit(y)
  {
    LowBits(x, y);
  }

  lemma LowBits(x: bv64, y: bv64)
    requires x & y == 0
    ensures (x | y) & 1 == 1 <==> x & 1 == 1 || y & 1 == 1
    ensures !(x & 1 == 1 && y & 1 == 1)
    ensures (x | y) >> 1 == (x >> 1) | (y >> 1) && (x >> 1) & (y >> 1) == 0
  {
  }

  // ---------------------------------------------------------------------
  // Shifts
  // ---------------------------------------------------------------------

  lemma Shl2(w: bv64)
    requires w < 0x4000_0000_0000_0000
    ensures Num(w << 2) == 4 * Num(w)
  {
    assert w << 1 < 0x8000_0000_0000_0000 && (w << 1) << 1 == w << 2;
    hide *;
    Doubled(w);
    Doubled(w << 1);
  }

  lemma Shl4(w: bv64)
    requires w < 0x1000_0000_0000_0000
    ensures Num(w << 4) == 16 * Num(w)
  {
    assert w << 2 < 0x4000_0000_0000_0000 && (w << 2) << 2 == w << 4;
    hide *;
    Shl2(w);
    Shl2(w << 2);
  }

  lemma Shl8(w: bv64)
    requires w < 0x0100_0000_0000_0000
    ensures Num(w << 8) == 0x100 * Num(w)
  {
    assert w << 4 < 0x1000_0000_0000_0000 && (w << 4) << 4 == w << 8;
    hide *;
    Shl4(w);
    Shl4(w << 4);
  }

  lemma Shl16(w: bv64)
    requires w < 0x0001_0000_0000_0000
    ensures Num(w << 16) == 0x1_0000 * Num(w)
  {
    assert w << 8 < 0x0100_0000_0000_0000 && (w << 8) << 8 == w << 16;
    hide *;
    Shl8(w);
    Shl8(w << 8);
  }

  lemma Shl32(w: bv64)
    requires w < 0x1_0000_0000
    ensures Num(w << 32) == 0x1_0000_0000 * Num(w)
  {
    assert w << 16 < 0x0001_0000_0000_0000 && (w << 16) << 16 == w << 32;
    hide *;
    Shl16(w);
    Shl16(w << 16);
  }

  lemma Shl5(w: bv64)
    requires w < 0x0800_0000_0000_0000
    ensures Num(w << 5) == 32 * Num(w)
  {
    assert w << 4 < 0x8000_0000_0000_0000 && (w << 4) << 1 == w << 5;
    hide *;
    Shl4(w);
    Doubled(w << 4);
  }

  /** Fifty-nine places: what five bits become at the top of a word. */
  lemma Shl59(w: bv64)
    requires w < 32
    ensures Num(w << 59) == TWO_59 * Num(w)
  {
    assert w << 32 < 0x0001_0000_0000_0000 && (w << 32) << 16 == w << 48;
    assert w << 48 < 0x0100_0000_0000_0000 && (w << 48) << 8 == w << 56;
    assert w << 56 < 0x4000_0000_0000_0000 && (w << 56) << 2 == w << 58;
    assert w << 58 < 0x8000_0000_0000_0000 && (w << 58) << 1 == w << 59;
    hide *;
    Shl32(w);
    Shl16(w << 32);
    Shl8(w << 48);
    Shl2(w << 56);
    Doubled(w << 58);
  }

  lemma NumBelow(w: bv64, half: bv64)
    requires half == Half(w)
    ensures Num(w) <= 2 * Num(half) + 1
  {
    NumStep(w);
  }

  lemma Small(w: bv64)
    ensures w < 2 ==> Num(w) < 2
    ensures w < 32 ==> Num(w) < 32
    ensures w < 256 ==> Num(w) < 256
  {
    Halves(w);
    hide *;
    NumBelow(w, w >> 1);
    NumBelow(w >> 1, w >> 2);
    NumBelow(w >> 2, w >> 3);
    NumBelow(w >> 3, w >> 4);
    NumBelow(w >> 4, w >> 5);
    NumBelow(w >> 5, w >> 6);
    NumBelow(w >> 6, w >> 7);
    NumBelow(w >> 7, w >> 8);
    ZeroNum();
  }

  lemma ZeroNum()
    ensures Num(0) == 0
  {
  }

  lemma Halves(w: bv64)
    ensures Half(w) == w >> 1 && Half(w >> 1) == w >> 2 && Half(w >> 2) == w >> 3 && Half(w >> 3) == w >> 4
    ensures Half(w >> 4) == w >> 5 && Half(w >> 5) == w >> 6 && Half(w >> 6) == w >> 7 && Half(w >> 7) == w >> 8
    ensures w < 2 ==> w >> 1 == 0
    ensures w < 32 ==> w >> 5 == 0
    ensures w < 256 ==> w >> 8 == 0
  {
  }

  function High(w: bv64): bv64 {
    w >> 5
  }

  function Low(w: bv64): bv64 {
    w & 0x1f
  }

  function Raised(w: bv64): bv64 {
    w << 5
  }

  lemma CutAt5(w: bv64)
    ensures Or(Raised(High(w)), Low(w)) == w && Apart(Raised(High(w)), Low(w))
    ensures High(w) < 0x0800_0000_0000_0000 && Low(w) < 32
  {
  }

  lemma RaisedIs(w: bv64)
    requires w < 0x0800_0000_0000_0000
    ensures Num(Raised(w)) == 32 * Num(w)
  {
    hide Num;
    Shl5(w);
  }

  lemma HighLow(w: bv64)
    ensures Num(High(w)) == Num(w) / 32 && Num(Low(w)) == Num(w) % 32
  {
    hide *;
    CutAt5(w);
    RaisedIs(High(w));
    Small(Low(w));
    Parts32(w, High(w), Raised(High(w)), Low(w));
  }

  /** A shift and a mask by five are the quotient and the remainder by 32. */
  lemma LowFive(w: bv64)
    ensures Num(w >> 5) == Num(w) / 32 && Num(w & 0x1f) == Num(w) % 32
  {
    hide Num;
    HighLow(w);
  }

  function Eighth(w: bv64): bv64 {
    w >> 8
  }

  function Last(w: bv64): bv64 {
    w & 0xff
  }

  function Lifted(w: bv64): bv64 {
    w << 8
  }

  lemma CutAt8(w: bv64)
    ensures Or(Lifted(Eighth(w)), Last(w)) == w && Apart(Lifted(Eighth(w)), Last(w))
    ensures Eighth(w) < 0x0100_0000_0000_0000 && Last(w) < 256
  {
  }

  lemma LiftedIs(w: bv64)
    requires w < 0x0100_0000_0000_0000
    ensures Num(Lifted(w)) == 256 * Num(w)
  {
    hide Num;
    Shl8(w);
  }

  /** A shift and a mask by eight are the quotient and the remainder by 256. */
  lemma LowByte(w: bv64)
    ensures Num(Eighth(w)) == Num(w) / 256 && Num(Last(w)) == Num(w) % 256
  {
    hide *;
    CutAt8(w);
    LiftedIs(Eighth(w));
    Small(Last(w));
    Parts256(w, Eighth(w), Lifted(Eighth(w)), Last(w));
  }

  lemma Parts32(w: bv64, quotient: bv64, top: bv64, rest: bv64)
    requires Or(top, rest) == w && Apart(top, rest) && Num(top) == 32 * Num(quotient) && Num(rest) < 32
    ensures Num(quotient) == Num(w) / 32 && Num(rest) == Num(w) % 32
  {
    hide *;
    OrIsSum(top, rest);
  }

  lemma Parts256(w: bv64, quotient: bv64, top: bv64, rest: bv64)
    requires Or(top, rest) == w && Apart(top, rest) && Num(top) == 256 * Num(quotient) && Num(rest) < 256
    ensures Num(quotient) == Num(w) / 256 && Num(rest) == Num(w) % 256
  {
    hide *;
    OrIsSum(top, rest);
  }

  /** Eight more bits at the bottom of a word that has room for them. */
  lemma AddByte(w: bv64, low: bv64)
    requires w < 0x0100_0000_0000_0000 && low < 256
    ensures Num((w << 8) | low) == 256 * Num(w) + Num(low)
  {
    assert Apart(w << 8, low) && Or(w << 8, low) == (w << 8) | low;
    hide *;
    OrIsSum(w << 8, low);
    Shl8(w);
  }

  /** The low word of a pair shifted right by five, the high word's low bits moved in. */
  lemma ShiftPair(hi: bv64, lo: bv64)
    ensures Num((lo >> 5) | (hi << 59)) == Num(lo) / 32 + Num(hi) % 32 * TWO_59
    ensures Num(hi >> 5) == Num(hi) / 32
  {
    assert Apart(lo >> 5, hi << 59) && Or(lo >> 5, hi << 59) == (lo >> 5) | (hi << 59);
    assert hi << 59 == (hi & 0x1f) << 59 && hi & 0x1f < 32;
    hide *;
    OrIsSum(lo >> 5, hi << 59);
    LowFive(lo);
    LowFive(hi);
    Shl59(hi & 0x1f);
  }

  /** What indexing by the low five bits indexes by. */
  lemma IndexOf(w: bv64)
    requires w < 32
    ensures w as int == Num(w)
  {
  }

  function Push(w: bv64, bit: bool): bv64 {
    (w << 1) | (if bit then 1 else 0)
  }

  /** The word that holds a number. */
  function WordOf(n: nat): (w: bv64) {
    if n == 0 then 0 else Push(WordOf(n / 2), n % 2 == 1)
  }

  lemma OneMoreBit(w: bv64, bit: bv64)
    requires w < 0x8000_0000_0000_0000 && bit < 2
    ensures Num((w << 1) | bit) == 2 * Num(w) + Num(bit)
  {
    assert Apart(w << 1, bit) && Or(w << 1, bit) == (w << 1) | bit;
    hide *;
    OrIsSum(w << 1, bit);
    Doubled(w);
  }

  lemma ZeroAndOne()
    ensures Num(0) == 0 && Num(1) == 1
  {
    assert Half(1) == 0 && Bit(1) == 1;
    NumStep(1);
  }

  lemma TopBit(w: bv64)
    requires w >= 0x8000_0000_0000_0000
    ensures var top: bv64 := 0x8000_0000_0000_0000;
            Apart(top, w & 0x7FFF_FFFF_FFFF_FFFF) && Or(top, w & 0x7FFF_FFFF_FFFF_FFFF) == w
  {
  }

  lemma TopIs()
    ensures Num(0x8000_0000_0000_0000) == 0x8000_0000_0000_0000
  {
    var one: bv64 := 1;
    assert (one << 59) << 4 == 0x8000_0000_0000_0000 && one << 59 < 0x1000_0000_0000_0000;
    hide *;
    Shl59(one);
    Shl4(one << 59);
    ZeroAndOne();
  }

  /** A word with its top bit set is a large number. */
  lemma RoomFor(w: bv64)
    ensures w >= 0x8000_0000_0000_0000 ==> Num(w) >= 0x8000_0000_0000_0000
  {
    if w >= 0x8000_0000_0000_0000 {
      TopBit(w);
      TopIs();
      hide *;
      TopHeavy(w, 0x8000_0000_0000_0000, w & 0x7FFF_FFFF_FFFF_FFFF);
    }
  }

  lemma TopHeavy(w: bv64, top: bv64, rest: bv64)
    requires Apart(top, rest) && Or(top, rest) == w
    ensures Num(w) >= Num(top)
  {
    hide *;
    OrIsSum(top, rest);
  }

  lemma PushHolds(w: bv64, bit: bool)
    requires Num(w) < 0x8000_0000_0000_0000
    ensures Num(Push(w, bit)) == 2 * Num(w) + if bit then 1 else 0
  {
    hide Num, Half, Bit, Or, Apart;
    RoomFor(w);
    ZeroAndOne();
    if bit { OneMoreBit(w, 1); } else { OneMoreBit(w, 0); }
  }

  lemma {:induction false} WordHolds(n: nat)
    requires n < TWO_64
    ensures Num(WordOf(n)) == n
    decreases n
  {
    hide Num, Push;
    ZeroAndOne();
    if n > 0 {
      WordHolds(n / 2);
      PushHolds(WordOf(n / 2), n % 2 == 1);
    }
  }

  /** Fifty-six places: what a byte becomes at the top of a word. */
  lemma Shl56(w: bv64)
    requires w < 256
    ensures Num(w << 56) == 0x0100_0000_0000_0000 * Num(w)
  {
    assert w << 32 < 0x0001_0000_0000_0000 && (w << 32) << 16 == w << 48;
    assert w << 48 < 0x0100_0000_0000_0000 && (w << 48) << 8 == w << 56;
    hide *;
    Shl32(w);
    Shl16(w << 32);
    Shl8(w << 48);
  }

  lemma CutAt56(w: bv64)
    ensures Or((w >> 56) << 56, w & 0x00FF_FFFF_FFFF_FFFF) == w
    ensures Apart((w >> 56) << 56, w & 0x00FF_FFFF_FFFF_FFFF)
    ensures w >> 56 < 256 && (w >> 56 == 0 ==> w < 0x0100_0000_0000_0000)
  {
  }

  /** A word whose number fits seven bytes has its top byte clear. */
  lemma TopByte(w: bv64)
    requires Num(w) < 0x0100_0000_0000_0000
    ensures w < 0x0100_0000_0000_0000
  {
    CutAt56(w);
    hide *;
    if w >> 56 != 0 {
      NumShrinks(w >> 56);
      Shl56(w >> 56);
      TopHeavy(w, (w >> 56) << 56, w & 0x00FF_FFFF_FFFF_FFFF);
    }
  }

  // ---------------------------------------------------------------------
  // Bytes
  // ---------------------------------------------------------------------

  predicate Before(x: bv64, y: bv64) {
    x < y
  }

  lemma IndexOrder(x: bv64, y: bv64)
    requires x < 32 && y < 32
    ensures Before(x, y) <==> Num(x) < Num(y)
    ensures x == y <==> Num(x) == Num(y)
  {
    hide Num;
    IndexOf(x);
    IndexOf(y);
  }

  lemma CutOrder(x: bv64, y: bv64)
    requires x < 256 && y < 256
    ensures High(x) < 32 && High(y) < 32 && Low(x) < 32 && Low(y) < 32
    ensures Before(x, y) <==> Before(High(x), High(y)) || (High(x) == High(y) && Before(Low(x), Low(y)))
    ensures x == y <==> High(x) == High(y) && Low(x) == Low(y)
  {
  }

  /** Bytes are ordered as their numbers are. */
  lemma ByteOrder(x: bv64, y: bv64)
    requires x < 256 && y < 256
    ensures Before(x, y) <==> Num(x) < Num(y)
    ensures x == y <==> Num(x) == Num(y)
  {
    hide *;
    CutOrder(x, y);
    HighLow(x);
    HighLow(y);
    IndexOrder(High(x), High(y));
    IndexOrder(Low(x), Low(y));
  }
}
