/** The bits of a 32-bit word, by number: bit 0 is the least significant one. */
module Bits {

  predicate Bit(w: bv32, k: nat)
    decreases k
  {
    if k == 0 then w & 1 == 1 else Bit(w >> 1, k - 1)
  }

  // Facts about sums are stated for all words at once, so that their terms stay in one shape.

  lemma {:induction false} XorBit(k: nat)
    ensures forall a: bv32, b: bv32 {:trigger Bit(a, k), Bit(b, k)} :: Bit(a ^ b, k) == (Bit(a, k) != Bit(b, k))
  {
    forall a: bv32, b: bv32
      ensures Bit(a ^ b, k) == (Bit(a, k) != Bit(b, k))
    {
      if k > 0 {
        XorBit(k - 1);
        assert Bit((a >> 1) ^ (b >> 1), k - 1) == (Bit(a >> 1, k - 1) != Bit(b >> 1, k - 1));
      }
    }
  }

  lemma {:induction false} NoBit(k: nat)
    ensures !Bit(0, k)
  {
    if k > 0 {
      NoBit(k - 1);
    }
  }

  lemma ShiftsAdd(w: bv32)
    ensures (w >> 1) >> 1 == w >> 2
    ensures (w >> 2) >> 2 == w >> 4
    ensures (w >> 4) >> 4 == w >> 8
    ensures (w >> 8) >> 8 == w >> 16
    ensures (w >> 16) >> 8 == w >> 24
    ensures (w >> 24) >> 8 == 0
  {
  }

  lemma FirstBit(w: bv32)
    ensures Bit(w, 0) == (w & 1 == 1)
  {
  }

  lemma BitAbove1(w: bv32, k: nat)
    ensures Bit(w, k + 1) == Bit(w >> 1, k)
  {
  }

  lemma BitAbove2(w: bv32, k: nat)
    ensures Bit(w, k + 2) == Bit(w >> 2, k)
  {
    hide Bit;
    BitAbove1(w, k + 1);
    BitAbove1(w >> 1, k);
    ShiftsAdd(w);
  }

  lemma BitAbove4(w: bv32, k: nat)
    ensures Bit(w, k + 4) == Bit(w >> 4, k)
  {
    hide Bit;
    BitAbove2(w, k + 2);
    BitAbove2(w >> 2, k);
    ShiftsAdd(w);
  }

  lemma BitAbove8(w: bv32, k: nat)
    ensures Bit(w, k + 8) == Bit(w >> 8, k)
  {
    hide Bit;
    BitAbove4(w, k + 4);
    BitAbove4(w >> 4, k);
    ShiftsAdd(w);
  }

  lemma BitAbove16(w: bv32, k: nat)
    ensures Bit(w, k + 16) == Bit(w >> 16, k)
  {
    hide Bit;
    BitAbove8(w, k + 8);
    BitAbove8(w >> 8, k);
    ShiftsAdd(w);
  }

  lemma BitAbove24(w: bv32, k: nat)
    ensures Bit(w, k + 24) == Bit(w >> 24, k)
  {
    hide Bit;
    BitAbove16(w, k + 8);
    BitAbove8(w >> 16, k);
    ShiftsAdd(w);
  }

  /** A word has no bits beyond its 32. */
  lemma BitAbove32(w: bv32, k: nat)
    ensures !Bit(w, k + 32)
  {
    hide Bit;
    BitAbove24(w, k + 8);
    BitAbove8(w >> 24, k);
    ShiftsAdd(w);
    NoBit(k);
  }

  lemma OneBit(k: nat)
    requires k < 32
    ensures Bit(0xFFFF_FFFF, k)
  {
    if k < 16 {
      match k
      case 0 => case 1 => case 2 => case 3 => case 4 => case 5 => case 6 => case 7 =>
      case 8 => case 9 => case 10 => case 11 => case 12 => case 13 => case 14 => case _ =>
    } else {
      BitAbove16(0xFFFF_FFFF, k - 16);
      match k - 16
      case 0 => case 1 => case 2 => case 3 => case 4 => case 5 => case 6 => case 7 =>
      case 8 => case 9 => case 10 => case 11 => case 12 => case 13 => case 14 => case _ =>
    }
  }

  lemma LowByteClear(w: bv32)
    requires forall k :: 0 <= k < 8 ==> !Bit(w, k)
    ensures w & 0xFF == 0
  {
    assert !Bit(w, 0) && !Bit(w, 1) && !Bit(w, 2) && !Bit(w, 3);
    assert !Bit(w, 4) && !Bit(w, 5) && !Bit(w, 6) && !Bit(w, 7);
  }

  lemma WordIsClear(w: bv32)
    requires forall k :: 0 <= k < 32 ==> !Bit(w, k)
    ensures w == 0
  {
    var x, y, z := w >> 8, w >> 16, w >> 24;
    forall k | 0 <= k < 8
      ensures !Bit(x, k) && !Bit(y, k) && !Bit(z, k)
    {
      BitAbove8(w, k);
      BitAbove16(w, k);
      BitAbove24(w, k);
    }
    LowByteClear(w);
    LowByteClear(x);
    LowByteClear(y);
    LowByteClear(z);
  }

  /** The bits determine the word. */
  lemma SameBits(a: bv32, b: bv32)
    requires forall k :: 0 <= k < 32 ==> Bit(a, k) == Bit(b, k)
    ensures a == b
  {
    hide Bit;
    var w := a ^ b;
    forall k | 0 <= k < 32
      ensures !Bit(w, k)
    {
      XorBit(k);
      assert Bit(a ^ b, k) == (Bit(a, k) != Bit(b, k));
    }
    WordIsClear(w);
  }

  lemma NotBit(a: bv32, k: nat)
    requires k < 32
    ensures Bit(!a, k) == !Bit(a, k)
  {
    hide Bit;
    OneBit(k);
    XorBit(k);
    assert Bit(a ^ 0xFFFF_FFFF, k) == (Bit(a, k) != Bit(0xFFFF_FFFF, k));
  }

  function And(a: bv32, b: bv32): bv32 {
    a & b
  }

  lemma AndParts(a: bv32, b: bv32)
    ensures And(a, b) & 1 == 1 <==> a & 1 == 1 && b & 1 == 1
    ensures And(a, b) >> 1 == And(a >> 1, b >> 1)
  {
  }

  lemma {:induction false} AndBit(a: bv32, b: bv32, k: nat)
    ensures Bit(And(a, b), k) == (Bit(a, k) && Bit(b, k))
    decreases k
  {
    hide Bit, And;
    AndParts(a, b);
    if k == 0 {
      FirstBit(And(a, b));
      FirstBit(a);
      FirstBit(b);
    } else {
      BitAbove1(And(a, b), k - 1);
      BitAbove1(a, k - 1);
      BitAbove1(b, k - 1);
      AndBit(a >> 1, b >> 1, k - 1);
    }
  }

  /** Two words have a bit in common. */
  ghost predicate ShareBit(a: bv32, b: bv32) {
    exists k :: 0 <= k < 32 && Bit(a, k) && Bit(b, k)
  }

  lemma CommonBit(a: bv32, b: bv32)
    ensures ShareBit(a, b) <==> And(a, b) != 0
  {
    hide Bit, And;
    forall k | 0 <= k < 32
      ensures Bit(And(a, b), k) == (Bit(a, k) && Bit(b, k))
    {
      AndBit(a, b, k);
    }
    if And(a, b) == 0 {
      forall k | 0 <= k < 32
        ensures !Bit(And(a, b), k)
      {
        NoBit(k);
      }
    } else if !ShareBit(a, b) {
      NotShared(a, b);
      WordIsClear(And(a, b));
    }
  }

  lemma NotShared(a: bv32, b: bv32)
    requires !ShareBit(a, b)
    ensures forall k :: 0 <= k < 32 ==> !Bit(And(a, b), k)
  {
    hide Bit, And;
    forall k | 0 <= k < 32
      ensures !Bit(And(a, b), k)
    {
      AndBit(a, b, k);
    }
  }

  // ----- Rotation -----

  function Rotate1(w: bv32): bv32 {
    (w >> 1) | (w << 31)
  }

  function Rotate(w: bv32, r: nat): bv32 {
    if r == 0 then w else Rotate1(Rotate(w, r - 1))
  }

  lemma HighestBit(k: nat)
    requires k < 32
    ensures Bit(0x8000_0000, k) <==> k == 31
  {
    if k < 16 {
      match k
      case 0 => case 1 => case 2 => case 3 => case 4 => case 5 => case 6 => case 7 =>
      case 8 => case 9 => case 10 => case 11 => case 12 => case 13 => case 14 => case _ =>
    } else {
      BitAbove16(0x8000_0000, k - 16);
      match k - 16
      case 0 => case 1 => case 2 => case 3 => case 4 => case 5 => case 6 => case 7 =>
      case 8 => case 9 => case 10 => case 11 => case 12 => case 13 => case 14 => case _ =>
    }
  }

  lemma Rotate1Cases(w: bv32)
    ensures Rotate1(w) == (w >> 1) ^ if w & 1 == 1 then 0x8000_0000 else 0
  {
    if w & 1 == 1 {
      assert w << 31 == 0x8000_0000;
    } else {
      assert w << 31 == 0;
    }
  }

  lemma Rotate1Bit(w: bv32, k: nat)
    requires k < 32
    ensures Bit(Rotate1(w), k) == Bit(w, if k == 31 then 0 else k + 1)
  {
    hide Bit, Rotate1;
    Rotate1Cases(w);
    FirstBit(w);
    BitAbove1(w, k);
    BitAbove32(w, 0);
    if w & 1 == 1 {
      TopAdded(w >> 1, k);
    } else {
      SameWord(w >> 1);
    }
  }

  lemma SameWord(w: bv32)
    ensures w ^ 0 == w
  {
  }

  lemma TopAdded(w: bv32, k: nat)
    requires k < 32
    ensures Bit(w ^ 0x8000_0000, k) == (Bit(w, k) != (k == 31))
  {
    hide Bit;
    XorBit(k);
    assert Bit(w ^ 0x8000_0000, k) == (Bit(w, k) != Bit(0x8000_0000, k));
    HighestBit(k);
  }

  /** Bit k of a word rotated to the right by r places. */
  lemma {:induction false} RotateBit(w: bv32, r: nat, k: nat)
    requires r < 32 && k < 32
    ensures Bit(Rotate(w, r), k) == Bit(w, (k + r) % 32)
    decreases r
  {
    hide Bit, Rotate1;
    if r > 0 {
      Rotate1Bit(Rotate(w, r - 1), k);
      RotateBit(w, r - 1, if k == 31 then 0 else k + 1);
    }
  }
}
