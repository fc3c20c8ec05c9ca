/** What the functions, rotations and constants of the secure hash are, bit by bit (sections 4.1.1, 4.2.1, 5.3.1 and
    6.1.2 of FIPS 180-2). */
module Sha1Laws {
  import opened Sha1Spec

  // ----- Bits -----

  /** The word whose only bit is the i-th, counted from the least significant one. */
  function Mask(i: nat): Word {
    match i
    case 0 => 0x1
    case 1 => 0x2
    case 2 => 0x4
    case 3 => 0x8
    case 4 => 0x10
    case 5 => 0x20
    case 6 => 0x40
    case 7 => 0x80
    case 8 => 0x100
    case 9 => 0x200
    case 10 => 0x400
    case 11 => 0x800
    case 12 => 0x1000
    case 13 => 0x2000
    case 14 => 0x4000
    case 15 => 0x8000
    case 16 => 0x10000
    case 17 => 0x20000
    case 18 => 0x40000
    case 19 => 0x80000
    case 20 => 0x100000
    case 21 => 0x200000
    case 22 => 0x400000
    case 23 => 0x800000
    case 24 => 0x1000000
    case 25 => 0x2000000
    case 26 => 0x4000000
    case 27 => 0x8000000
    case 28 => 0x10000000
    case 29 => 0x20000000
    case 30 => 0x40000000
    case _ => 0x80000000
  }

  predicate Has(w: Word, m: Word) {
    w & m != 0
  }

  predicate IsSingle(m: Word) {
    m != 0 && m & (m - 1) == 0
  }

  lemma MaskIsSingle(i: nat)
    ensures IsSingle(Mask(i))
  {
  }

  lemma AllOrNothing(w: Word, m: Word)
    requires IsSingle(m)
    ensures w & m == m || w & m == 0
  {
  }

  // ----- The functions -----

  predicate AtLeastTwo(x: bool, y: bool, z: bool) {
    (x && y) || (x && z) || (y && z)
  }

  lemma ChWhere(x: Word, y: Word, z: Word, m: Word)
    ensures x & m == m ==> Ch(x, y, z) & m == y & m
    ensures x & m == 0 ==> Ch(x, y, z) & m == z & m
  {
  }

  lemma MajBoth(x: Word, y: Word, z: Word, m: Word)
    requires x & m == m && y & m == m
    ensures Maj(x, y, z) & m == m
  {
  }

  lemma MajNeither(x: Word, y: Word, z: Word, m: Word)
    requires x & m == 0 && y & m == 0
    ensures Maj(x, y, z) & m == 0
  {
  }

  lemma MajOne(x: Word, y: Word, z: Word, m: Word)
    requires x & m == m && y & m == 0
    ensures Maj(x, y, z) & m == z & m && Maj(y, x, z) & m == z & m
  {
  }

  lemma ParityIn(x: Word, y: Word, z: Word, m: Word)
    ensures Parity(x, y, z) & m == ((x & m) ^ (y & m)) ^ (z & m)
  {
  }

  lemma XorSelf(m: Word)
    ensures m ^ m == 0 && m ^ 0 == m && 0 ^ m == m
  {
  }

  lemma ChBit(x: Word, y: Word, z: Word, m: Word)
    requires IsSingle(m)
    ensures Ch(x, y, z) & m == if x & m != 0 then y & m else z & m
  {
    AllOrNothing(x, m);
    ChWhere(x, y, z, m);
  }

  lemma MajBit(x: Word, y: Word, z: Word, m: Word)
    requires IsSingle(m)
    ensures (Maj(x, y, z) & m != 0) == AtLeastTwo(x & m != 0, y & m != 0, z & m != 0)
  {
    AllOrNothing(x, m);
    AllOrNothing(y, m);
    if x & m == y & m {
      if x & m == 0 {
        MajNeither(x, y, z, m);
      } else {
        MajBoth(x, y, z, m);
      }
    } else if x & m == m {
      MajOne(x, y, z, m);
    } else {
      MajOne(y, x, z, m);
    }
  }

  lemma ParityBit(x: Word, y: Word, z: Word, m: Word)
    requires IsSingle(m)
    ensures (Parity(x, y, z) & m != 0) == (((x & m != 0) != (y & m != 0)) != (z & m != 0))
  {
    AllOrNothing(x, m);
    AllOrNothing(y, m);
    AllOrNothing(z, m);
    ParityIn(x, y, z, m);
    XorSelf(m);
  }

  /** At every single bit, the first twenty rounds choose between y and z by x, the third twenty take what at least
      two of the three have, and the others take their parity. */
  predicate ChoosesAt(t: nat, x: Word, y: Word, z: Word, m: Word) {
    if t < 20 then Has(F(t, x, y, z), m) == if Has(x, m) then Has(y, m) else Has(z, m)
    else if 40 <= t < 60 then Has(F(t, x, y, z), m) == AtLeastTwo(Has(x, m), Has(y, m), Has(z, m))
    else Has(F(t, x, y, z), m) == ((Has(x, m) != Has(y, m)) != Has(z, m))
  }

  lemma ChAtBit(t: nat, x: Word, y: Word, z: Word, m: Word)
    requires t < 20 && IsSingle(m)
    ensures ChoosesAt(t, x, y, z, m)
  {
    ChBit(x, y, z, m);
  }

  lemma MajAtBit(t: nat, x: Word, y: Word, z: Word, m: Word)
    requires 40 <= t < 60 && IsSingle(m)
    ensures ChoosesAt(t, x, y, z, m)
  {
    MajBit(x, y, z, m);
  }

  lemma ParityAtBit(t: nat, x: Word, y: Word, z: Word, m: Word)
    requires (20 <= t < 40 || 60 <= t) && IsSingle(m)
    ensures ChoosesAt(t, x, y, z, m)
  {
    ParityBit(x, y, z, m);
  }

  lemma FBits(t: nat, x: Word, y: Word, z: Word, i: nat)
    requires t < 80 && i < 32
    ensures ChoosesAt(t, x, y, z, Mask(i))
  {
    MaskIsSingle(i);
    if t < 20 {
      ChAtBit(t, x, y, z, Mask(i));
    } else if 40 <= t < 60 {
      MajAtBit(t, x, y, z, Mask(i));
    } else {
      ParityAtBit(t, x, y, z, Mask(i));
    }
  }

  // ----- Rotations -----

  lemma TurnAnd(w: Word, m: Word)
    ensures Has(w.RotateLeft(1), m.RotateLeft(1)) == Has(w, m)
  {
  }

  lemma TurnAndFive(w: Word, m: Word)
    ensures Has(w.RotateLeft(5), m.RotateLeft(5)) == Has(w, m)
  {
  }

  lemma TurnAndThirty(w: Word, m: Word)
    ensures Has(w.RotateLeft(30), m.RotateLeft(30)) == Has(w, m)
  {
  }

  /** The masks of the bits, turned: each moves up, and those that leave at the top come back at the bottom. */
  lemma MaskTurns(i: nat)
    requires i < 32
    ensures Mask(i).RotateLeft(1) == Mask(if i < 31 then i + 1 else 0)
  {
  }

  lemma MaskTurnsFive(i: nat)
    requires i < 32
    ensures Mask(i).RotateLeft(5) == Mask(if i < 27 then i + 5 else i - 27)
  {
  }

  lemma MaskTurnsThirty(i: nat)
    requires i < 32
    ensures Mask(i).RotateLeft(30) == Mask(if i < 2 then i + 30 else i - 2)
  {
  }

  /** The bits of a word after each rotation of the hash are those before it. */
  lemma TurnedByOne(w: Word, i: nat)
    requires i < 32
    ensures Has(w.RotateLeft(1), Mask(if i < 31 then i + 1 else 0)) == Has(w, Mask(i))
  {
    MaskTurns(i);
    TurnAnd(w, Mask(i));
  }

  lemma TurnedByFive(w: Word, i: nat)
    requires i < 32
    ensures Has(w.RotateLeft(5), Mask(if i < 27 then i + 5 else i - 27)) == Has(w, Mask(i))
  {
    MaskTurnsFive(i);
    TurnAndFive(w, Mask(i));
  }

  lemma TurnedByThirty(w: Word, i: nat)
    requires i < 32
    ensures Has(w.RotateLeft(30), Mask(if i < 2 then i + 30 else i - 2)) == Has(w, Mask(i))
  {
    MaskTurnsThirty(i);
    TurnAndThirty(w, Mask(i));
  }

  // ----- Constants -----

  /** The number whose root the constant of a quarter is. */
  function RootOf(t: nat): nat {
    if t < 20 then 2 else if t < 40 then 3 else if t < 60 then 5 else 10
  }

  /** The constants are the square roots of 2, 3, 5 and 10, with thirty bits of fraction, rounded down. */
  lemma ConstantsAreRoots(t: nat)
    requires t < 80
    ensures var k := K(t) as int; k * k <= RootOf(t) * 0x1000_0000_0000_0000 < (k + 1) * (k + 1)
  {
    ConstantIs(t);
  }

  lemma ConstantIs(t: nat)
    ensures K(t) as int == if t < 20 then 0x5a827999 else if t < 40 then 0x6ed9eba1 else if t < 60 then 0x8f1bbcdc else 0xca62c1d6
  {
  }

  /** The byte of two digits. */
  function Nibbles(i: nat, j: nat): Byte
    requires i < 16 && j < 16
  {
    (16 * i + j) as Byte
  }

  /** Byte `k` of the initial value: its words in order, the bytes of each from the least significant one. */
  function InitialByte(k: nat): Byte
    requires k < 20
  {
    var w := if k < 4 then INITIAL.a else if k < 8 then INITIAL.b else if k < 12 then INITIAL.c else if k < 16 then INITIAL.d
             else INITIAL.e;
    ByteAt(w, 3 - k % 4)
  }

  /** The digits of the initial value count up from 0 to f, down again, and then down and up together. */
  lemma InitialCounts(k: nat)
    requires k < 20
    ensures InitialByte(k) == if k < 8 then Nibbles(2 * k, 2 * k + 1) else if k < 16 then Nibbles(31 - 2 * k, 30 - 2 * k)
                              else Nibbles(31 - k, k - 16)
  {
    if k < 4 {
      CountsUp(k);
    } else if k < 8 {
      CountsFurtherUp(k);
    } else if k < 12 {
      CountsDown(k);
    } else if k < 16 {
      CountsFurtherDown(k);
    } else {
      CountsBoth(k);
    }
  }

  lemma CountsUp(k: nat)
    requires k < 4
    ensures InitialByte(k) == Nibbles(2 * k, 2 * k + 1)
  {
  }

  lemma CountsFurtherUp(k: nat)
    requires 4 <= k < 8
    ensures InitialByte(k) == Nibbles(2 * k, 2 * k + 1)
  {
  }

  lemma CountsDown(k: nat)
    requires 8 <= k < 12
    ensures InitialByte(k) == Nibbles(31 - 2 * k, 30 - 2 * k)
  {
  }

  lemma CountsFurtherDown(k: nat)
    requires 12 <= k < 16
    ensures InitialByte(k) == Nibbles(31 - 2 * k, 30 - 2 * k)
  {
  }

  lemma CountsBoth(k: nat)
    requires 16 <= k < 20
    ensures InitialByte(k) == Nibbles(31 - k, k - 16)
  {
  }
}
