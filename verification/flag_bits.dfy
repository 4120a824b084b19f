/**
 * A 32-bit flag word read as the set of bit positions it has switched on.
 * This is the reference meaning against which the flag macros of the metadata
 * header are proved: `|=` is union, `&= ~` is difference, and `&` is
 * intersection of these sets.
 */
module FlagBits {

  type Word = bv32

  /** A bit position inside a 32-bit word: exactly the values 0 through 31. */
  type Position = bv5

  /** Bit `i` of `w` is one. */
  predicate Bit(w: Word, i: Position)
  {
    (w >> i) & 1 == 1
  }

  /** The positions of the one bits of `w`. */
  ghost function Bits(w: Word): iset<Position>
  {
    iset i: Position | Bit(w, i)
  }

  /**
   * A word with no one bit is zero. The hypothesis is instantiated at each
   * of the 32 positions, after which the bit-vector procedure closes it.
   */
  lemma ZeroWithoutBits(w: Word)
    requires forall i: Position :: !Bit(w, i)
    ensures w == 0
  {
    assert !Bit(w, 0) && !Bit(w, 1) && !Bit(w, 2) && !Bit(w, 3);
    assert !Bit(w, 4) && !Bit(w, 5) && !Bit(w, 6) && !Bit(w, 7);
    assert !Bit(w, 8) && !Bit(w, 9) && !Bit(w, 10) && !Bit(w, 11);
    assert !Bit(w, 12) && !Bit(w, 13) && !Bit(w, 14) && !Bit(w, 15);
    assert !Bit(w, 16) && !Bit(w, 17) && !Bit(w, 18) && !Bit(w, 19);
    assert !Bit(w, 20) && !Bit(w, 21) && !Bit(w, 22) && !Bit(w, 23);
    assert !Bit(w, 24) && !Bit(w, 25) && !Bit(w, 26) && !Bit(w, 27);
    assert !Bit(w, 28) && !Bit(w, 29) && !Bit(w, 30) && !Bit(w, 31);
  }

  /** Every non-zero word has a one bit. */
  lemma NonzeroHasBit(w: Word) returns (i: Position)
    requires w != 0
    ensures Bit(w, i)
  {
    if forall k: Position :: !Bit(w, k) {
      ZeroWithoutBits(w);
    }
    i :| Bit(w, i);
  }

  /** Only the zero word has no one bit. */
  lemma BitsEmptyIffZero(w: Word)
    ensures Bits(w) == iset{} <==> w == 0
  {
    if w != 0 {
      var i := NonzeroHasBit(w);
      assert i in Bits(w);
    }
  }

  /** A word is determined by its set of one bits. */
  lemma BitsInjective(a: Word, b: Word)
    ensures Bits(a) == Bits(b) <==> a == b
  {
    if a != b {
      var i := NonzeroHasBit(a ^ b);
      BitXor(a, b, i);
      assert i in Bits(a) <==> i !in Bits(b);
    }
  }

  lemma BitXor(a: Word, b: Word, i: Position)
    ensures Bit(a ^ b, i) <==> Bit(a, i) != Bit(b, i)
  {
  }

  lemma BitOr(a: Word, b: Word, i: Position)
    ensures Bit(a | b, i) <==> Bit(a, i) || Bit(b, i)
  {
  }

  lemma BitAnd(a: Word, b: Word, i: Position)
    ensures Bit(a & b, i) <==> Bit(a, i) && Bit(b, i)
  {
  }

  lemma BitAndNot(a: Word, b: Word, i: Position)
    ensures Bit(a & !b, i) <==> Bit(a, i) && !Bit(b, i)
  {
  }

  /** Or-ing two words unites their bit sets. */
  lemma BitsOr(a: Word, b: Word)
    ensures Bits(a | b) == Bits(a) + Bits(b)
  {
    forall i: Position
      ensures i in Bits(a | b) <==> i in Bits(a) + Bits(b)
    {
      BitOr(a, b, i);
    }
  }

  /** And-ing two words intersects their bit sets. */
  lemma BitsAnd(a: Word, b: Word)
    ensures Bits(a & b) == Bits(a) * Bits(b)
  {
    forall i: Position
      ensures i in Bits(a & b) <==> i in Bits(a) * Bits(b)
    {
      BitAnd(a, b, i);
    }
  }

  /** And-ing with a complement removes the complemented word's bits. */
  lemma BitsAndNot(a: Word, b: Word)
    ensures Bits(a & !b) == Bits(a) - Bits(b)
  {
    forall i: Position
      ensures i in Bits(a & !b) <==> i in Bits(a) - Bits(b)
    {
      BitAndNot(a, b, i);
    }
  }

  /*
   * Word-level laws of or and and-not, stated on bare words so that they
   * are proved by the bit-vector decision procedure alone.
   */

  lemma OrCoversFlag(a: Word, f: Word)
    ensures (a | f) & f == f
  {
  }

  lemma AndNotClearsFlag(a: Word, f: Word)
    ensures (a & !f) & f == 0
  {
  }

  lemma OrTwice(a: Word, f: Word)
    ensures (a | f) | f == a | f
  {
  }

  lemma AndNotTwice(a: Word, f: Word)
    ensures (a & !f) & !f == a & !f
  {
  }

  lemma OrAfterAndNot(a: Word, f: Word)
    ensures (a & !f) | f == a | f
  {
  }

  lemma AndNotAfterOr(a: Word, f: Word)
    ensures (a | f) & !f == a & !f
  {
  }

  lemma DisjointLaws(a: Word, f: Word, o: Word)
    requires f & o == 0
    ensures (a | f) & o == a & o
    ensures (a & !f) & o == a & o
  {
  }

  /** Two words share a one bit exactly when their conjunction is non-zero. */
  lemma SharedBitIffAndNonzero(a: Word, b: Word)
    ensures a & b != 0 <==> Bits(a) * Bits(b) != iset{}
  {
    BitsAnd(a, b);
    BitsEmptyIffZero(a & b);
  }

  /** The word `1 << k` has exactly bit `k` switched on. */
  lemma BitsOfSingle(k: Position)
    ensures Bits(1 << k) == iset{k}
  {
    var single: Word := 1 << k;
    forall i: Position
      ensures Bit(single, i) <==> i == k
    {
    }
  }
}
