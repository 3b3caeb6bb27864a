/** Words in binary: their bits, least significant first, and which bits they occupy. */
module Binary {
  import opened Gf2
  import opened Words

  function LowBit(w: Word): bool {
    w & 1 == 1
  }

  function Half(w: Word): Word {
    w >> 1
  }

  function Half8(w: Word): Word {
    w >> 8
  }

  function Double(w: Word): Word {
    w << 1
  }

  function BitWord(b: bool): Word {
    if b then 1 else 0
  }

  /** The low `n` bits of a word, least significant first. */
  function WordBits(w: Word, n: nat): (bits: seq<bool>)
    ensures |bits| == n
    decreases n
  {
    if n == 0 then [] else [LowBit(w)] + WordBits(Half(w), n - 1)
  }

  /** The word occupies its low `n` bits only. */
  predicate Fits(w: Word, n: nat)
    decreases n
  {
    if n == 0 then w == 0 else Fits(Half(w), n - 1)
  }

  lemma HalfEightTimes(w: Word)
    ensures Half(Half(Half(Half(Half(Half(Half(Half(w)))))))) == Half8(w)
  {
  }

  lemma FitsOneByteMore(w: Word, n: nat)
    requires Fits(Half8(w), n)
    ensures Fits(w, n + 8)
  {
    hide Half, Half8;
    HalfEightTimes(w);
    assert Fits(Half(Half(Half(Half(w)))), n + 4) by {
      assert Fits(Half(Half(Half(Half(Half(Half(w)))))), n + 2);
    }
    assert Fits(Half(Half(w)), n + 6);
  }

  lemma FourBytesAreAll(w: Word)
    ensures Fits(Half8(Half8(Half8(Half8(w)))), 0)
  {
  }

  lemma WordFits(w: Word)
    ensures Fits(w, 32)
  {
    hide Fits, Half8;
    FourBytesAreAll(w);
    FitsOneByteMore(Half8(Half8(Half8(w))), 0);
    FitsOneByteMore(Half8(Half8(w)), 8);
    FitsOneByteMore(Half8(w), 16);
    FitsOneByteMore(w, 24);
  }

  lemma WordIsBitAndDouble(w: Word)
    ensures w == Xor32(BitWord(LowBit(w)), Double(Half(w)))
  {
    assert (w & 1) ^ ((w >> 1) << 1) == w;
    LowBitIsZeroOrOne(w);
  }

  lemma LowBitIsZeroOrOne(w: Word)
    ensures w & 1 == BitWord(LowBit(w))
  {
    assert w & 1 == 0 || w & 1 == 1;
  }

  lemma TwoBits(w: Word, n: nat)
    ensures WordBits(w, n + 2) == [LowBit(w), LowBit(Half(w))] + WordBits(Half(Half(w)), n)
  {
    hide LowBit, Half;
    assert WordBits(w, n + 2) == [LowBit(w)] + WordBits(Half(w), n + 1);
  }

  lemma FourBits(w: Word, n: nat)
    ensures WordBits(w, n + 4) ==
            [LowBit(w), LowBit(Half(w)), LowBit(Half(Half(w))), LowBit(Half(Half(Half(w))))] +
            WordBits(Half(Half(Half(Half(w)))), n)
  {
    hide LowBit, Half, WordBits;
    TwoBits(w, n + 2);
    TwoBits(Half(Half(w)), n);
  }

  lemma NibbleBits(w: Word, rest: Word, bits: Poly, n: nat)
    requires bits == [LowBit(w), LowBit(Half(w)), LowBit(Half(Half(w))), LowBit(Half(Half(Half(w))))]
    requires rest == Half(Half(Half(Half(w))))
    ensures WordBits(w, n + 4) == bits + WordBits(rest, n)
  {
    hide WordBits, LowBit, Half;
    FourBits(w, n);
  }

  lemma XorOfBits(a: bool, b: bool)
    ensures BitWord(a != b) == Xor32(BitWord(a), BitWord(b))
  {
  }

  lemma LowBitOfXor(a: Word, b: Word)
    ensures LowBit(Xor32(a, b)) == (LowBit(a) != LowBit(b))
  {
    assert (a ^ b) & 1 == (a & 1) ^ (b & 1);
    assert a & 1 == 0 || a & 1 == 1;
    assert b & 1 == 0 || b & 1 == 1;
  }

  lemma HalfOfXor(a: Word, b: Word)
    ensures Half(Xor32(a, b)) == Xor32(Half(a), Half(b))
  {
  }

  lemma {:induction false} WordBitsOfXor(a: Word, b: Word, n: nat)
    ensures WordBits(Xor32(a, b), n) == Xor(WordBits(a, n), WordBits(b, n))
    decreases n
  {
    hide Xor32, LowBit, Half;
    if n > 0 {
      LowBitOfXor(a, b);
      HalfOfXor(a, b);
      WordBitsOfXor(Half(a), Half(b), n - 1);
    }
  }

  lemma {:induction false} WordBitsAreInjective(a: Word, b: Word, n: nat)
    requires Fits(a, n) && Fits(b, n)
    requires WordBits(a, n) == WordBits(b, n)
    ensures a == b
    decreases n
  {
    hide Xor32, LowBit, Half, BitWord, Double;
    if n > 0 {
      assert WordBits(a, n)[0] == WordBits(b, n)[0];
      assert WordBits(a, n)[1..] == WordBits(Half(a), n - 1);
      assert WordBits(b, n)[1..] == WordBits(Half(b), n - 1);
      WordBitsAreInjective(Half(a), Half(b), n - 1);
      WordIsBitAndDouble(a);
      WordIsBitAndDouble(b);
    }
  }

  lemma {:induction false} FittingWordBits(w: Word, n: nat)
    requires Fits(w, n)
    ensures WordBits(w, n + 1) == WordBits(w, n) + [false]
    decreases n
  {
    hide Half;
    if n == 0 {
      assert !LowBit(0);
    } else {
      FittingWordBits(Half(w), n - 1);
    }
  }

  lemma LowBitOfBit(b: bool)
    ensures LowBit(BitWord(b)) == b
    ensures Half(BitWord(b)) == 0
  {
  }

  lemma {:induction false} ZeroWordBits(n: nat)
    ensures WordBits(0, n) == Zeros(n)
    ensures Fits(0, n)
  {
    if n > 0 {
      ZeroWordBits(n - 1);
    }
  }
}
