/** 32-bit machine words and their exclusive or. */
module Words {

  type Word = bv32

  function Xor32(a: Word, b: Word): Word {
    a ^ b
  }

  lemma XorIsAssociative(a: Word, b: Word, c: Word)
    ensures Xor32(a, Xor32(b, c)) == Xor32(Xor32(a, b), c)
  {
  }

  lemma XorCommutes(a: Word, b: Word)
    ensures Xor32(a, b) == Xor32(b, a)
  {
  }

  lemma XorZero(a: Word)
    ensures Xor32(a, 0) == a
  {
  }

  lemma XorCancels(a: Word, b: Word)
    ensures Xor32(a, b) == 0 <==> a == b
  {
    hide Xor32;
    XorSelf(b);
    XorZero(a);
    XorIsAssociative(a, b, b);
    XorCommutes(0, b);
    XorZero(b);
  }

  lemma XorSelf(a: Word)
    ensures Xor32(a, a) == 0
  {
  }

  lemma XorIsInjective(c: Word, a: Word, b: Word)
    requires Xor32(c, a) == Xor32(c, b) || Xor32(a, c) == Xor32(b, c)
    ensures a == b
  {
    hide Xor32;
    XorCommutes(a, c);
    XorCommutes(b, c);
    XorPairs(c, a, c, b);
    XorSelf(c);
    XorCancels(Xor32(c, a), Xor32(c, b));
    XorCommutes(0, Xor32(a, b));
    XorZero(Xor32(a, b));
    XorCancels(a, b);
  }

  lemma XorSwaps(a: Word, b: Word, c: Word)
    ensures Xor32(Xor32(a, b), c) == Xor32(Xor32(a, c), b)
  {
    hide Xor32;
    XorIsAssociative(a, b, c);
    XorIsAssociative(a, c, b);
    XorCommutes(b, c);
  }

  lemma XorPairs(c: Word, d: Word, x: Word, y: Word)
    ensures Xor32(Xor32(c, d), Xor32(x, y)) == Xor32(Xor32(c, x), Xor32(d, y))
  {
    hide Xor32;
    XorIsAssociative(Xor32(c, d), x, y);
    XorSwaps(c, d, x);
    XorIsAssociative(Xor32(c, x), d, y);
  }
}
