/** What the Mersenne Twister's words are, bit by bit and in plain word arithmetic. */
module MersenneTwisterLaws {
  import opened Gf2
  import opened Words
  import opened Binary
  import opened Integers
  import opened MersenneTwister

  // ----- The recurrence, bit by bit -----

  /** The exponents of the twist matrix. */
  const EXPONENTS: set<int> := {31, 28, 27, 24, 19, 15, 13, 12, 7, 6, 4, 3, 2, 1, 0}

  const MATRIX_BITS: Poly :=
    [true, true, true, true] + (
      [true, false, true, true] + (
      [false, false, false, false] + (
      [true, true, false, true] + (
      [false, false, false, true] + (
      [false, false, false, false] + (
      [true, false, false, true] + [true, false, false, true]))))))

  lemma MatrixBits()
    ensures WordBits(0x9908b0df, 32) == MATRIX_BITS
  {
    hide WordBits;
    NibbleBits(0x9908b0df, 0x9908b0d, [true, true, true, true], 28);
    NibbleBits(0x9908b0d, 0x9908b0, [true, false, true, true], 24);
    NibbleBits(0x9908b0, 0x9908b, [false, false, false, false], 20);
    NibbleBits(0x9908b, 0x9908, [true, true, false, true], 16);
    NibbleBits(0x9908, 0x990, [false, false, false, true], 12);
    NibbleBits(0x990, 0x99, [false, false, false, false], 8);
    NibbleBits(0x99, 0x9, [true, false, false, true], 4);
    NibbleBits(0x9, 0x0, [true, false, false, true], 0);
    assert WordBits(0, 0) == [] && [true, false, false, true] + [] == [true, false, false, true];
  }

  lemma MatrixIsExponents(k: nat)
    requires k < 32
    ensures WordBits(0x9908b0df, 32)[k] <==> k in EXPONENTS
  {
    MatrixBits();
    hide WordBits;
  }

  lemma TwistIs(y: Word)
    ensures Twist(y) == if LowBit(y) then Xor32(0x9908b0df, Half(y)) else Half(y)
  {
    hide *;
    if LowBit(y) {
      TwistOfOdd(y);
      XorCancels(Twist(y), Xor32(0x9908b0df, Half(y)));
    } else {
      TwistOfEven(y);
      XorCancels(Twist(y), Half(y));
    }
  }

  lemma TwistOfOdd(y: Word)
    requires LowBit(y)
    ensures Xor32(Twist(y), Xor32(0x9908b0df, Half(y))) == 0
  {
  }

  lemma TwistOfEven(y: Word)
    requires !LowBit(y)
    ensures Xor32(Twist(y), Half(y)) == 0
  {
  }

  lemma TwistBits(y: Word, k: nat)
    requires k < 32
    ensures WordBits(Twist(y), 32)[k] <==>
            ((k < 31 && WordBits(y, 32)[k + 1]) != (WordBits(y, 32)[0] && k in EXPONENTS))
  {
    hide *;
    TwistIs(y);
    HalfBits(y, k);
    WordBitsOfXor(0x9908b0df, Half(y), 32);
    XorAt(WordBits(0x9908b0df, 32), WordBits(Half(y), 32), k);
    MatrixIsExponents(k);
  }

  lemma XorAt(a: Poly, b: Poly, k: nat)
    requires |a| == |b| && k < |a|
    ensures Xor(a, b)[k] == (a[k] != b[k])
  {
  }

  lemma HalfBits(y: Word, k: nat)
    requires k < 32
    ensures WordBits(Half(y), 32)[k] <==> k < 31 && WordBits(y, 32)[k + 1]
    ensures WordBits(y, 32)[0] == LowBit(y)
  {
    hide LowBit, Half;
    HalfFitsBelow(y);
    FittingWordBits(Half(y), 31);
    hide WordBits;
    RestOfBits(y);
  }

  lemma HalfFitsBelow(y: Word)
    ensures Fits(Half(y), 31)
  {
    hide Half;
    WordFits(y);
  }

  lemma RestOfBits(y: Word)
    ensures WordBits(y, 32) == [LowBit(y)] + WordBits(Half(y), 31)
  {
    hide LowBit, Half;
  }

  /** Only the highest bit of the joined word comes from the first word. */
  lemma JoinIs(u: Word, l: Word)
    ensures Xor32(Join(u, l), Xor32(l, Upper(Xor32(u, l)))) == 0
  {
  }

  lemma LowerFits(x: Word)
    ensures Fits(Lower(x), 31)
  {
    hide Fits, Half8, Lower;
    SevenBits(x);
    FitsOneByteMore(Half8(Half8(Lower(x))), 7);
    FitsOneByteMore(Half8(Lower(x)), 15);
    FitsOneByteMore(Lower(x), 23);
  }

  lemma SevenBits(x: Word)
    ensures Fits(Half8(Half8(Half8(Lower(x)))), 7)
  {
    assert Half(Half(Half(Half(Half(Half(Half(Half8(Half8(Half8(Lower(x))))))))))) == 0;
    hide Half, Half8, Lower;
    SevenHalves(Half8(Half8(Half8(Lower(x)))));
  }

  lemma SevenHalves(w: Word)
    requires Half(Half(Half(Half(Half(Half(Half(w))))))) == 0
    ensures Fits(w, 7)
  {
    hide Half;
    assert Fits(Half(Half(Half(Half(w)))), 3);
  }

  const TOP_BIT: Word := 0x80000000

  lemma UpperIsOneOrNothing(x: Word)
    ensures Upper(x) == 0 || Upper(x) == TOP_BIT
    ensures Xor32(x, Xor32(Lower(x), Upper(x))) == 0
  {
  }

  lemma TopBitBits()
    ensures WordBits(0x80000000, 32) == Gf2.Zeros(31) + [true]
  {
    hide WordBits;
    NibbleBits(0x80000000, 0x8000000, [false, false, false, false], 28);
    NibbleBits(0x8000000, 0x800000, [false, false, false, false], 24);
    NibbleBits(0x800000, 0x80000, [false, false, false, false], 20);
    NibbleBits(0x80000, 0x8000, [false, false, false, false], 16);
    NibbleBits(0x8000, 0x800, [false, false, false, false], 12);
    NibbleBits(0x800, 0x80, [false, false, false, false], 8);
    NibbleBits(0x80, 0x8, [false, false, false, false], 4);
    NibbleBits(0x8, 0x0, [false, false, false, true], 0);
    assert WordBits(0, 0) == [];
  }

  lemma UpperBits(x: Word)
    ensures WordBits(Upper(x), 32) == Gf2.Zeros(31) + [WordBits(x, 32)[31]]
  {
    hide Upper, Lower, Xor32, WordBits;
    UpperIsOneOrNothing(x);
    XorCancels(x, Xor32(Lower(x), Upper(x)));
    LowerFits(x);
    FittingWordBits(Lower(x), 31);
    WordBitsOfXor(Lower(x), Upper(x), 32);
    TopBitBits();
    ZeroWordBits(32);
  }

  lemma JoinBits(u: Word, l: Word, k: nat)
    requires k < 32
    ensures WordBits(Join(u, l), 32)[k] == if k == 31 then WordBits(u, 32)[31] else WordBits(l, 32)[k]
  {
    hide Join, Upper, Xor32, WordBits;
    JoinIs(u, l);
    XorCancels(Join(u, l), Xor32(l, Upper(Xor32(u, l))));
    WordBitsOfXor(l, Upper(Xor32(u, l)), 32);
    UpperBits(Xor32(u, l));
    WordBitsOfXor(u, l, 32);
  }

  /**
   * Every word after the first 624 is the one 227 places back, xored with the next-to-oldest word shifted down,
   * whose highest bit gives way to that of the oldest, and with the matrix if the bit shifted out was set.
   */
  lemma RecurrenceBits(w: seq<Word>, n: nat, k: nat)
    requires |w| == 624 && k < 32
    ensures WordBits(X(w, n + 624), 32)[k] ==
            (WordBits(X(w, n + 397), 32)[k] !=
             ((if k < 30 then WordBits(X(w, n + 1), 32)[k + 1] else if k == 30 then WordBits(X(w, n), 32)[31] else false) !=
              (k in EXPONENTS && WordBits(X(w, n + 1), 32)[0])))
  {
    hide X, Xor32, Twist, Join, WordBits;
    XFollowsRecurrence(w, n);
    var far, u, l := X(w, n + 397), X(w, n), X(w, n + 1);
    WordBitsOfXor(far, Twist(Join(u, l)), 32);
    TwistBits(Join(u, l), k);
    JoinBits(u, l, 0);
    if k < 31 {
      JoinBits(u, l, k + 1);
    }
  }

  /** The run begins with the given words. */
  lemma RunStarts(w: seq<Word>, n: nat)
    requires |w| == 624 && n < 624
    ensures X(w, n) == w[n]
  {
  }

  // ----- Tempering, undone -----

  function Undo18(t: Word): Word {
    t ^ (t >> 18)
  }

  function Undo15(t: Word): Word {
    t ^ ((t << 15) & 0xefc60000)
  }

  function Undo7(t: Word): Word {
    var a := t ^ ((t << 7) & 0x9d2c5680);
    var b := t ^ ((a << 7) & 0x9d2c5680);
    var c := t ^ ((b << 7) & 0x9d2c5680);
    t ^ ((c << 7) & 0x9d2c5680)
  }

  function Undo11(t: Word): Word {
    t ^ (t >> 11) ^ (t >> 22)
  }

  /** The four lines of tempering, undone from the last to the first. */
  function Untemper(t: Word): Word {
    Undo11(Undo7(Undo15(Undo18(t))))
  }

  lemma Shr18Is(x: Word)
    ensures Shr18(x) == x >> 18
  {
  }

  lemma Shr11Is(x: Word)
    ensures Shr11(x) == x >> 11
  {
  }

  lemma Undo18Undoes(x: Word)
    ensures Undo18(Xor32(x, x >> 18)) == x
  {
    hide *;
    RawUndo18(x);
    XorOfShift18(x);
  }

  lemma RawUndo18(x: Word)
    ensures Undo18(x ^ (x >> 18)) == x
  {
  }

  lemma XorOfShift18(x: Word)
    ensures Xor32(x, x >> 18) == x ^ (x >> 18)
  {
  }

  lemma Undo11Undoes(x: Word)
    ensures Undo11(Xor32(x, x >> 11)) == x
  {
    hide *;
    RawUndo11(x);
    XorOfShift11(x);
  }

  lemma RawUndo11(x: Word)
    ensures Undo11(x ^ (x >> 11)) == x
  {
  }

  lemma XorOfShift11(x: Word)
    ensures Xor32(x, x >> 11) == x ^ (x >> 11)
  {
  }

  lemma Undo15Undoes(x: Word)
    ensures Xor32(Undo15(Xor32(x, Shl15Masked(x))), x) == 0
  {
  }

  lemma Undo7Undoes(x: Word)
    ensures Xor32(Undo7(Xor32(x, Shl7Masked(x))), x) == 0
  {
  }

  /** Tempering has an inverse, which takes outputs back to the words of the recurrence. */
  lemma UntemperUndoes(y: Word)
    ensures Untemper(Temper(y)) == y
  {
    hide Xor32, Shr11, Shr18, Shl7Masked, Shl15Masked, Undo18, Undo15, Undo7, Undo11;
    var y1 := Xor32(y, Shr11(y));
    var y2 := Xor32(y1, Shl7Masked(y1));
    var y3 := Xor32(y2, Shl15Masked(y2));
    Undo18Undoes(y3);
    Shr18Is(y3);
    Undo15Undoes(y2);
    XorCancels(Undo15(y3), y2);
    Undo7Undoes(y1);
    XorCancels(Undo7(y2), y1);
    Undo11Undoes(y);
    Shr11Is(y);
  }

  // ----- Initialisation, as arithmetic modulo 2^32 -----

  lemma SeedTimesNext(w: Word)
    ensures SeedTimes(w + 1) == SeedTimes(w) + 1812433253
  {
  }

  lemma Mix1TimesNext(w: Word)
    ensures Mix1Times(w + 1) == Mix1Times(w) + 1664525
  {
  }

  lemma Mix2TimesNext(w: Word)
    ensures Mix2Times(w + 1) == Mix2Times(w) + 1566083941
  {
  }

  lemma TimesZero()
    ensures SeedTimes(0) == 0 && Mix1Times(0) == 0 && Mix2Times(0) == 0
  {
  }

  lemma MultipliersStep()
    ensures StepsBy(SeedTimes, 1812433253) && StepsBy(Mix1Times, 1664525) && StepsBy(Mix2Times, 1566083941)
  {
    hide SeedTimes, Mix1Times, Mix2Times, Succ, Sum;
    TimesZero();
    forall w: Word
      ensures SeedTimes(Succ(w)) == Sum(SeedTimes(w), 1812433253)
      ensures Mix1Times(Succ(w)) == Sum(Mix1Times(w), 1664525)
      ensures Mix2Times(Succ(w)) == Sum(Mix2Times(w), 1566083941)
    {
      SeedTimesNext(w);
      Mix1TimesNext(w);
      Mix2TimesNext(w);
      OperatorsAre(SeedTimes(w), 1812433253);
      OperatorsAre(Mix1Times(w), 1664525);
      OperatorsAre(Mix2Times(w), 1566083941);
      OperatorsAre(w, 1);
    }
  }

  lemma MultiplierLiterals()
    ensures Int(1812433253) == 1812433253 && Int(1664525) == 1664525 && Int(1566083941) == 1566083941
  {
    hide Int;
    IntOfZero();
    SeedLiteral();
    Mix1Literal();
    Mix2Literal();
  }

  lemma SeedLiteral()
    ensures Int(0x6c078965) == 0x6c078965
  {
    hide Int;
    IntOfZero();
    NibbleInt(0x6c078965, 0x6c07896, 5);
    NibbleInt(0x6c07896, 0x6c0789, 6);
    NibbleInt(0x6c0789, 0x6c078, 9);
    NibbleInt(0x6c078, 0x6c07, 8);
    NibbleInt(0x6c07, 0x6c0, 7);
    NibbleInt(0x6c0, 0x6c, 0);
    NibbleInt(0x6c, 0x6, 12);
    NibbleInt(0x6, 0x0, 6);
  }

  lemma Mix1Literal()
    ensures Int(0x19660d) == 0x19660d
  {
    hide Int;
    IntOfZero();
    NibbleInt(0x19660d, 0x19660, 13);
    NibbleInt(0x19660, 0x1966, 0);
    NibbleInt(0x1966, 0x196, 6);
    NibbleInt(0x196, 0x19, 6);
    NibbleInt(0x19, 0x1, 9);
    NibbleInt(0x1, 0x0, 1);
  }

  lemma Mix2Literal()
    ensures Int(0x5d588b65) == 0x5d588b65
  {
    hide Int;
    IntOfZero();
    NibbleInt(0x5d588b65, 0x5d588b6, 5);
    NibbleInt(0x5d588b6, 0x5d588b, 6);
    NibbleInt(0x5d588b, 0x5d588, 11);
    NibbleInt(0x5d588, 0x5d58, 8);
    NibbleInt(0x5d58, 0x5d5, 8);
    NibbleInt(0x5d5, 0x5d, 5);
    NibbleInt(0x5d, 0x5, 13);
    NibbleInt(0x5, 0x0, 5);
  }

  /** A word with its two highest bits added to its two lowest, without carry. */
  function Fold(p: Word): Word {
    p ^ (p >> 30)
  }

  lemma FoldIs(p: Word)
    ensures Xor32(p, Shr30(p)) == Fold(p)
  {
  }

  lemma SumIsAdd(a: Word, b: Word)
    ensures Add32(a, b) == Sum(a, b)
  {
  }

  lemma DifferenceIsSub(a: Word, b: Word)
    ensures Sum(Sub32(a, b), b) == a
  {
    hide *;
    SubIs(a, b);
    SumOfDifference(a, b);
  }

  lemma SubIs(a: Word, b: Word)
    ensures Sub32(a, b) == a - b
  {
  }

  lemma SumOfDifference(a: Word, b: Word)
    ensures Sum(a - b, b) == a
  {
  }

  /** An index, as a word. */
  function Index(i: int): Word
    requires 0 <= i < 0x80000000
  {
    i as Word
  }

  lemma OfIntIs(i: int)
    requires 0 <= i < 0x80000000
    ensures OfInt(i) == Index(i)
  {
  }

  lemma SeedNextIs(p: Word, i: Word)
    ensures Int(SeedNext(p, i)) == (TimesMod(1812433253, Int(Fold(p))) + Int(i)) % MODULUS
  {
    hide *;
    var fold := Xor32(p, Shr30(p));
    SeedNextUnfolds(p, i);
    FoldIs(p);
    MultipliersStep();
    MultiplierLiterals();
    IntOfMultiple(SeedTimes, 1812433253, fold);
    SumIsAdd(SeedTimes(fold), i);
    IntOfSum(SeedTimes(fold), i);
  }

  lemma SeedNextUnfolds(p: Word, i: Word)
    ensures SeedNext(p, i) == Add32(SeedTimes(Xor32(p, Shr30(p))), i)
  {
    hide Add32, SeedTimes, Xor32, Shr30;
  }

  lemma Mix1Is(cur: Word, p: Word, key: Word, j: Word) returns (q: Word)
    ensures Int(q) == TimesMod(1664525, Int(Fold(p)))
    ensures Int(Mix1(cur, p, key, j)) == (Int(Xor32(cur, q)) + Int(key) + Int(j)) % MODULUS
  {
    hide *;
    var fold := Xor32(p, Shr30(p));
    q := Mix1Times(fold);
    Mix1Unfolds(cur, p, key, j);
    FoldIs(p);
    MultipliersStep();
    MultiplierLiterals();
    IntOfMultiple(Mix1Times, 1664525, fold);
    var mixed := Xor32(cur, q);
    SumIsAdd(mixed, key);
    SumIsAdd(Add32(mixed, key), j);
    IntOfSum(mixed, key);
    IntOfSum(Sum(mixed, key), j);
    ModAdds(Int(mixed) + Int(key), Int(j));
  }

  lemma Mix1Unfolds(cur: Word, p: Word, key: Word, j: Word)
    ensures Mix1(cur, p, key, j) == Add32(Add32(Xor32(cur, Mix1Times(Xor32(p, Shr30(p)))), key), j)
  {
    hide Add32, Mix1Times, Xor32, Shr30;
  }

  lemma Mix2Is(cur: Word, p: Word, i: Word) returns (q: Word)
    ensures Int(q) == TimesMod(1566083941, Int(Fold(p)))
    ensures Int(Mix2(cur, p, i)) == (Int(Xor32(cur, q)) - Int(i)) % MODULUS
  {
    hide *;
    var fold := Xor32(p, Shr30(p));
    q := Mix2Times(fold);
    Mix2Unfolds(cur, p, i);
    FoldIs(p);
    MultipliersStep();
    MultiplierLiterals();
    IntOfMultiple(Mix2Times, 1566083941, fold);
    DifferenceIsSub(Xor32(cur, q), i);
    IntOfDifference(Xor32(cur, q), i, Sub32(Xor32(cur, q), i));
  }

  lemma Mix2Unfolds(cur: Word, p: Word, i: Word)
    ensures Mix2(cur, p, i) == Sub32(Xor32(cur, Mix2Times(Xor32(p, Shr30(p)))), i)
  {
    hide Sub32, Mix2Times, Xor32, Shr30;
  }

  /** What a number is multiplied by, and reduced. */
  lemma TimesModIs(c: nat, n: nat)
    ensures TimesMod(c, n) == (c * n) % 0x1_0000_0000
  {
  }

  /** A seeded block: each word from the one before. */
  lemma SeedStateIs(s: Word, i: nat)
    requires i < 624
    ensures i == 0 ==> SeedState(s)[i] == s
    ensures i > 0 ==>
              var p := SeedState(s)[i - 1];
              Int(SeedState(s)[i]) == (TimesMod(1812433253, Int(Fold(p))) + Int(Index(i))) % 0x1_0000_0000
  {
    hide Int, TimesMod, Fold, Xor32, OfInt, Index, SeedState, SeedWord, FirstPass, SecondPass, Stores, Mix1, Mix2, SeedNext;
    if i > 0 {
      SeedWords(s, i);
      OfIntIs(i);
      SeedNextIs(SeedState(s)[i - 1], OfInt(i));
    } else {
      FirstSeedWord(s);
    }
  }

  lemma FirstSeedWord(s: Word)
    ensures SeedState(s)[0] == s
  {
  }

  lemma SeedWords(s: Word, i: nat)
    requires 0 < i < 624
    ensures SeedState(s)[i] == SeedNext(SeedState(s)[i - 1], OfInt(i))
  {
    hide SeedNext, OfInt;
  }

  /** Where a step stores its word: at `i`, and at the front too if that was the last slot. */
  predicate Stores(m: seq<Word>, m': seq<Word>, i: nat)
    requires |m| == |m'| == 624 && i < 624
  {
    m' == if i == 623 then m[623 := m'[623]][0 := m'[623]] else m[i := m'[i]]
  }

  /** A step of the first loop: slot 1 + t mod 623 gets the mixed word plus key word t mod length and its index. */
  lemma FirstPassIs(key: Key, t: nat) returns (q: Word)
    ensures FirstPass(key, 0) == SeedState(19650218)
    ensures var i, j := 1 + t % 623, t % |key|;
            var m, m' := FirstPass(key, t), FirstPass(key, t + 1);
            && Int(q) == TimesMod(1664525, Int(Fold(m[i - 1])))
            && Int(m'[i]) == (Int(Xor32(m[i], q)) + Int(key[j]) + Int(Index(j))) % 0x1_0000_0000
            && Stores(m, m', i)
  {
    hide Int, TimesMod, Fold, Xor32, OfInt, Index, SeedState, SeedWord, FirstPass, SecondPass, Stores, Mix1, Mix2, SeedNext;
    FirstStored(key, t);
    var i, j := 1 + t % 623, t % |key|;
    var m := FirstPass(key, t);
    OfIntIs(j);
    q := Mix1Is(m[i], m[i - 1], key[j], OfInt(j));
  }

  lemma SlotIs(t: nat)
    ensures Slot(t) == 1 + t % 623
  {
  }

  lemma TurnIs(t: nat, n: nat)
    requires n >= 1
    ensures Turn(t, n) == t % n
  {
  }

  lemma FirstStored(key: Key, t: nat)
    ensures FirstPass(key, 0) == SeedState(19650218)
    ensures var i, j := 1 + t % 623, t % |key|;
            var m, m' := FirstPass(key, t), FirstPass(key, t + 1);
            1 <= i < 624 && 0 <= j < |key| && m'[i] == Mix1(m[i], m[i - 1], key[j], OfInt(j)) && Stores(m, m', i)
  {
    hide Mix1, OfInt, SeedState, Slot, Turn;
    SlotIs(t);
    TurnIs(t, |key|);
  }

  /** A step of the second loop, which takes up the slots where the first loop stopped. */
  lemma SecondPassIs(key: Key, t: nat) returns (q: Word)
    ensures var length := if 624 > |key| then 624 else |key|;
            var i := 1 + (length + t) % 623;
            var m, m' := SecondPass(key, t), SecondPass(key, t + 1);
            && SecondPass(key, 0) == FirstPass(key, length)
            && Int(q) == TimesMod(1566083941, Int(Fold(m[i - 1])))
            && Int(m'[i]) == (Int(Xor32(m[i], q)) - Int(Index(i))) % 0x1_0000_0000
            && Stores(m, m', i)
  {
    hide Int, TimesMod, Fold, Xor32, OfInt, Index, SeedState, SeedWord, FirstPass, SecondPass, Stores, Mix1, Mix2, SeedNext;
    SecondStored(key, t);
    var length := if 624 > |key| then 624 else |key|;
    var i := 1 + (length + t) % 623;
    var m := SecondPass(key, t);
    OfIntIs(i);
    q := Mix2Is(m[i], m[i - 1], OfInt(i));
  }

  lemma SecondStored(key: Key, t: nat)
    ensures var length := if 624 > |key| then 624 else |key|;
            var i := 1 + (length + t) % 623;
            var m, m' := SecondPass(key, t), SecondPass(key, t + 1);
            && SecondPass(key, 0) == FirstPass(key, length)
            && 1 <= i < 624 && m'[i] == Mix2(m[i], m[i - 1], OfInt(i)) && Stores(m, m', i)
  {
    hide Mix2, OfInt, FirstPass, Slot, Turn;
    SlotIs(FirstPassLength(key) + t);
  }

  /** After 623 steps of the second loop, the first word is made non-zero. */
  lemma KeyStateIs(key: Key)
    ensures KeyState(key) == SecondPass(key, 623)[0 := 0x80000000]
  {
    hide SecondPass;
  }
}
