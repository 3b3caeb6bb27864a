/** The generator of `mt19937ar.c`, on a machine whose `unsigned long` has 64 bits. */
module MersenneTwisterGenerator {
  import opened Arithmetic
  import opened Words
  import opened MersenneTwister

  type Long = bv64

  // ----- Operations on longs -----

  function Widen(w: Word): Long { w as Long }
  function Low32(x: Long): Word { (x & 0xffffffff) as Word }
  function Mask32(x: Long): Long { x & 0xffffffff }
  function Xor64(a: Long, b: Long): Long { a ^ b }
  function Add64(a: Long, b: Long): Long { a + b }
  function Sub64(a: Long, b: Long): Long { a - b }
  function LongShr11(x: Long): Long { x >> 11 }
  function LongShr18(x: Long): Long { x >> 18 }
  function LongShr30(x: Long): Long { x >> 30 }
  function LongShl7Masked(x: Long): Long { (x << 7) & 0x9d2c5680 }
  function LongShl15Masked(x: Long): Long { (x << 15) & 0xefc60000 }
  function LongSeedTimes(x: Long): Long { 1812433253 * x }
  function LongMix1Times(x: Long): Long { x * 1664525 }
  function LongMix2Times(x: Long): Long { x * 1566083941 }
  function LongJoin(u: Long, l: Long): Long { (u & 0x80000000) | (l & 0x7fffffff) }
  function LongTwist(y: Long): Long { (y >> 1) ^ (if y & 1 == 0 then 0 else 0x9908b0df) }

  function LongNext(far: Long, u: Long, l: Long): Long {
    Xor64(far, LongTwist(LongJoin(u, l)))
  }

  function LongTemper(y: Long): Long {
    var y1 := Xor64(y, LongShr11(y));
    var y2 := Xor64(y1, LongShl7Masked(y1));
    var y3 := Xor64(y2, LongShl15Masked(y2));
    Xor64(y3, LongShr18(y3))
  }

  function LongSeedNext(prev: Long, i: Long): Long {
    Mask32(Add64(LongSeedTimes(Xor64(prev, LongShr30(prev))), i))
  }

  function LongMix1(cur: Long, prev: Long, key: Long, j: Long): Long {
    Mask32(Add64(Add64(Xor64(cur, LongMix1Times(Xor64(prev, LongShr30(prev)))), key), j))
  }

  function LongMix2(cur: Long, prev: Long, i: Long): Long {
    Mask32(Sub64(Xor64(cur, LongMix2Times(Xor64(prev, LongShr30(prev)))), i))
  }

  // ----- Each operation keeps the low 32 bits -----

  lemma SameLong(x: Long, y: Long)
    requires Xor64(x, y) == 0
    ensures x == y
  {
  }

  lemma SameWord(x: Word, y: Word)
    requires Xor32(x, y) == 0
    ensures x == y
  {
  }

  lemma WidenXor(a: Word, b: Word)
    ensures Xor64(Xor64(Widen(a), Widen(b)), Widen(Xor32(a, b))) == 0
  {
  }

  lemma WidenShr11(a: Word)
    ensures Xor64(LongShr11(Widen(a)), Widen(Shr11(a))) == 0
  {
  }

  lemma WidenShr18(a: Word)
    ensures Xor64(LongShr18(Widen(a)), Widen(Shr18(a))) == 0
  {
  }

  lemma WidenShr30(a: Word)
    ensures Xor64(LongShr30(Widen(a)), Widen(Shr30(a))) == 0
  {
  }

  lemma WidenShl7(a: Word)
    ensures Xor64(LongShl7Masked(Widen(a)), Widen(Shl7Masked(a))) == 0
  {
  }

  lemma WidenShl15(a: Word)
    ensures Xor64(LongShl15Masked(Widen(a)), Widen(Shl15Masked(a))) == 0
  {
  }

  lemma WidenJoin(u: Word, l: Word)
    ensures Xor64(LongJoin(Widen(u), Widen(l)), Widen(Join(u, l))) == 0
  {
  }

  lemma WidenTwist(y: Word)
    ensures Xor64(LongTwist(Widen(y)), Widen(Twist(y))) == 0
  {
  }

  lemma LowWiden(a: Word)
    ensures Xor32(Low32(Widen(a)), a) == 0
  {
  }

  lemma MaskIsWidenLow(x: Long)
    ensures Xor64(Mask32(x), Widen(Low32(x))) == 0
  {
  }

  lemma LowXor(x: Long, y: Long)
    ensures Xor32(Low32(Xor64(x, y)), Xor32(Low32(x), Low32(y))) == 0
  {
  }

  lemma LowAdd(x: Long, y: Long)
    ensures Xor32(Low32(Add64(x, y)), Add32((x & 0xffffffff) as Word, (y & 0xffffffff) as Word)) == 0
  {
  }

  lemma LowSub(x: Long, y: Long)
    ensures Xor32(Low32(Sub64(x, y)), Sub32((x & 0xffffffff) as Word, (y & 0xffffffff) as Word)) == 0
  {
  }

  lemma LowSeedTimes(x: Long)
    ensures Xor32(Low32(LongSeedTimes(x)), SeedTimes((x & 0xffffffff) as Word)) == 0
  {
  }

  lemma LowMix1Times(x: Long)
    ensures Xor32(Low32(LongMix1Times(x)), Mix1Times((x & 0xffffffff) as Word)) == 0
  {
  }

  lemma LowMix2Times(x: Long)
    ensures Xor32(Low32(LongMix2Times(x)), Mix2Times((x & 0xffffffff) as Word)) == 0
  {
  }

  lemma XorOfWidened(a: Word, b: Word)
    ensures Xor64(Widen(a), Widen(b)) == Widen(Xor32(a, b))
  {
    hide *;
    WidenXor(a, b);
    SameLong(Xor64(Widen(a), Widen(b)), Widen(Xor32(a, b)));
  }

  lemma ShiftsOfWidened(a: Word)
    ensures LongShr11(Widen(a)) == Widen(Shr11(a))
    ensures LongShr18(Widen(a)) == Widen(Shr18(a))
    ensures LongShr30(Widen(a)) == Widen(Shr30(a))
    ensures LongShl7Masked(Widen(a)) == Widen(Shl7Masked(a))
    ensures LongShl15Masked(Widen(a)) == Widen(Shl15Masked(a))
  {
    hide *;
    WidenShr11(a);
    SameLong(LongShr11(Widen(a)), Widen(Shr11(a)));
    WidenShr18(a);
    SameLong(LongShr18(Widen(a)), Widen(Shr18(a)));
    WidenShr30(a);
    SameLong(LongShr30(Widen(a)), Widen(Shr30(a)));
    WidenShl7(a);
    SameLong(LongShl7Masked(Widen(a)), Widen(Shl7Masked(a)));
    WidenShl15(a);
    SameLong(LongShl15Masked(Widen(a)), Widen(Shl15Masked(a)));
  }

  lemma LowOfXor(x: Long, y: Long)
    ensures Low32(Xor64(x, y)) == Xor32(Low32(x), Low32(y))
  {
    hide *;
    LowXor(x, y);
    SameWord(Low32(Xor64(x, y)), Xor32(Low32(x), Low32(y)));
  }

  lemma LowIsMasked(x: Long)
    ensures Low32(x) == (x & 0xffffffff) as Word
  {
  }

  lemma LowOfSums(x: Long, y: Long)
    ensures Low32(Add64(x, y)) == Add32(Low32(x), Low32(y))
    ensures Low32(Sub64(x, y)) == Sub32(Low32(x), Low32(y))
  {
    hide *;
    LowIsMasked(x);
    LowIsMasked(y);
    LowAdd(x, y);
    SameWord(Low32(Add64(x, y)), Add32(Low32(x), Low32(y)));
    LowSub(x, y);
    SameWord(Low32(Sub64(x, y)), Sub32(Low32(x), Low32(y)));
  }

  lemma LowOfProducts(x: Long)
    ensures Low32(LongSeedTimes(x)) == SeedTimes(Low32(x))
    ensures Low32(LongMix1Times(x)) == Mix1Times(Low32(x))
    ensures Low32(LongMix2Times(x)) == Mix2Times(Low32(x))
  {
    hide *;
    LowIsMasked(x);
    LowSeedTimes(x);
    SameWord(Low32(LongSeedTimes(x)), SeedTimes(Low32(x)));
    LowMix1Times(x);
    SameWord(Low32(LongMix1Times(x)), Mix1Times(Low32(x)));
    LowMix2Times(x);
    SameWord(Low32(LongMix2Times(x)), Mix2Times(Low32(x)));
  }

  lemma MaskedIsWidened(x: Long)
    ensures Mask32(x) == Widen(Low32(x))
  {
    hide *;
    MaskIsWidenLow(x);
    SameLong(Mask32(x), Widen(Low32(x)));
  }

  lemma LowOfWidened(a: Word)
    ensures Low32(Widen(a)) == a
  {
    hide *;
    LowWiden(a);
    SameWord(Low32(Widen(a)), a);
  }

  // ----- A 64-bit machine computes the 32-bit words -----

  lemma LongNextIsNext(far: Word, u: Word, l: Word)
    ensures LongNext(Widen(far), Widen(u), Widen(l)) == Widen(Next(far, u, l))
  {
    hide Widen, Xor32, Xor64, LongTwist, LongJoin, Twist, Join;
    WidenJoin(u, l);
    SameLong(LongJoin(Widen(u), Widen(l)), Widen(Join(u, l)));
    WidenTwist(Join(u, l));
    SameLong(LongTwist(Widen(Join(u, l))), Widen(Twist(Join(u, l))));
    XorOfWidened(far, Twist(Join(u, l)));
  }

  lemma LongTemperIsTemper(y: Word)
    ensures LongTemper(Widen(y)) == Widen(Temper(y))
  {
    hide Widen, Xor32, Xor64, LongShr11, LongShr18, LongShl7Masked, LongShl15Masked;
    hide Shr11, Shr18, Shl7Masked, Shl15Masked;
    var y1 := Xor32(y, Shr11(y));
    var y2 := Xor32(y1, Shl7Masked(y1));
    var y3 := Xor32(y2, Shl15Masked(y2));
    ShiftsOfWidened(y);
    XorOfWidened(y, Shr11(y));
    ShiftsOfWidened(y1);
    XorOfWidened(y1, Shl7Masked(y1));
    ShiftsOfWidened(y2);
    XorOfWidened(y2, Shl15Masked(y2));
    ShiftsOfWidened(y3);
    XorOfWidened(y3, Shr18(y3));
  }

  lemma FoldOfWidened(prev: Word)
    ensures Low32(Xor64(Widen(prev), LongShr30(Widen(prev)))) == Xor32(prev, Shr30(prev))
  {
    hide *;
    ShiftsOfWidened(prev);
    XorOfWidened(prev, Shr30(prev));
    LowOfWidened(Xor32(prev, Shr30(prev)));
  }

  lemma LongSeedNextIsSeedNext(prev: Word, i: Word)
    ensures LongSeedNext(Widen(prev), Widen(i)) == Widen(SeedNext(prev, i))
  {
    hide Widen, Low32, Mask32, Xor32, Xor64, LongShr30, Shr30, Add32, Add64, SeedTimes, LongSeedTimes;
    var fold := Xor64(Widen(prev), LongShr30(Widen(prev)));
    FoldOfWidened(prev);
    LowOfProducts(fold);
    LowOfWidened(i);
    LowOfSums(LongSeedTimes(fold), Widen(i));
    MaskedIsWidened(Add64(LongSeedTimes(fold), Widen(i)));
  }

  lemma LongMix1IsMix1(cur: Word, prev: Word, key: Long, j: Word)
    ensures LongMix1(Widen(cur), Widen(prev), key, Widen(j)) == Widen(Mix1(cur, prev, Low32(key), j))
  {
    hide Widen, Low32, Mask32, Xor32, Xor64, LongShr30, Shr30, Add32, Add64, Mix1Times, LongMix1Times;
    var fold := Xor64(Widen(prev), LongShr30(Widen(prev)));
    FoldOfWidened(prev);
    LowOfProducts(fold);
    LowOfWidened(cur);
    LowOfWidened(j);
    var mixed := Xor64(Widen(cur), LongMix1Times(fold));
    LowOfXor(Widen(cur), LongMix1Times(fold));
    LowOfSums(mixed, key);
    LowOfSums(Add64(mixed, key), Widen(j));
    MaskedIsWidened(Add64(Add64(mixed, key), Widen(j)));
  }

  lemma LongMix2IsMix2(cur: Word, prev: Word, i: Word)
    ensures LongMix2(Widen(cur), Widen(prev), Widen(i)) == Widen(Mix2(cur, prev, i))
  {
    hide Widen, Low32, Mask32, Xor32, Xor64, LongShr30, Shr30, Sub32, Sub64, Mix2Times, LongMix2Times;
    var fold := Xor64(Widen(prev), LongShr30(Widen(prev)));
    FoldOfWidened(prev);
    LowOfProducts(fold);
    LowOfWidened(cur);
    LowOfWidened(i);
    LowOfXor(Widen(cur), LongMix2Times(fold));
    LowOfSums(Xor64(Widen(cur), LongMix2Times(fold)), Widen(i));
    MaskedIsWidened(Sub64(Xor64(Widen(cur), LongMix2Times(fold)), Widen(i)));
  }

  /** Word `n` of the run that starts with `w`, in an `unsigned long`. */
  function Cell(w: seq<Word>, n: nat): Long
    requires |w| == N
  {
    Widen(X(w, n))
  }

  lemma NewWord(w: seq<Word>, n: nat)
    requires |w| == N
    ensures LongNext(Cell(w, n + M), Cell(w, n), Cell(w, n + 1)) == Cell(w, n + N)
  {
    hide X, Next, LongNext, Widen;
    LongNextIsNext(X(w, n + M), X(w, n), X(w, n + 1));
    XFollowsRecurrence(w, n);
  }

  /** An `int` that is not negative, converted to `unsigned long`. */
  function LongOfInt(i: int): Long
    requires 0 <= i < 0x80000000
  {
    Widen(OfInt(i))
  }

  // ----- The generator -----

  class Generator {
    var mt: array<Long>
    var mti: int

    /** The block that initialisation left, and the place in its run that the present block starts at. */
    ghost var start: seq<Word>
    ghost var block: nat

    ghost predicate Seeded()
      reads this, mt
    {
      && mt.Length == N && |start| == N
      && 0 <= mti <= N
      && (block >= N || (block == 0 && mti == N))
      && forall i :: 0 <= i < N ==> mt[i] == Cell(start, block + i)
    }

    ghost predicate Valid()
      reads this, mt
    {
      mt.Length == N && (mti == N + 1 || Seeded())
    }

    /** The array holds the words `m`. */
    ghost predicate Holds(m: seq<Word>)
      reads this, mt
    {
      mt.Length == N == |m| && forall p :: 0 <= p < N ==> mt[p] == Widen(m[p])
    }

    /** What a step of the first loop computes is the word that the specification stores there. */
    lemma FirstStep(initKey: seq<Long>, t: nat)
      requires 1 <= |initKey| < 0x80000000
      requires Holds(FirstPass(LowWords(initKey), t))
      ensures var key := LowWords(initKey);
              var i, j := Slot(t), Turn(t, |initKey|);
              LongMix1(mt[i], mt[i - 1], initKey[j], LongOfInt(j)) == Widen(FirstWord(key, t)) &&
              FirstPass(key, t + 1) == Store(FirstPass(key, t), i, FirstWord(key, t))
    {
      hide Turn, Slot, Store, Widen, LongMix1, Mix1, Low32, SeedState, OfInt;
      var m, i, j := FirstPass(LowWords(initKey), t), Slot(t), Turn(t, |initKey|);
      LongMix1IsMix1(m[i], m[i - 1], initKey[j], OfInt(j));
    }

    lemma SecondStep(key: Key, t: nat)
      requires Holds(SecondPass(key, t))
      ensures var i := Slot(FirstPassLength(key) + t);
              LongMix2(mt[i], mt[i - 1], LongOfInt(i)) == Widen(SecondWord(key, t)) &&
              SecondPass(key, t + 1) == Store(SecondPass(key, t), i, SecondWord(key, t))
    {
      hide Slot, Store, Widen, LongMix2, Mix2, FirstPass, FirstPassLength, OfInt;
      var m, i := SecondPass(key, t), Slot(FirstPassLength(key) + t);
      LongMix2IsMix2(m[i], m[i - 1], OfInt(i));
    }

    /** How many numbers have been drawn since initialisation. */
    ghost function Drawn(): int
      reads this
    {
      block + mti - N
    }

    /** The static storage before anything is called. */
    constructor ()
      ensures Valid() && fresh(mt) && mti == N + 1
    {
      mt := new Long[N];
      mti := N + 1;
    }

    method InitGenrand(s: Long)
      requires mt.Length == N
      modifies this, mt
      ensures mt == old(mt) && Seeded()
      ensures start == SeedState(Low32(s)) && block == 0 && mti == N
    {
      hide Widen, Mask32, Low32, X, LongSeedNext, SeedWord, SeedState, LongOfInt;
      mt[0] := Mask32(s);
      SeedsBlock(Low32(s));
      MaskedIsWidened(s);
      mti := 1;
      while mti < N
        invariant mt == old(mt) && 1 <= mti <= N
        invariant forall j :: 0 <= j < mti ==> mt[j] == Widen(SeedWord(Low32(s), j))
      {
        SeedStep(Low32(s), mti);
        mt[mti] := LongSeedNext(mt[mti - 1], LongOfInt(mti));
        mti := mti + 1;
      }
      start, block := SeedState(Low32(s)), 0;
    }

    method GenrandInt32() returns (y: Long)
      requires Valid()
      modifies this, mt
      ensures mt == old(mt) && Seeded()
      ensures start == if old(mti) == N + 1 then SeedState(Low32(5489)) else old(start)
      ensures Drawn() == if old(mti) == N + 1 then 1 else old(Drawn()) + 1
      ensures y == Widen(Temper(X(start, N + Drawn() - 1)))
    {
      hide X, Widen, LongTemper, Temper, Low32, SeedState;
      if mti >= N {
        if mti == N + 1 {
          InitGenrand(5489);
        }
        Regenerate();
      }
      LongTemperIsTemper(X(start, block + mti));
      y := LongTemper(mt[mti]);
      mti := mti + 1;
    }

    /** Lines 113 to 124 of `genrand_int32`: the next block, written over the present one. */
    method Regenerate()
      requires Seeded() && mti == N
      modifies this, mt
      ensures mt == old(mt) && Seeded() && mti == 0
      ensures start == old(start) && block == old(block) + N
    {
      hide HalfRenewed;
      ghost var w, n := start, block;
      BlockBoundaries(w, n);
      var kk := 0;
      while kk < N - M
        invariant 0 <= kk <= N - M
        invariant HalfRenewed(w, n, kk)
        modifies mt
      {
        Renew(kk, kk + M, kk + 1, w, n);
        kk := kk + 1;
      }
      while kk < N - 1
        invariant N - M <= kk <= N - 1
        invariant HalfRenewed(w, n, kk)
        modifies mt
      {
        Renew(kk, kk + (M - N), kk + 1, w, n);
        kk := kk + 1;
      }
      Renew(N - 1, M - 1, 0, w, n);
      BlockBoundaries(w, n);
      block := block + N;
      mti := 0;
    }

    /** The words before `kk` belong to the next block already, the others still to the present one. */
    ghost predicate HalfRenewed(w: seq<Word>, n: nat, kk: int)
      reads this, mt
    {
      && mt.Length == N == |w|
      && forall i :: 0 <= i < N ==> mt[i] == Cell(w, if i < kk then n + N + i else n + i)
    }

    lemma BlockBoundaries(w: seq<Word>, n: nat)
      requires mt.Length == N == |w|
      ensures HalfRenewed(w, n, 0) <==> forall i :: 0 <= i < N ==> mt[i] == Cell(w, n + i)
      ensures HalfRenewed(w, n, N) <==> forall i :: 0 <= i < N ==> mt[i] == Cell(w, n + N + i)
    {
      hide Cell;
    }

    /** The statement that all three parts of the regeneration have in common. */
    method Renew(kk: int, far: int, next: int, ghost w: seq<Word>, ghost n: nat)
      requires 0 <= kk < N && HalfRenewed(w, n, kk)
      requires far == if kk < N - M then kk + M else kk + (M - N)
      requires next == if kk < N - 1 then kk + 1 else 0
      modifies mt
      ensures HalfRenewed(w, n, kk + 1)
    {
      hide Cell, LongNext;
      NewWord(w, n + kk);
      mt[kk] := LongNext(mt[far], mt[kk], mt[next]);
    }

    method InitByArray(initKey: seq<Long>)
      requires mt.Length == N
      requires 1 <= |initKey| < 0x80000000
      modifies this, mt
      ensures mt == old(mt) && Seeded()
      ensures start == KeyState(LowWords(initKey)) && mti == N && Drawn() == 0
    {
      hide Turn, Slot, Store, LongOfInt, X, Widen, Low32, LongMix1, SeedState, FirstPass, SecondPass, Holds;
      ghost var key := LowWords(initKey);
      InitGenrand(19650218);
      PassesStart(key);
      var i, j := 1, 0;
      var k := if N > |initKey| then N else |initKey|;
      ghost var t := 0;
      while k != 0
        invariant mt == old(mt) && mti == N
        invariant 0 <= k == FirstPassLength(key) - t && t >= 0
        invariant i == Slot(t) && j == Turn(t, |initKey|)
        invariant Holds(FirstPass(key, t))
        decreases k
      {
        FirstStep(initKey, t);
        var v := LongMix1(mt[i], mt[i - 1], initKey[j], LongOfInt(j));
        i := StoreAndAdvance(i, v, FirstPass(key, t), FirstWord(key, t));
        j := j + 1;
        if j >= |initKey| {
          j := 0;
        }
        NextSlot(t);
        NextTurn(t, |initKey|);
        t := t + 1;
        k := k - 1;
      }
      i := MixAgain(key, i);
      Finish(key);
    }

    /** The last statement of `init_by_array`: the most significant bit is set, so the state is not zero. */
    method Finish(ghost key: Key)
      requires Holds(SecondPass(key, N - 1)) && mti == N
      modifies this, mt
      ensures mt == old(mt) && Seeded()
      ensures start == KeyState(key) && mti == N && Drawn() == 0
    {
      hide Widen, SecondPass, X;
      MsbOnly();
      mt[0] := 0x80000000;
      start, block := KeyState(key), 0;
      FirstWords(start);
    }

    lemma PassesStart(key: Key)
      requires Seeded() && start == SeedState(Low32(19650218)) && block == 0
      ensures Holds(FirstPass(key, 0))
      ensures SecondPass(key, 0) == FirstPass(key, FirstPassLength(key))
      ensures Turn(0, |key|) == 0 && Slot(0) == 1
    {
      hide X, Widen, SeedWord;
      FirstWords(start);
    }

    /** The end of either mixing loop's body: store, and wrap round once the last slot is written. */
    method StoreAndAdvance(i: int, v: Long, ghost m: seq<Word>, ghost w: Word) returns (next: int)
      requires Holds(m) && 1 <= i < N && v == Widen(w)
      modifies mt
      ensures Holds(Store(m, i, w))
      ensures next == if i == N - 1 then 1 else i + 1
    {
      hide Widen;
      mt[i] := v;
      next := i + 1;
      if next >= N {
        mt[0] := mt[N - 1];
        next := 1;
      }
    }

    /** The second mixing loop of `init_by_array`. It visits every slot once, so `i` ends where it began. */
    method MixAgain(ghost key: Key, first: int) returns (i: int)
      requires mt.Length == N && first == Slot(FirstPassLength(key))
      requires Holds(SecondPass(key, 0))
      modifies mt
      ensures i == first
      ensures Holds(SecondPass(key, N - 1))
    {
      hide Turn, Slot, Store, LongOfInt, Widen, LongMix2, Mix2, SecondPass, Holds, FirstPassLength;
      i := first;
      var k := N - 1;
      ghost var t := 0;
      while k != 0
        invariant 0 <= k == N - 1 - t && t >= 0
        invariant i == Slot(FirstPassLength(key) + t)
        invariant Holds(SecondPass(key, t))
        decreases k
      {
        i := MixOnce(key, t, i);
        t := t + 1;
        k := k - 1;
      }
      FullTurn(FirstPassLength(key));
    }

    /** The body of that loop. */
    method MixOnce(ghost key: Key, ghost t: nat, i: int) returns (next: int)
      requires Holds(SecondPass(key, t)) && i == Slot(FirstPassLength(key) + t)
      modifies mt
      ensures Holds(SecondPass(key, t + 1)) && next == Slot(FirstPassLength(key) + (t + 1))
    {
      hide Turn, Slot, Store, LongOfInt, Widen, LongMix2, Mix2, SecondPass, FirstPassLength;
      SecondStep(key, t);
      next := StoreAndAdvance(i, LongMix2(mt[i], mt[i - 1], LongOfInt(i)), SecondPass(key, t), SecondWord(key, t));
      NextSlot(FirstPassLength(key) + t);
    }
  }

  lemma NextSlot(t: nat)
    ensures Slot(t + 1) == if Slot(t) == N - 1 then 1 else Slot(t) + 1
  {
    NextTurn(t, N - 1);
  }

  lemma FullTurn(t: nat)
    ensures Slot(t + (N - 1)) == Slot(t)
  {
  }

  function LowWords(key: seq<Long>): (words: seq<Word>)
    ensures |words| == |key|
  {
    seq(|key|, i requires 0 <= i < |key| => Low32(key[i]))
  }

  lemma FirstWords(w: seq<Word>)
    requires |w| == N
    ensures forall i :: 0 <= i < N ==> X(w, i) == w[i]
  {
  }

  lemma SeedStep(s: Word, i: int)
    requires 1 <= i < N
    ensures LongSeedNext(Widen(SeedWord(s, i - 1)), LongOfInt(i)) == Widen(SeedWord(s, i))
  {
    hide Widen, LongSeedNext, SeedNext, OfInt;
    LongSeedNextIsSeedNext(SeedWord(s, i - 1), OfInt(i));
  }

  lemma SeedsBlock(s: Word)
    ensures SeedWord(s, 0) == s
    ensures forall i :: 0 <= i < N ==> X(SeedState(s), i) == SeedWord(s, i)
  {
    hide SeedNext;
  }

  lemma MsbOnly()
    ensures Widen(0x80000000) == 0x80000000
  {
  }

  lemma NextTurn(t: nat, n: nat)
    requires n >= 1
    ensures Turn(t + 1, n) == if Turn(t, n) + 1 == n then 0 else Turn(t, n) + 1
  {
    var q, r := t / n, t % n;
    var q2, r2 := (t + 1) / n, (t + 1) % n;
    assert t == n * q + r && t + 1 == n * q2 + r2;
    if q2 < q {
      MultiplesAreSpaced(n, q2, q);
    } else if q2 > q {
      MultiplesAreSpaced(n, q, q2);
      if q2 > q + 1 {
        MultiplesAreSpaced(n, q + 1, q2);
      }
      assert n * (q + 1) == n * q + n;
    }
  }
}
