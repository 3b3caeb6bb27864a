/** The integers that words stand for: arithmetic on words is arithmetic modulo 2^32. */
module Integers {
  import opened Words
  import opened Binary

  const MODULUS := 0x1_0000_0000

  /** The number that a word spells in binary. */
  function Int(w: Word): nat
    decreases w
  {
    if w == 0 then 0
    else
      HalfIsLess(w);
      2 * Int(Half(w)) + if LowBit(w) then 1 else 0
  }

  lemma HalfIsLess(w: Word)
    ensures w != 0 ==> Half(w) < w
  {
  }

  function Sum(a: Word, b: Word): Word { a + b }
  function Succ(a: Word): Word { a + 1 }
  function Pred(a: Word): Word { a - 1 }

  lemma IntByHalf(w: Word)
    ensures Int(w) == 2 * Int(Half(w)) + if LowBit(w) then 1 else 0
  {
  }

  // ----- Bounds and literals -----

  /** The last hexadecimal digit. */
  lemma NibbleInt(w: Word, rest: Word, digit: nat)
    requires rest == Half(Half(Half(Half(w))))
    requires digit == (if LowBit(w) then 1 else 0) + (if LowBit(Half(w)) then 2 else 0) +
                      (if LowBit(Half(Half(w))) then 4 else 0) + if LowBit(Half(Half(Half(w)))) then 8 else 0
    ensures Int(w) == 16 * Int(rest) + digit
  {
    hide Int, Half, LowBit;
    IntByHalf(w);
    IntByHalf(Half(w));
    IntByHalf(Half(Half(w)));
    IntByHalf(Half(Half(Half(w))));
  }

  lemma IntOfZero()
    ensures Int(0) == 0
  {
  }

  lemma IntOfMax()
    ensures Int(0xffffffff) == 0xffffffff
  {
    hide Int;
    NibbleInt(0xffffffff, 0xfffffff, 15);
    NibbleInt(0xfffffff, 0xffffff, 15);
    NibbleInt(0xffffff, 0xfffff, 15);
    NibbleInt(0xfffff, 0xffff, 15);
    NibbleInt(0xffff, 0xfff, 15);
    NibbleInt(0xfff, 0xff, 15);
    NibbleInt(0xff, 0xf, 15);
    NibbleInt(0xf, 0, 15);
    IntOfZero();
  }

  function Power(n: nat): nat {
    if n == 0 then 1 else 2 * Power(n - 1)
  }

  lemma PowerOf32()
    ensures Power(32) == MODULUS
  {
    assert Power(8) == 0x100;
    assert Power(16) == 0x1_0000;
    assert Power(24) == 0x100_0000;
  }

  lemma {:induction false} IntIsBounded(w: Word, n: nat)
    requires Fits(w, n)
    ensures Int(w) < Power(n)
    decreases n
  {
    hide Half, LowBit;
    if n == 0 {
      IntOfZero();
    } else {
      hide Int;
      IntByHalf(w);
      IntIsBounded(Half(w), n - 1);
    }
  }

  lemma IntIsSmall(w: Word)
    ensures Int(w) < MODULUS
  {
    hide Int;
    WordFits(w);
    IntIsBounded(w, 32);
    PowerOf32();
  }

  // ----- Successor -----

  lemma SuccOfEven(w: Word)
    requires !LowBit(w)
    ensures LowBit(Succ(w)) && Half(Succ(w)) == Half(w)
  {
  }

  lemma SuccOfOddIsEven(w: Word)
    requires LowBit(w)
    ensures !LowBit(Succ(w))
  {
  }

  lemma HalfOfSucc(w: Word)
    requires LowBit(w) && w != 0xffffffff
    ensures Xor32(Half(Succ(w)), Succ(Half(w))) == 0
  {
  }

  lemma HalfIsNotMax(w: Word)
    ensures Half(w) != 0xffffffff
    ensures LowBit(w) ==> w != 0
  {
  }

  lemma {:induction false} IntOfSucc(w: Word)
    requires w != 0xffffffff
    ensures Int(Succ(w)) == Int(w) + 1
    decreases w
  {
    hide Int, Half, LowBit, Succ, Xor32;
    IntByHalf(w);
    IntByHalf(Succ(w));
    if LowBit(w) {
      SuccOfOddIsEven(w);
      HalfOfSucc(w);
      XorCancels(Half(Succ(w)), Succ(Half(w)));
      HalfIsNotMax(w);
      HalfIsLess(w);
      IntOfSucc(Half(w));
    } else {
      SuccOfEven(w);
    }
  }

  lemma PredFacts(b: Word)
    requires b != 0
    ensures Succ(Pred(b)) == b && Pred(b) != 0xffffffff && Pred(b) < b
  {
  }

  // ----- Sums and differences -----

  lemma Regroup(a: Word, b: Word)
    requires b != 0
    ensures Sum(Succ(a), Pred(b)) == Sum(a, b)
    ensures a == 0xffffffff ==> Sum(a, b) == Pred(b)
  {
  }

  lemma SumOfZero(a: Word)
    ensures Sum(a, 0) == a
  {
  }

  lemma {:induction false} IntOfSum(a: Word, b: Word)
    ensures Int(Sum(a, b)) == (Int(a) + Int(b)) % MODULUS
    decreases b
  {
    hide Int, Sum, Succ, Pred;
    IntIsSmall(a);
    IntIsSmall(b);
    if b == 0 {
      IntOfZero();
      SumOfZero(a);
    } else {
      var c := Pred(b);
      PredFacts(b);
      IntOfSucc(c);
      Regroup(a, b);
      if a == 0xffffffff {
        IntOfMax();
      } else {
        IntOfSucc(a);
        IntOfSum(Succ(a), c);
      }
    }
  }

  lemma IntOfDifference(a: Word, b: Word, d: Word)
    requires Sum(d, b) == a
    ensures Int(d) == (Int(a) - Int(b)) % MODULUS
  {
    hide Int, Sum;
    IntOfSum(d, b);
    IntIsSmall(a);
    IntIsSmall(b);
    IntIsSmall(d);
  }

  // ----- Multiples -----

  function TimesMod(c: nat, n: nat): nat {
    (c * n) % MODULUS
  }

  lemma TimesModByOne(c: nat, n: nat)
    ensures TimesMod(c, 0) == 0
    ensures TimesMod(c, n + 1) == (TimesMod(c, n) + c) % MODULUS
  {
    assert c * (n + 1) == c * n + c;
    ModAdds(c * n, c);
  }

  lemma ModAdds(p: nat, q: nat)
    ensures (p % MODULUS + q) % MODULUS == (p + q) % MODULUS
  {
  }

  /** For each one added to the argument, the result goes up by `c`. */
  ghost predicate StepsBy(f: Word -> Word, c: Word) {
    f(0) == 0 && forall w :: f(Succ(w)) == Sum(f(w), c)
  }

  lemma StepsAt(f: Word -> Word, c: Word, w: Word)
    requires StepsBy(f, c)
    ensures f(0) == 0 && f(Succ(w)) == Sum(f(w), c)
  {
  }

  /** Then it multiplies by `c`. */
  lemma {:induction false} IntOfMultiple(f: Word -> Word, c: Word, w: Word)
    requires StepsBy(f, c)
    ensures Int(f(w)) == TimesMod(Int(c), Int(w))
    decreases w
  {
    hide *;
    IntOfZero();
    if w == 0 {
      StepsAt(f, c, w);
      TimesModByOne(Int(c), 0);
    } else {
      var v := Pred(w);
      PredFacts(w);
      StepsAt(f, c, v);
      IntOfSucc(v);
      IntOfSum(f(v), c);
      IntOfMultiple(f, c, v);
      TimesModByOne(Int(c), Int(v));
    }
  }

  lemma OperatorsAre(a: Word, b: Word)
    ensures Sum(a, b) == a + b && Succ(a) == a + 1
  {
  }
}
