/** The sequence that MT19937 defines: recurrence, tempering and initialisation on 32-bit words. */
module MersenneTwister {
  import opened Words

  const N := 624
  const M := 397

  // Each machine operation has a name of its own, so that proofs can use its laws without its bits.

  function Add32(a: Word, b: Word): Word { a + b }
  function Sub32(a: Word, b: Word): Word { a - b }
  function Or32(a: Word, b: Word): Word { a | b }
  function Upper(w: Word): Word { w & 0x80000000 }
  function Lower(w: Word): Word { w & 0x7fffffff }
  function Shr11(w: Word): Word { w >> 11 }
  function Shr18(w: Word): Word { w >> 18 }
  function Shr30(w: Word): Word { w >> 30 }
  function Shl7Masked(w: Word): Word { (w << 7) & 0x9d2c5680 }
  function Shl15Masked(w: Word): Word { (w << 15) & 0xefc60000 }
  function OfInt(i: int): Word
    requires 0 <= i < 0x80000000
  {
    i as Word
  }

  function SeedTimes(w: Word): Word { 1812433253 * w }
  function Mix1Times(w: Word): Word { w * 1664525 }
  function Mix2Times(w: Word): Word { w * 1566083941 }

  // ----- The recurrence of section 26.5.3.2 of ISO/IEC 14882:2011 -----

  /** The most significant bit of one word joined with the other bits of the next. */
  function Join(u: Word, l: Word): Word {
    Or32(Upper(u), Lower(l))
  }

  /** The product of a joined word with the twist matrix. */
  function Twist(y: Word): Word {
    (y >> 1) ^ (if y & 1 == 0 then 0 else 0x9908b0df)
  }

  function Next(far: Word, u: Word, l: Word): Word {
    Xor32(far, Twist(Join(u, l)))
  }

  /** Word `n` of the infinite sequence that starts with the 624 words `w`. */
  function X(w: seq<Word>, n: nat): Word
    requires |w| == N
  {
    if n < N then w[n] else Next(X(w, n - N + M), X(w, n - N), X(w, n - N + 1))
  }

  function Temper(y: Word): Word {
    var y1 := Xor32(y, Shr11(y));
    var y2 := Xor32(y1, Shl7Masked(y1));
    var y3 := Xor32(y2, Shl15Masked(y2));
    Xor32(y3, Shr18(y3))
  }

  // ----- Initialisation -----

  function SeedNext(prev: Word, i: Word): Word {
    Add32(SeedTimes(Xor32(prev, Shr30(prev))), i)
  }

  function SeedWord(s: Word, i: nat): Word
    requires i < N
    decreases i
  {
    if i == 0 then s else SeedNext(SeedWord(s, i - 1), OfInt(i))
  }

  /** The block that `init_genrand` leaves. */
  function SeedState(s: Word): (w: seq<Word>)
    ensures |w| == N
  {
    seq(N, i requires 0 <= i < N => SeedWord(s, i))
  }

  function Mix1(cur: Word, prev: Word, key: Word, j: Word): Word {
    Add32(Add32(Xor32(cur, Mix1Times(Xor32(prev, Shr30(prev)))), key), j)
  }

  function Mix2(cur: Word, prev: Word, i: Word): Word {
    Sub32(Xor32(cur, Mix2Times(Xor32(prev, Shr30(prev)))), i)
  }

  type Key = k: seq<Word> | 1 <= |k| < 0x80000000 witness [0]

  /** The position of step `t` in a cycle of `n`. */
  function Turn(t: nat, n: nat): (i: nat)
    requires n >= 1
    ensures i < n
  {
    t % n
  }

  /** Where step `t` of the two mixing passes writes: the slots 1..623 in turn, over and over. */
  function Slot(t: nat): (i: nat)
    ensures 1 <= i < N
  {
    1 + Turn(t, N - 1)
  }

  /** Stores at `i`, and on reaching the end copies the last word over the first. */
  function Store(m: seq<Word>, i: nat, v: Word): (m': seq<Word>)
    requires |m| == N && 1 <= i < N
    ensures |m'| == N
  {
    if i == N - 1 then m[i := v][0 := v] else m[i := v]
  }

  /** The words after `t` steps of the first mixing pass over the key. */
  function FirstPass(key: Key, t: nat): (m: seq<Word>)
    ensures |m| == N
    decreases t, 0
  {
    if t == 0 then SeedState(19650218) else Store(FirstPass(key, t - 1), Slot(t - 1), FirstWord(key, t - 1))
  }

  /** The word that step `t` of the first pass stores. */
  function FirstWord(key: Key, t: nat): Word
    decreases t, 1
  {
    var m, i, j := FirstPass(key, t), Slot(t), Turn(t, |key|);
    Mix1(m[i], m[i - 1], key[j], OfInt(j))
  }

  function FirstPassLength(key: Key): nat {
    if N > |key| then N else |key|
  }

  /** The words after `t` steps of the second pass. */
  function SecondPass(key: Key, t: nat): (m: seq<Word>)
    ensures |m| == N
    decreases t, 0
  {
    if t == 0 then
      FirstPass(key, FirstPassLength(key))
    else
      Store(SecondPass(key, t - 1), Slot(FirstPassLength(key) + t - 1), SecondWord(key, t - 1))
  }

  function SecondWord(key: Key, t: nat): Word
    decreases t, 1
  {
    var m, i := SecondPass(key, t), Slot(FirstPassLength(key) + t);
    Mix2(m[i], m[i - 1], OfInt(i))
  }

  /** The block that `init_by_array` leaves. */
  function KeyState(key: Key): (w: seq<Word>)
    ensures |w| == N
  {
    SecondPass(key, N - 1)[0 := 0x80000000]
  }

  /** After `steps` steps, each slot that has come up holds what some step stored there. */
  lemma {:induction false} SlotsAreRewritten(key: Key, steps: nat, i: nat) returns (t: nat)
    requires 1 <= i < N && i <= steps
    ensures t < steps && Slot(t) == i && FirstPass(key, steps)[i] == FirstWord(key, t)
    decreases steps
  {
    hide FirstWord, Slot;
    t := steps - 1;
    if Slot(t) != i {
      FirstSlot(t);
      t := SlotsAreRewritten(key, steps - 1, i);
    }
  }

  lemma FirstSlot(t: nat)
    ensures t < N - 1 ==> Slot(t) == t + 1
  {
    if t < N - 1 {
      FirstTurn(t, N - 1);
    }
  }

  /** The first pass rewrites every word but the first. */
  lemma FirstPassRewritesAll(key: Key, i: nat) returns (t: nat)
    requires 1 <= i < N
    ensures t < FirstPassLength(key) && Slot(t) == i
    ensures FirstPass(key, FirstPassLength(key))[i] == FirstWord(key, t)
  {
    hide FirstPass, FirstWord;
    t := SlotsAreRewritten(key, FirstPassLength(key), i);
  }

  lemma {:induction false} SameSoFar(key: Key, key': Key, t: nat)
    requires |key| == |key'| && t <= |key| && key[..t] == key'[..t]
    ensures FirstPass(key, t) == FirstPass(key', t)
  {
    hide Mix1, Turn, SeedState, Store, OfInt;
    if t > 0 {
      assert key[..t - 1] == key[..t][..t - 1] && key'[..t - 1] == key'[..t][..t - 1];
      assert key[t - 1] == key[..t][t - 1] && key'[t - 1] == key'[..t][t - 1];
      SameSoFar(key, key', t - 1);
      FirstTurn(t - 1, |key|);
    }
  }

  lemma Mix1UsesKey(cur: Word, prev: Word, k: Word, k': Word, j: Word)
    requires Mix1(cur, prev, k, j) == Mix1(cur, prev, k', j)
    ensures k == k'
  {
    hide Mix1Times, Shr30, Xor32, Add32;
    var mixed := Xor32(cur, Mix1Times(Xor32(prev, Shr30(prev))));
    SumsCancel(Add32(mixed, k), Add32(mixed, k'), j);
    SumsCancel(k, k', mixed);
  }

  lemma SumLosesNothing(a: Word, b: Word)
    ensures Sub32(Add32(a, b), b) == a
    ensures Add32(a, b) == Add32(b, a)
  {
  }

  lemma SumsCancel(a: Word, b: Word, c: Word)
    ensures Add32(a, c) == Add32(b, c) ==> a == b
    ensures Add32(c, a) == Add32(c, b) ==> a == b
  {
    hide *;
    SumLosesNothing(a, c);
    SumLosesNothing(b, c);
  }

  /** Every word of the key is used, and within the first pass: at the place where two keys first differ, so do the words stored. */
  lemma KeyWordMatters(key: Key, key': Key, j: nat)
    requires |key| == |key'| && j < |key| && key[..j] == key'[..j] && key[j] != key'[j]
    ensures j < FirstPassLength(key) && FirstPass(key, j) == FirstPass(key', j)
    ensures FirstWord(key, j) != FirstWord(key', j)
  {
    hide Mix1, Turn, FirstPass, OfInt;
    SameSoFar(key, key', j);
    FirstTurn(j, |key|);
    var m, i := FirstPass(key, j), Slot(j);
    if FirstWord(key, j) == FirstWord(key', j) {
      Mix1UsesKey(m[i], m[i - 1], key[j], key'[j], OfInt(j));
    }
  }

  lemma FirstTurn(t: nat, n: nat)
    requires t < n
    ensures Turn(t, n) == t
  {
  }

  // ----- Tempering loses nothing -----

  lemma Shr11IsLinear(a: Word, b: Word)
    ensures Xor32(Shr11(Xor32(a, b)), Xor32(Shr11(a), Shr11(b))) == 0
  {
  }

  lemma Shr18IsLinear(a: Word, b: Word)
    ensures Xor32(Shr18(Xor32(a, b)), Xor32(Shr18(a), Shr18(b))) == 0
  {
  }

  lemma Shl7IsLinear(a: Word, b: Word)
    ensures Xor32(Shl7Masked(Xor32(a, b)), Xor32(Shl7Masked(a), Shl7Masked(b))) == 0
  {
  }

  lemma Shl15IsLinear(a: Word, b: Word)
    ensures Xor32(Shl15Masked(Xor32(a, b)), Xor32(Shl15Masked(a), Shl15Masked(b))) == 0
  {
  }

  lemma ShiftsRunOut(a: Word)
    ensures Shr11(Shr11(Shr11(a))) == 0 && Shr18(Shr18(a)) == 0
    ensures Shl7Masked(Shl7Masked(Shl7Masked(Shl7Masked(Shl7Masked(a))))) == 0
    ensures Shl15Masked(Shl15Masked(Shl15Masked(a))) == 0
  {
  }

  /** If `a ^ s == b ^ t` then the differences `a ^ b` and `s ^ t` agree. */
  lemma DifferencesAgree(a: Word, s: Word, b: Word, t: Word)
    requires Xor32(a, s) == Xor32(b, t)
    ensures Xor32(a, b) == Xor32(s, t)
  {
    hide Xor32;
    XorPairs(a, s, b, t);
    XorCancels(Xor32(a, s), Xor32(b, t));
    XorCancels(Xor32(a, b), Xor32(s, t));
  }

  /** A difference that a shift maps to itself is a difference of zero, because shifts run out. */
  lemma Shr11StepIsInjective(a: Word, b: Word)
    requires Xor32(a, Shr11(a)) == Xor32(b, Shr11(b))
    ensures a == b
  {
    hide Xor32, Shr11, Shr18, Shl7Masked, Shl15Masked;
    var d := Xor32(a, b);
    DifferencesAgree(a, Shr11(a), b, Shr11(b));
    Shr11IsLinear(a, b);
    XorCancels(Shr11(d), Xor32(Shr11(a), Shr11(b)));
    ShiftsRunOut(d);
    XorCancels(a, b);
  }

  lemma Shr18StepIsInjective(a: Word, b: Word)
    requires Xor32(a, Shr18(a)) == Xor32(b, Shr18(b))
    ensures a == b
  {
    hide Xor32, Shr11, Shr18, Shl7Masked, Shl15Masked;
    var d := Xor32(a, b);
    DifferencesAgree(a, Shr18(a), b, Shr18(b));
    Shr18IsLinear(a, b);
    XorCancels(Shr18(d), Xor32(Shr18(a), Shr18(b)));
    ShiftsRunOut(d);
    XorCancels(a, b);
  }

  lemma Shl7StepIsInjective(a: Word, b: Word)
    requires Xor32(a, Shl7Masked(a)) == Xor32(b, Shl7Masked(b))
    ensures a == b
  {
    hide Xor32, Shr11, Shr18, Shl7Masked, Shl15Masked;
    var d := Xor32(a, b);
    DifferencesAgree(a, Shl7Masked(a), b, Shl7Masked(b));
    Shl7IsLinear(a, b);
    XorCancels(Shl7Masked(d), Xor32(Shl7Masked(a), Shl7Masked(b)));
    ShiftsRunOut(d);
    XorCancels(a, b);
  }

  lemma Shl15StepIsInjective(a: Word, b: Word)
    requires Xor32(a, Shl15Masked(a)) == Xor32(b, Shl15Masked(b))
    ensures a == b
  {
    hide Xor32, Shr11, Shr18, Shl7Masked, Shl15Masked;
    var d := Xor32(a, b);
    DifferencesAgree(a, Shl15Masked(a), b, Shl15Masked(b));
    Shl15IsLinear(a, b);
    XorCancels(Shl15Masked(d), Xor32(Shl15Masked(a), Shl15Masked(b)));
    ShiftsRunOut(d);
    XorCancels(a, b);
  }

  /** Distinct words are tempered into distinct outputs. */
  lemma TemperIsInjective(a: Word, b: Word)
    requires Temper(a) == Temper(b)
    ensures a == b
  {
    hide Xor32, Shr11, Shr18, Shl7Masked, Shl15Masked;
    var a1, b1 := Xor32(a, Shr11(a)), Xor32(b, Shr11(b));
    var a2, b2 := Xor32(a1, Shl7Masked(a1)), Xor32(b1, Shl7Masked(b1));
    var a3, b3 := Xor32(a2, Shl15Masked(a2)), Xor32(b2, Shl15Masked(b2));
    Shr18StepIsInjective(a3, b3);
    Shl15StepIsInjective(a2, b2);
    Shl7StepIsInjective(a1, b1);
    Shr11StepIsInjective(a, b);
  }

  // ----- The state transition is reversible -----

  lemma TwistIsInjective(a: Word, b: Word)
    requires Twist(a) == Twist(b)
    ensures a == b
  {
  }

  lemma JoinKeepsUpper(u: Word, l: Word)
    ensures Upper(Join(u, l)) == Upper(u)
  {
  }

  lemma JoinKeepsLower(u: Word, l: Word)
    ensures Lower(Join(u, l)) == Lower(l)
  {
  }

  lemma UpperAndLowerAreAll(a: Word, b: Word)
    requires Upper(a) == Upper(b) && Lower(a) == Lower(b)
    ensures a == b
  {
    OrOfHalves(a);
    OrOfHalves(b);
  }

  lemma OrOfHalves(a: Word)
    ensures Or32(Upper(a), Lower(a)) == a
  {
  }

  /** The word `i` places after place `n` of the run that starts with `w`. */
  function At(w: seq<Word>, n: nat, i: nat): Word
    requires |w| == N
  {
    X(w, n + i)
  }

  /** Two runs stand in the same state: the 19937 bits that later words depend on agree. */
  ghost predicate SameState(w: seq<Word>, n: nat, w': seq<Word>, n': nat)
    requires |w| == N && |w'| == N
  {
    && Upper(X(w, n)) == Upper(X(w', n'))
    && forall i :: 1 <= i < N ==> At(w, n, i) == At(w', n', i)
  }

  lemma XFollowsRecurrence(w: seq<Word>, n: nat)
    requires |w| == N
    ensures X(w, n + N) == Next(At(w, n, M), X(w, n), At(w, n, 1))
  {
    hide Next;
  }

  lemma StepForward(w: seq<Word>, n: nat, w': seq<Word>, n': nat)
    requires |w| == N && |w'| == N
    requires SameState(w, n, w', n')
    ensures SameState(w, n + 1, w', n' + 1)
  {
    hide X, Upper, Next;
    XFollowsRecurrence(w, n);
    XFollowsRecurrence(w', n');
    NextUsesUpperBit(At(w, n, M), X(w, n), X(w', n'), At(w, n, 1));
    var m, m' := n + 1, n' + 1;
    forall i | 1 <= i < N ensures At(w, m, i) == At(w', m', i) {
      if i < N - 1 {
        assert At(w, n, i + 1) == At(w', n', i + 1);
      }
    }
    assert At(w, n, 1) == At(w', n', 1);
  }

  lemma StepBackward(w: seq<Word>, n: nat, w': seq<Word>, n': nat)
    requires |w| == N && |w'| == N
    requires SameState(w, n + 1, w', n' + 1)
    ensures SameState(w, n, w', n')
  {
    hide X, Upper, Next;
    XFollowsRecurrence(w, n);
    XFollowsRecurrence(w', n');
    forall i | 2 <= i <= N ensures At(w, n, i) == At(w', n', i) {
      assert At(w, n + 1, i - 1) == At(w', n' + 1, i - 1);
    }
    assert At(w, n, N) == At(w', n', N);
    NextIsReversible(At(w, n, M), X(w, n), At(w, n, 1), X(w', n'), At(w', n', 1));
  }

  /** A state determines the next one, and the next one determines it. */
  lemma StepIsReversible(w: seq<Word>, n: nat, w': seq<Word>, n': nat)
    requires |w| == N && |w'| == N
    ensures SameState(w, n, w', n') <==> SameState(w, n + 1, w', n' + 1)
  {
    hide SameState;
    if SameState(w, n, w', n') {
      StepForward(w, n, w', n');
    }
    if SameState(w, n + 1, w', n' + 1) {
      StepBackward(w, n, w', n');
    }
  }

  lemma NextUsesUpperBit(far: Word, u: Word, u': Word, l: Word)
    requires Upper(u) == Upper(u')
    ensures Next(far, u, l) == Next(far, u', l)
  {
    hide Upper, Lower, Xor32, Twist, Or32;
  }

  lemma NextIsReversible(far: Word, u: Word, l: Word, u': Word, l': Word)
    requires Next(far, u, l) == Next(far, u', l')
    requires Upper(l) == Upper(l')
    ensures Upper(u) == Upper(u') && l == l'
  {
    hide Upper, Lower, Join, Xor32, Twist;
    XorIsInjective(far, Twist(Join(u, l)), Twist(Join(u', l')));
    TwistIsInjective(Join(u, l), Join(u', l'));
    JoinKeepsUpper(u, l);
    JoinKeepsUpper(u', l');
    JoinKeepsLower(u, l);
    JoinKeepsLower(u', l');
    UpperAndLowerAreAll(l, l');
  }

  lemma {:induction false} SameStateForever(w: seq<Word>, n: nat, w': seq<Word>, n': nat, k: nat)
    requires |w| == N && |w'| == N
    ensures SameState(w, n, w', n') <==> SameState(w, n + k, w', n' + k)
  {
    if k > 0 {
      hide SameState;
      SameStateForever(w, n, w', n', k - 1);
      StepIsReversible(w, n + (k - 1), w', n' + (k - 1));
    }
  }

  /**
   * 624 consecutive outputs fix the run. Two runs that agree on them agree at every later place,
   * and at every earlier one too, short of the very first word of either run (of which only the
   * most significant bit is ever used).
   */
  lemma OutputsFixTheRun(w: seq<Word>, n: nat, w': seq<Word>, n': nat)
    requires |w| == N && |w'| == N
    requires forall i :: 0 <= i < N ==> Temper(At(w, n, i)) == Temper(At(w', n', i))
    ensures forall m: nat, m': nat | m - n == m' - n' && (m >= n || (m > 0 && m' > 0)) :: X(w, m) == X(w', m')
  {
    hide X, Temper, Upper;
    forall i | 0 <= i < N ensures At(w, n, i) == At(w', n', i) {
      TemperIsInjective(At(w, n, i), At(w', n', i));
    }
    assert At(w, n, 0) == At(w', n', 0);
    forall m: nat, m': nat | m - n == m' - n' && (m >= n || (m > 0 && m' > 0)) ensures X(w, m) == X(w', m') {
      if m > n {
        SameStateForever(w, n, w', n', m - n - 1);
        assert At(w, m - 1, 1) == At(w', m' - 1, 1);
      } else if m < n {
        SameStateForever(w, m - 1, w', m' - 1, n - m + 1);
        assert At(w, m - 1, 1) == At(w', m' - 1, 1);
      }
    }
  }

  // ----- The all-zero state is never reached -----

  /** All 19937 bits of the state at `n` are zero. */
  ghost predicate ZeroState(w: seq<Word>, n: nat)
    requires |w| == N
  {
    && Upper(X(w, n)) == 0
    && forall i :: 1 <= i < N ==> At(w, n, i) == 0
  }

  function Zeros(): (w: seq<Word>)
    ensures |w| == N
  {
    seq(N, i => 0)
  }

  lemma {:induction false} ZerosStayZero(n: nat)
    ensures X(Zeros(), n) == 0
  {
    if n >= N {
      hide X;
      ZerosStayZero(n - N);
      ZerosStayZero(n - N + 1);
      ZerosStayZero(n - N + M);
      XFollowsRecurrence(Zeros(), n - N);
      NextOfZeros();
    }
  }

  lemma NextOfZeros()
    ensures Next(0, 0, 0) == 0
    ensures Upper(0) == 0
  {
  }

  /** A zero state anywhere in a run means the run started in the zero state. */
  lemma ZeroStateIsOriginal(w: seq<Word>, n: nat)
    requires |w| == N
    ensures ZeroState(w, n) <==> ZeroState(w, 0)
  {
    ZeroStateIsZerosState(w, n);
    ZeroStateIsZerosState(w, 0);
    hide SameState, ZeroState;
    SameStateForever(w, 0, Zeros(), 0, n);
  }

  lemma ZeroStateIsZerosState(w: seq<Word>, n: nat)
    requires |w| == N
    ensures ZeroState(w, n) <==> SameState(w, n, Zeros(), n)
  {
    hide X, Upper;
    NextOfZeros();
    ZerosStayZero(n);
    forall i: nat ensures At(Zeros(), n, i) == 0 {
      ZerosStayZero(n + i);
    }
  }

  lemma SeedNextOfZero(i: Word)
    ensures SeedNext(0, i) == i
  {
  }

  /** After `init_genrand`, whatever the seed, no state of the run is all zero. */
  lemma SeededRunIsNeverZero(s: Word, n: nat)
    ensures !ZeroState(SeedState(s), n)
  {
    hide SeedNext, Upper, X, SeedState;
    var w := SeedState(s);
    ZeroStateIsOriginal(w, n);
    SecondAndThirdWord(s);
    SeedNextOfZero(2);
    assert At(w, 0, 1) == X(w, 1) && At(w, 0, 2) == X(w, 2);
  }

  lemma SecondAndThirdWord(s: Word)
    ensures X(SeedState(s), 2) == SeedNext(X(SeedState(s), 1), 2)
  {
    hide SeedNext;
    assert SeedState(s)[1] == SeedWord(s, 1) && SeedState(s)[2] == SeedWord(s, 2);
  }

  /** After `init_by_array`, whatever the key, no state of the run is all zero. */
  lemma KeyedRunIsNeverZero(key: Key, n: nat)
    ensures !ZeroState(KeyState(key), n)
  {
    ZeroStateIsOriginal(KeyState(key), n);
    hide SecondPass;
    assert X(KeyState(key), 0) == 0x80000000;
  }
}
