/** What the CRC-32 register computes: a GF(2) remainder that changes under every short burst of errors. */
module Crc32Theory {
  import opened Gf2
  import opened Crc32
  import opened Words
  import opened Binary

  /** The exponents of the generator polynomial of section 3.4 of RFC 2083. */
  const EXPONENTS: set<int> := {32, 26, 23, 22, 16, 12, 11, 10, 8, 7, 5, 4, 2, 1, 0}

  const GENERATOR: Poly := seq(33, i => 32 - i in EXPONENTS)

  // ----- Words as polynomials -----

  /** The coefficients of x^31 down to x^0, four at a time. */
  const LOWER_COEFFICIENTS: Poly :=
    [false, false, false, false] + (
      [false, true, false, false] + (
      [true, true, false, false] + (
      [false, false, false, true] + (
      [false, false, false, true] + (
      [true, true, false, true] + (
      [true, false, true, true] + [false, true, true, true]))))))

  lemma PolynomialBits()
    ensures WordBits(POLYNOMIAL, 32) == LOWER_COEFFICIENTS
  {
    hide WordBits;
    NibbleBits(0xEDB88320, 0xEDB8832, [false, false, false, false], 28);
    NibbleBits(0xEDB8832, 0xEDB883, [false, true, false, false], 24);
    NibbleBits(0xEDB883, 0xEDB88, [true, true, false, false], 20);
    NibbleBits(0xEDB88, 0xEDB8, [false, false, false, true], 16);
    NibbleBits(0xEDB8, 0xEDB, [false, false, false, true], 12);
    NibbleBits(0xEDB, 0xED, [true, true, false, true], 8);
    NibbleBits(0xED, 0xE, [true, false, true, true], 4);
    NibbleBits(0xE, 0x0, [false, true, true, true], 0);
    assert WordBits(0, 0) == [] && [false, true, true, true] + [] == [false, true, true, true];
  }

  /** The reflected constant in the source spells the standard generator, lowest bit first. */
  lemma PolynomialIsGenerator()
    ensures GENERATOR == [true] + WordBits(POLYNOMIAL, 32)
  {
    PolynomialBits();
    hide WordBits;
    var expected := [true] + LOWER_COEFFICIENTS;
    assert forall i :: 0 <= i < 33 ==> (expected[i] <==> 32 - i in EXPONENTS);
  }

  /** A register step is one step of long division: multiply by x, and subtract the generator if the leading bit was set. */
  lemma StepOnBits(c: Word)
    ensures var shifted := WordBits(c, 32)[1..] + [false];
            WordBits(Step(c), 32) == if LowBit(c) then Xor(WordBits(POLYNOMIAL, 32), shifted) else shifted
  {
    hide Xor32, LowBit, Half;
    WordFits(c);
    FittingWordBits(Half(c), 31);
    WordBitsOfXor(POLYNOMIAL, Half(c), 32);
  }

  // ----- The register divides -----

  /** The bits followed by 32 zeros, with the register's start value added to the leading 32 coefficients. */
  function Dividend(c: Word, bits: seq<bool>): (p: Poly)
    ensures |p| == |bits| + 32
  {
    Xor(bits + Zeros(32), WordBits(c, 32) + Zeros(|bits|))
  }

  lemma BitIntoRegister(c: Word, b: bool)
    ensures WordBits(Xor32(c, BitWord(b)), 32) == [b != LowBit(c)] + WordBits(c, 32)[1..]
  {
    hide Xor32, LowBit, Half;
    LowBitOfXor(c, BitWord(b));
    HalfOfXor(c, BitWord(b));
    assert LowBit(BitWord(b)) == b && Half(BitWord(b)) == 0 by {
      LowBitOfBit(b);
    }
    XorZero(Half(c));
  }

  lemma {:induction false} RegisterDivides(c: Word, bits: seq<bool>) returns (q: Poly)
    ensures DividesInto(Dividend(c, bits), GENERATOR, q, WordBits(Register(c, bits), 32))
    decreases bits
  {
    hide Step, Xor32, LowBit, Half, BitWord, WordBits, Mul;
    if bits == [] {
      q := [];
      EmptyQuotient(Dividend(c, bits), WordBits(c, 32));
    } else {
      var x := Xor32(c, BitWord(bits[0]));
      var q' := RegisterDivides(Step(x), bits[1..]);
      q := [LowBit(x)] + q';
      DividendStep(c, bits);
      assert q[1..] == q';
      QuotientTail(Dividend(c, bits), GENERATOR, q, WordBits(Register(c, bits), 32));
    }
  }

  lemma EmptyQuotient(p: Poly, r: Poly)
    requires |p| == |r| == 32 && p == Xor([] + Zeros(32), r + Zeros(0))
    ensures DividesInto(p, GENERATOR, [], r)
  {
    assert forall i :: 0 <= i < 32 ==> p[i] == r[i];
    assert forall i :: 0 <= i < 32 ==> p[i] == Xor(Mul([], GENERATOR), Zeros(0) + r)[i];
  }

  lemma DividendStep(c: Word, bits: seq<bool>)
    requires bits != []
    ensures var x := Xor32(c, BitWord(bits[0]));
            var p := Dividend(c, bits);
            p[0] == LowBit(x) &&
            Dividend(Step(x), bits[1..]) ==
            if LowBit(x) then Xor(p, GENERATOR + Zeros(|bits| - 1))[1..] else p[1..]
  {
    hide Step, Xor32, LowBit, Half, BitWord, WordBits;
    var x, p := Xor32(c, BitWord(bits[0])), Dividend(c, bits);
    BitIntoRegister(c, bits[0]);
    LowBitIsFirst(x);
    LowBitIsFirst(c);
    StepOnBits(x);
    PolynomialIsGenerator();
    assert forall i :: 0 <= i < 32 ==> GENERATOR[i + 1] == WordBits(POLYNOMIAL, 32)[i];
    assert WordBits(x, 32)[1..] == WordBits(c, 32)[1..];
    var p' := Dividend(Step(x), bits[1..]);
    var expected := if LowBit(x) then Xor(p, GENERATOR + Zeros(|bits| - 1))[1..] else p[1..];
    hide Dividend;
    DividendAt(c, bits, 0);
    forall i | 0 <= i < |p'| ensures p'[i] == expected[i] {
      DividendAt(c, bits, i + 1);
      DividendAt(Step(x), bits[1..], i);
    }
  }

  lemma DividendAt(c: Word, bits: seq<bool>, i: nat)
    requires i < |bits| + 32
    ensures Dividend(c, bits)[i] == ((i < |bits| && bits[i]) != (i < 32 && WordBits(c, 32)[i]))
  {
    hide WordBits;
  }

  lemma LowBitIsFirst(w: Word)
    ensures WordBits(w, 32)[0] == LowBit(w)
  {
  }

  // ----- The CRC is a remainder -----

  function Complement(p: Poly): Poly {
    Xor(p, Ones(|p|))
  }

  /** The buffer as a polynomial times x^32, with its leading 32 coefficients complemented (the all-ones preset). */
  function Message(buffer: seq<Byte>): Poly {
    Xor(Bits(buffer) + Zeros(32), Ones(32) + Zeros(8 * |buffer|))
  }

  lemma AllOnesBits()
    ensures WordBits(ALL_ONES, 32) == Ones(32)
  {
    hide WordBits;
    FourBits(0xFFFFFFFF, 28);
    FourBits(0xFFFFFFF, 24);
    FourBits(0xFFFFFF, 20);
    FourBits(0xFFFFF, 16);
    FourBits(0xFFFF, 12);
    FourBits(0xFFF, 8);
    FourBits(0xFF, 4);
    FourBits(0xF, 0);
  }

  /** The CRC is the complement of the one remainder that the preset message leaves modulo the generator. */
  lemma CrcIsRemainder(buffer: seq<Byte>, r: Poly)
    ensures IsRemainder(Message(buffer), GENERATOR, r) <==> r == Complement(WordBits(Crc(buffer), 32))
  {
    hide Step, Xor32, WordBits, Mul, Register, Bits;
    AllOnesBits();
    var final := Register(ALL_ONES, Bits(buffer));
    var q := RegisterDivides(ALL_ONES, Bits(buffer));
    WordBitsOfXor(final, ALL_ONES, 32);
    assert Complement(WordBits(Crc(buffer), 32)) == WordBits(final, 32);
    if IsRemainder(Message(buffer), GENERATOR, r) {
      var q' :| DividesInto(Message(buffer), GENERATOR, q', r);
      DivisionIsUnique(Message(buffer), GENERATOR, q, WordBits(final, 32), q', r);
    }
  }

  // ----- Linearity, and exactly which errors go unnoticed -----

  lemma {:induction false} RegisterIsLinear(c: Word, d: Word, a: seq<bool>, b: seq<bool>)
    requires |a| == |b|
    ensures Register(Xor32(c, d), Xor(a, b)) == Xor32(Register(c, a), Register(d, b))
    decreases a
  {
    hide Step, Xor32, BitWord;
    if a != [] {
      var x, y := BitWord(a[0]), BitWord(b[0]);
      assert Xor(a, b)[1..] == Xor(a[1..], b[1..]);
      XorOfBits(a[0], b[0]);
      XorPairs(c, d, x, y);
      StepIsLinear(Xor32(c, x), Xor32(d, y));
      RegisterIsLinear(Step(Xor32(c, x)), Step(Xor32(d, y)), a[1..], b[1..]);
    }
  }

  /** Two buffers of one length collide exactly when their difference, times x^32, is a multiple of the generator. */
  lemma CollisionIffMultiple(a: seq<Byte>, b: seq<Byte>)
    requires |a| == |b|
    ensures Crc(a) == Crc(b) <==>
            exists q: Poly :: |q| == 8 * |a| && Mul(q, GENERATOR) == Xor(Bits(a), Bits(b)) + Zeros(32)
  {
    hide Step, Xor32, WordBits, Mul, Register, Bits, Fits;
    var d := Xor(Bits(a), Bits(b));
    var r := Register(0, d);
    ZeroWordBits(32);
    RegisterIsLinear(ALL_ONES, ALL_ONES, Bits(a), Bits(b));
    XorCancels(ALL_ONES, ALL_ONES);
    XorCancels(Register(ALL_ONES, Bits(a)), Register(ALL_ONES, Bits(b)));
    if Crc(a) == Crc(b) {
      XorIsInjective(ALL_ONES, Register(ALL_ONES, Bits(a)), Register(ALL_ONES, Bits(b)));
    }
    assert Crc(a) == Crc(b) <==> r == 0;
    var q := RegisterDivides(0, d);
    PlainDividend(d);
    if r == 0 {
      MultipleIffZeroRemainder(d, q);
    }
    forall q' | |q'| == 8 * |a| && Mul(q', GENERATOR) == d + Zeros(32) ensures r == 0 {
      MultipleIffZeroRemainder(d, q');
      DivisionIsUnique(d + Zeros(32), GENERATOR, q, WordBits(r, 32), q', Zeros(32));
      WordFits(r);
      WordBitsAreInjective(r, 0, 32);
    }
  }

  lemma PlainDividend(d: seq<bool>)
    ensures Dividend(0, d) == d + Zeros(32)
  {
    ZeroWordBits(32);
  }

  lemma MultipleIffZeroRemainder(d: seq<bool>, q: Poly)
    requires |q| == |d|
    ensures DividesInto(d + Zeros(32), GENERATOR, q, Zeros(32)) <==> Mul(q, GENERATOR) == d + Zeros(32)
  {
    hide Mul;
    var m := Mul(q, GENERATOR);
    assert Xor(m, Zeros(|q|) + Zeros(32)) == m;
  }

  // ----- Error detection -----

  lemma {:induction false} RegisterOfConcat(c: Word, a: seq<bool>, b: seq<bool>)
    ensures Register(c, a + b) == Register(Register(c, a), b)
    decreases a
  {
    hide Step, Xor32, BitWord;
    if a == [] {
      assert a + b == b;
    } else {
      assert (a + b)[1..] == a[1..] + b;
      RegisterOfConcat(Step(Xor32(c, BitWord(a[0]))), a[1..], b);
    }
  }

  lemma {:induction false} RegisterIsInjective(c: Word, d: Word, bits: seq<bool>)
    requires Register(c, bits) == Register(d, bits)
    ensures c == d
    decreases bits
  {
    hide Step, Xor32, BitWord;
    if bits != [] {
      var x := BitWord(bits[0]);
      RegisterIsInjective(Step(Xor32(c, x)), Step(Xor32(d, x)), bits[1..]);
      StepIsInjective(Xor32(c, x), Xor32(d, x));
      XorIsInjective(x, c, d);
    }
  }

  /** The word whose low bits are the given ones. */
  function Pack(bits: seq<bool>): Word {
    if bits == [] then 0 else Xor32(BitWord(bits[0]), Double(Pack(bits[1..])))
  }

  lemma {:induction false} FitsMore(w: Word, n: nat, m: nat)
    requires Fits(w, n) && n <= m
    ensures Fits(w, m)
    decreases n
  {
    hide Half;
    if n == 0 {
      ZeroWordBits(m);
    } else {
      FitsMore(Half(w), n - 1, m - 1);
    }
  }

  lemma HalvingBy31(w: Word)
    requires Fits(w, 31)
    ensures w & 0x80000000 == 0
  {
    hide Fits, Half8;
    HalvesFit(w, 23);
    HalvesFit(Half8(w), 15);
    HalvesFit(Half8(Half8(w)), 7);
    SevenHalvesFit(Half8(Half8(Half8(w))));
    TopBitIsLast(w);
  }

  lemma TopBitIsLast(w: Word)
    requires Half8(Half8(Half8(w))) >> 7 == 0
    ensures w & 0x80000000 == 0
  {
  }

  lemma HalfFits(w: Word, n: nat)
    requires Fits(w, n + 1)
    ensures Fits(Half(w), n)
  {
  }

  lemma SevenHalvesFit(w: Word)
    requires Fits(w, 7)
    ensures w >> 7 == 0
  {
    assert Half(Half(Half(Half(Half(Half(Half(w))))))) == w >> 7;
    hide Half, Fits;
    HalfFits(w, 6);
    HalfFits(Half(w), 5);
    HalfFits(Half(Half(w)), 4);
    HalfFits(Half(Half(Half(w))), 3);
    HalfFits(Half(Half(Half(Half(w)))), 2);
    HalfFits(Half(Half(Half(Half(Half(w))))), 1);
    HalfFits(Half(Half(Half(Half(Half(Half(w)))))), 0);
    FitsNothing(Half(Half(Half(Half(Half(Half(Half(w))))))));
  }

  lemma FitsNothing(w: Word)
    requires Fits(w, 0)
    ensures w == 0
  {
  }

  lemma HalvesFit(w: Word, n: nat)
    requires Fits(w, n + 8)
    ensures Fits(Half8(w), n)
  {
    HalfEightTimes(w);
    hide Half, Half8, Fits;
    HalfFits(w, n + 7);
    HalfFits(Half(w), n + 6);
    HalfFits(Half(Half(w)), n + 5);
    HalfFits(Half(Half(Half(w))), n + 4);
    HalfFits(Half(Half(Half(Half(w)))), n + 3);
    HalfFits(Half(Half(Half(Half(Half(w))))), n + 2);
    HalfFits(Half(Half(Half(Half(Half(Half(w)))))), n + 1);
    HalfFits(Half(Half(Half(Half(Half(Half(Half(w))))))), n);
  }

  lemma {:induction false} PackRoundTrip(bits: seq<bool>)
    requires |bits| <= 32
    ensures Fits(Pack(bits), |bits|)
    ensures WordBits(Pack(bits), |bits|) == bits
  {
    hide Xor32, BitWord, Double, Half, LowBit;
    if bits != [] {
      var w := Pack(bits[1..]);
      PackRoundTrip(bits[1..]);
      FitsMore(w, |bits| - 1, 31);
      HalvingBy31(w);
      LowBitOfXor(BitWord(bits[0]), Double(w));
      HalfOfXor(BitWord(bits[0]), Double(w));
      LowBitOfBit(bits[0]);
      DoubleIsEven(w);
      HalfOfDouble(w);
      ZeroXor(w);
    }
  }

  lemma ZeroXor(c: Word)
    ensures Xor32(0, c) == c
  {
  }

  /** Thirty-two bits or fewer fill the register reversibly. */
  lemma WindowIsInjective(c: Word, a: seq<bool>, b: seq<bool>)
    requires |a| == |b| <= 32
    requires Register(c, a) == Register(c, b)
    ensures a == b
  {
    hide Step, Xor32, Register, Fits;
    PackRoundTrip(a);
    PackRoundTrip(b);
    RegisterOfWord(c, Pack(a), |a|, []);
    RegisterOfWord(c, Pack(b), |a|, []);
    assert a + [] == a && b + [] == b;
    NothingShiftedIn(Steps(Xor32(c, Pack(a)), |a|));
    NothingShiftedIn(Steps(Xor32(c, Pack(b)), |a|));
    StepsAreInjective(Xor32(c, Pack(a)), Xor32(c, Pack(b)), |a|);
    XorIsInjective(c, Pack(a), Pack(b));
  }

  lemma NothingShiftedIn(c: Word)
    ensures Register(c, []) == c
  {
  }

  lemma {:induction false} BitsAreInjective(a: seq<Byte>, b: seq<Byte>)
    requires |a| == |b| && Bits(a) == Bits(b)
    ensures a == b
  {
    hide WordBits;
    if a != [] {
      assert Bits(a)[..8] == WordBits(a[0] as Word, 8) && Bits(a)[8..] == Bits(a[1..]);
      assert Bits(b)[..8] == WordBits(b[0] as Word, 8) && Bits(b)[8..] == Bits(b[1..]);
      ByteFits(a[0]);
      ByteFits(b[0]);
      WordBitsAreInjective(a[0] as Word, b[0] as Word, 8);
      BitsAreInjective(a[1..], b[1..]);
    }
  }

  /** Every burst is noticed: distinct buffers whose bits differ only within 32 consecutive positions have distinct CRCs. */
  lemma DetectsBursts(a: seq<Byte>, b: seq<Byte>, from: nat, to: nat)
    requires |a| == |b| && a != b
    requires from <= to <= from + 32 && to <= 8 * |a|
    requires Bits(a)[..from] == Bits(b)[..from]
    requires Bits(a)[to..] == Bits(b)[to..]
    ensures Crc(a) != Crc(b)
  {
    hide Step, Xor32, Register, Bits;
    if Crc(a) == Crc(b) {
      var s, t := Bits(a), Bits(b);
      XorIsInjective(ALL_ONES, Register(ALL_ONES, s), Register(ALL_ONES, t));
      SplitRegister(ALL_ONES, s, from, to);
      SplitRegister(ALL_ONES, t, from, to);
      var c := Register(ALL_ONES, s[..from]);
      RegisterIsInjective(Register(c, s[from..to]), Register(c, t[from..to]), s[to..]);
      WindowIsInjective(c, s[from..to], t[from..to]);
      assert s == s[..from] + s[from..to] + s[to..];
      assert t == t[..from] + t[from..to] + t[to..];
      BitsAreInjective(a, b);
    }
  }

  lemma SplitRegister(c: Word, s: seq<bool>, from: nat, to: nat)
    requires from <= to <= |s|
    ensures Register(c, s) == Register(Register(Register(c, s[..from]), s[from..to]), s[to..])
  {
    hide Register;
    assert s == s[..from] + (s[from..to] + s[to..]);
    RegisterOfConcat(c, s[..from], s[from..to] + s[to..]);
    RegisterOfConcat(Register(c, s[..from]), s[from..to], s[to..]);
  }

  lemma {:induction false} BitsOfConcat(a: seq<Byte>, b: seq<Byte>)
    ensures Bits(a + b) == Bits(a) + Bits(b)
  {
    hide WordBits;
    if a == [] {
      assert a + b == b;
    } else {
      assert (a + b)[1..] == a[1..] + b;
      BitsOfConcat(a[1..], b);
    }
  }

  /** The byte form: changes confined to four consecutive bytes are always noticed. */
  lemma DetectsFourByteWindows(a: seq<Byte>, b: seq<Byte>, from: nat, to: nat)
    requires |a| == |b| && a != b
    requires from <= to <= from + 4 && to <= |a|
    requires a[..from] == b[..from] && a[to..] == b[to..]
    ensures Crc(a) != Crc(b)
  {
    hide Crc, Bits;
    forall s: seq<Byte> | s == a || s == b
      ensures Bits(s)[..8 * from] == Bits(s[..from]) && Bits(s)[8 * to..] == Bits(s[to..])
    {
      BitsOfConcat(s[..from], s[from..]);
      BitsOfConcat(s[..to], s[to..]);
      assert s == s[..from] + s[from..] == s[..to] + s[to..];
    }
    DetectsBursts(a, b, 8 * from, 8 * to);
  }
}
