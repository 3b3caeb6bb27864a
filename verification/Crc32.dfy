/** The CRC-32 of `CyclicRedundancyCheck.cpp` as a shift register, and the table-driven form that the source runs. */
module Crc32 {
  import opened Words
  import opened Binary

  type Byte = bv8

  const POLYNOMIAL: Word := 0xEDB88320
  const ALL_ONES: Word := 0xFFFFFFFF

  // ----- The bit-serial register -----

  /** One step of the shift register. */
  function Step(c: Word): Word {
    if LowBit(c) then Xor32(POLYNOMIAL, Half(c)) else Half(c)
  }

  function Steps(c: Word, n: nat): Word
    decreases n
  {
    if n == 0 then c else Steps(Step(c), n - 1)
  }

  /** The register after the bits have been shifted in one at a time. */
  function Register(c: Word, bits: seq<bool>): Word
    decreases bits
  {
    if bits == [] then c else Register(Step(Xor32(c, BitWord(bits[0]))), bits[1..])
  }

  /** A buffer as a bit stream: each byte least significant bit first. */
  function Bits(buffer: seq<Byte>): (bits: seq<bool>)
    ensures |bits| == 8 * |buffer|
  {
    if buffer == [] then [] else WordBits(buffer[0] as Word, 8) + Bits(buffer[1..])
  }

  /** CRC-32 bit by bit: all-ones preset, complemented at the end. */
  function Crc(buffer: seq<Byte>): Word {
    Xor32(Register(ALL_ONES, Bits(buffer)), ALL_ONES)
  }

  // ----- The table-driven form -----

  function TableEntry(i: nat): Word
    requires i < 256
  {
    Steps(i as Word, 8)
  }

  /** The static table of `computeCrc` and the flag that says whether it has been filled. */
  class CrcComputer {
    var table: array<Word>
    var computed: bool

    ghost predicate Filled()
      reads this, table
    {
      table.Length == 256 && forall i :: 0 <= i < 256 ==> table[i] == TableEntry(i)
    }

    ghost predicate Valid()
      reads this, table
    {
      table.Length == 256 && (computed ==> Filled())
    }

    /** The static storage before the first call. */
    constructor ()
      ensures Valid() && fresh(table) && !computed
    {
      table := new Word[256];
      computed := false;
    }

    method MakeCrcTable()
      requires table.Length == 256
      modifies table
      ensures Filled()
    {
      hide Step, Xor32;
      var i := 0;
      while i < 256
        invariant 0 <= i <= 256
        invariant forall j :: 0 <= j < i ==> table[j] == TableEntry(j)
      {
        var c := i as Word;
        var k := 0;
        while k < 8
          invariant 0 <= k <= 8
          invariant Steps(c, 8 - k) == TableEntry(i)
          invariant forall j :: 0 <= j < i ==> table[j] == TableEntry(j)
        {
          SourceStep(c);
          if c & 1 == 1 {
            c := 0xEDB88320 ^ ((c >> 1) & 0x7fffffff);
          } else {
            c := c >> 1;
          }
          k := k + 1;
        }
        assert Steps(c, 0) == c;
        table[i] := c;
        i := i + 1;
      }
    }

    method ComputeCrc(buffer: seq<Byte>) returns (result: Word)
      requires Valid()
      modifies this, table
      ensures Valid() && computed && table == old(table)
      ensures result == Crc(buffer)
    {
      hide Step, Register, Bits, TableEntry, TableIndex, TableUpdate;
      if !computed {
        MakeCrcTable();
        computed := true;
      }
      var crc: Word := 0xffffffff;
      var i := 0;
      assert buffer[0..] == buffer;
      while i < |buffer|
        invariant 0 <= i <= |buffer|
        invariant Filled() && computed && table == old(table)
        invariant Register(crc, Bits(buffer[i..])) == Register(ALL_ONES, Bits(buffer))
      {
        TableStep(crc, buffer, i);
        crc := TableUpdate(table[TableIndex(crc, buffer[i])], crc);
        i := i + 1;
      }
      RegisterOfNothing(crc, buffer);
      result := crc ^ 0xffffffff;
    }
  }

  lemma RegisterOfNothing(c: Word, buffer: seq<Byte>)
    ensures Register(c, Bits(buffer[|buffer|..])) == c
  {
  }

  /** The mask that keeps the sign bit out of the shift changes nothing on an unsigned word. */
  lemma SourceStep(c: Word)
    ensures Step(c) == if c & 1 == 1 then 0xEDB88320 ^ ((c >> 1) & 0x7fffffff) else c >> 1
  {
    assert (c >> 1) & 0x7fffffff == c >> 1;
  }

  function LowByte(w: Word): Word {
    w & 0xff
  }

  function HighBytes(w: Word): Word {
    (w >> 8) & 0x00ffffff
  }

  /** Where the table is read for register `c` and input byte `b`. */
  function TableIndex(c: Word, b: Byte): (i: nat)
    ensures i < 256
  {
    LowByteIsIndex(Xor32(c, b as Word));
    LowByte(Xor32(c, b as Word)) as int
  }

  function TableUpdate(entry: Word, c: Word): Word {
    Xor32(entry, HighBytes(c))
  }

  /** Looking up the low byte and shifting by eight does the work of eight register steps. */
  lemma TableStep(c: Word, buffer: seq<Byte>, i: nat)
    requires i < |buffer|
    ensures Register(c, Bits(buffer[i..])) ==
            Register(TableUpdate(TableEntry(TableIndex(c, buffer[i])), c), Bits(buffer[i + 1..]))
  {
    hide Step, Steps, Register, Xor32, TableIndex, TableUpdate, TableEntry, WordBits, LowByte, HighBytes, Fits;
    var b := buffer[i] as Word;
    assert buffer[i..][1..] == buffer[i + 1..];
    ByteFits(buffer[i]);
    RegisterOfWord(c, b, 8, Bits(buffer[i + 1..]));
    TableStepIsEightSteps(c, buffer[i]);
  }

  lemma TableStepIsEightSteps(c: Word, b: Byte)
    ensures TableUpdate(TableEntry(TableIndex(c, b)), c) == Steps(Xor32(c, b as Word), 8)
  {
    hide Step, Steps, Xor32, TableIndex, TableUpdate, LowByte, HighBytes, Double;
    var x := Xor32(c, b as Word);
    SplitLowByte(x);
    StepsAreLinear(LowByte(x), Double8(HighBytes(x)), 8);
    EightStepsShift(HighBytes(x));
    TableReads(c, b);
    TableKeeps(c, b, Steps(LowByte(x), 8));
  }

  lemma TableReads(c: Word, b: Byte)
    ensures TableIndex(c, b) as Word == LowByte(Xor32(c, b as Word))
  {
    LowByteIsIndex(Xor32(c, b as Word));
  }

  lemma LowByteIsIndex(x: Word)
    ensures 0 <= LowByte(x) as int < 256
    ensures (LowByte(x) as int) as Word == LowByte(x)
  {
  }

  lemma TableKeeps(c: Word, b: Byte, e: Word)
    ensures TableUpdate(e, c) == Xor32(e, HighBytes(Xor32(c, b as Word)))
  {
    assert HighBytes(c) == HighBytes(Xor32(c, b as Word));
  }

  lemma SplitLowByte(x: Word)
    ensures x == Xor32(LowByte(x), Double8(HighBytes(x)))
    ensures HighBytes(x) & 0xff000000 == 0
  {
    DoubleEightTimes(HighBytes(x));
    assert (x & 0xff) ^ (((x >> 8) & 0x00ffffff) << 8) == x;
  }

  function Double8(w: Word): Word {
    Double(Double(Double(Double(Double(Double(Double(Double(w))))))))
  }

  lemma DoubleEightTimes(w: Word)
    ensures Double8(w) == w << 8
  {
  }

  // ----- Algebra of the register -----

  lemma StepIsLinear(a: Word, b: Word)
    ensures Step(Xor32(a, b)) == Xor32(Step(a), Step(b))
  {
    assert (a ^ b) >> 1 == (a >> 1) ^ (b >> 1);
    assert (a ^ b) & 1 == (a & 1) ^ (b & 1);
    assert a & 1 == 0 || a & 1 == 1;
    assert b & 1 == 0 || b & 1 == 1;
    if a & 1 == 1 {
      if b & 1 == 1 {
      } else {
      }
    } else {
      if b & 1 == 1 {
      } else {
      }
    }
  }

  lemma {:induction false} StepsAreLinear(a: Word, b: Word, n: nat)
    ensures Steps(Xor32(a, b), n) == Xor32(Steps(a, n), Steps(b, n))
    decreases n
  {
    hide Step, Xor32;
    if n > 0 {
      StepIsLinear(a, b);
      StepsAreLinear(Step(a), Step(b), n - 1);
    }
  }

  lemma StepShifts(w: Word)
    requires w & 0x80000000 == 0
    ensures Step(Double(w)) == w
  {
    hide Xor32, LowBit, Half, Double;
    DoubleIsEven(w);
    HalfOfDouble(w);
  }

  lemma DoubleIsEven(w: Word)
    ensures !LowBit(Double(w))
  {
  }

  lemma HalfOfDouble(w: Word)
    requires w & 0x80000000 == 0
    ensures Half(Double(w)) == w
  {
  }

  lemma EightStepsShift(w: Word)
    requires w & 0xff000000 == 0
    ensures Steps(Double8(w), 8) == w
  {
    hide Step, Double, Steps;
    TopBitsOfDoubles(w);
    StepOnDouble(w, 0);
    var a := Double(w);
    StepOnDouble(a, 1);
    var b := Double(a);
    StepOnDouble(b, 2);
    var c := Double(b);
    StepOnDouble(c, 3);
    var d := Double(c);
    StepOnDouble(d, 4);
    var e := Double(d);
    StepOnDouble(e, 5);
    var f := Double(e);
    StepOnDouble(f, 6);
    StepOnDouble(Double(f), 7);
    StepsZero(w);
  }

  lemma TopBitsOfDoubles(w: Word)
    requires w & 0xff000000 == 0
    ensures w & 0x80000000 == 0 && Double(w) & 0x80000000 == 0
    ensures Double(Double(w)) & 0x80000000 == 0 && Double(Double(Double(w))) & 0x80000000 == 0
    ensures Double(Double(Double(Double(w)))) & 0x80000000 == 0
    ensures Double(Double(Double(Double(Double(w))))) & 0x80000000 == 0
    ensures Double(Double(Double(Double(Double(Double(w)))))) & 0x80000000 == 0
    ensures Double(Double(Double(Double(Double(Double(Double(w))))))) & 0x80000000 == 0
  {
  }

  lemma StepOnDouble(w: Word, n: nat)
    requires w & 0x80000000 == 0
    ensures Steps(Double(w), n + 1) == Steps(w, n)
  {
    StepShifts(w);
  }

  lemma StepsZero(w: Word)
    ensures Steps(w, 0) == w
  {
  }

  /** Every step is reversible: different registers stay different. */
  lemma StepIsInjective(a: Word, b: Word)
    requires Step(a) == Step(b)
    ensures a == b
  {
  }

  lemma {:induction false} StepsAreInjective(a: Word, b: Word, n: nat)
    requires Steps(a, n) == Steps(b, n)
    ensures a == b
    decreases n
  {
    hide Step;
    if n > 0 {
      StepsAreInjective(Step(a), Step(b), n - 1);
      StepIsInjective(a, b);
    }
  }

  // ----- Shifting in a whole word -----

  lemma ByteFits(b: Byte)
    ensures Fits(b as Word, 8)
  {
    assert Half8(b as Word) == 0;
    assert Fits(0, 0);
    FitsOneByteMore(b as Word, 0);
  }

  lemma StepTakesLowBit(c: Word, w: Word)
    ensures Step(Xor32(c, w)) == Xor32(Step(Xor32(c, BitWord(LowBit(w)))), Half(w))
  {
    hide Step, Xor32, Half, BitWord, LowBit, Double;
    SplitLowBit(c, w);
    HalfHasNoTopBit(w);
    StepIsLinear(Xor32(c, BitWord(LowBit(w))), Double(Half(w)));
    StepShifts(Half(w));
  }

  lemma SplitLowBit(c: Word, w: Word)
    ensures Xor32(c, w) == Xor32(Xor32(c, BitWord(LowBit(w))), Double(Half(w)))
  {
    hide Xor32, Double, Half, LowBit, BitWord;
    WordIsBitAndDouble(w);
    XorIsAssociative(c, BitWord(LowBit(w)), Double(Half(w)));
  }

  lemma HalfHasNoTopBit(w: Word)
    ensures Half(w) & 0x80000000 == 0
  {
  }

  lemma RegisterTakesBit(c: Word, w: Word, n: nat, rest: seq<bool>)
    requires n > 0
    ensures Register(c, WordBits(w, n) + rest) ==
            Register(Step(Xor32(c, BitWord(LowBit(w)))), WordBits(Half(w), n - 1) + rest)
  {
    hide Step, Xor32, BitWord, LowBit, Half;
    var bits := WordBits(w, n) + rest;
    assert bits[0] == LowBit(w);
    assert bits[1..] == WordBits(Half(w), n - 1) + rest;
  }

  /** Shifting a word in bit by bit is xoring it in at once and then stepping. */
  lemma {:induction false} RegisterOfWord(c: Word, w: Word, n: nat, rest: seq<bool>)
    requires Fits(w, n)
    ensures Register(c, WordBits(w, n) + rest) == Register(Steps(Xor32(c, w), n), rest)
    decreases n
  {
    hide Step, Xor32, BitWord, LowBit, Half, Double, Register;
    if n == 0 {
      XorZero(c);
      assert [] + rest == rest;
    } else {
      hide WordBits;
      RegisterTakesBit(c, w, n, rest);
      StepTakesLowBit(c, w);
      RegisterOfWord(Step(Xor32(c, BitWord(LowBit(w)))), Half(w), n - 1, rest);
    }
  }
}
