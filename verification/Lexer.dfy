/** How the JavaScript lexer uses the recogniser: `parseIdentifier` of `Lexer.cpp`. */
module Lexer {
  import opened Options
  import opened KeywordTrie
  import opened KeywordCode
  import opened KeywordText
  import opened KeywordGenerator

  const BACKSLASH: nat := 0x5c
  const RESERVED_IF_STRICT: Token := "RESERVED_IF_STRICT"

  /**
   * `Escaped` stands for an identifier that is left to `parseIdentifierSlowCase`: none of its tokens is a keyword.
   * `AssertionFailed` stands for the failure of `ASSERT(shouldCreateIdentifier)`.
   */
  datatype Lexeme = Identifier(name: Text) | Reserved(token: Token, name: Text) | Escaped | AssertionFailed

  /** What a word is, going by the keyword table. */
  function Classify(entry: Option<Token>, word: Text, strict: bool): Lexeme {
    match entry
    case None => Identifier(word)
    case Some(token) => if token == RESERVED_IF_STRICT && !strict then Identifier(word) else Reserved(token, word)
  }

  predicate BackslashFollows(isIdentPart: nat -> bool, input: Text) {
    var n := IdentLength(isIdentPart, input);
    n < |input| && input[n] == BACKSLASH
  }

  /** The identifier at the start of the input. One that goes on with a `\u` escape is never a keyword. */
  function Lexed(table: seq<Entry>, isIdentPart: nat -> bool, input: Text, ignoreReserved: bool, strict: bool): Lexeme {
    var word := Word(isIdentPart, input);
    if BackslashFollows(isIdentPart, input) then Escaped
    else Classify(if ignoreReserved then None else LastEntry(table, word), word, strict)
  }

  /** A unit follows every keyword that is recognised. */
  lemma {:induction false} ShiftIsInside(code: Code, t: Target, isIdentPart: nat -> bool, input: Text)
    requires Compiles(code) && ReadsBelow(code, |input|) && ShiftsToIndex(code)
    ensures var r := Eval(code, t, isIdentPart, input); r.Keyword? ==> r.shift < |input|
    decreases code, |code.branches| + 1
  {
    ShiftIsInsideFrom(code, 0, t, isIdentPart, input);
  }

  lemma {:induction false} ShiftIsInsideFrom(code: Code, k: nat, t: Target, isIdentPart: nat -> bool, input: Text)
    requires k <= |code.branches| && Compiles(code) && ReadsBelow(code, |input|) && ShiftsToIndex(code)
    ensures var r := EvalBranches(code, k, t, isIdentPart, input); r.Keyword? ==> r.shift < |input|
    decreases code, |code.branches| - k
  {
    if k < |code.branches| {
      ShiftIsInside(code.branches[k].body, t, isIdentPart, input);
      ShiftIsInsideFrom(code, k + 1, t, isIdentPart, input);
    }
  }

  /** The generated part of the lexer, and the hash table made from the same keywords. */
  datatype Keywords = Keywords(
    recogniser: Code, maxTokenLength: nat, target: Target, isIdentPart: nat -> bool, getKeyword: Text -> Option<Token>)

  predicate Runs(k: Keywords, input: Text) {
    Compiles(k.recogniser) && ReadsBelow(k.recogniser, |input|) && UnitsBelow(input, k.target.units)
  }

  /** `parseKeyword` may read as far as `maxTokenLength`, and looks the word up in the table. So does the hash table. */
  ghost predicate Recognises(k: Keywords, table: seq<Entry>) {
    && k.target.Valid() && ShiftsToIndex(k.recogniser)
    && (forall input :: |input| >= k.maxTokenLength && UnitsBelow(input, k.target.units) ==>
          Runs(k, input) &&
          Eval(k.recogniser, k.target, k.isIdentPart, input) ==
          Expected(LastEntry(table, Word(k.isIdentPart, input)), Word(k.isIdentPart, input)))
    && forall s :: k.getKeyword(s) == LastEntry(table, s)
  }

  /** The generator's output is fit for the lexer. */
  lemma GeneratedRecogniserFits(keywords: seq<Entry>, weights: Weights, program: Program, k: Keywords)
    requires GoodTable(keywords, k.isIdentPart) && Generated(keywords, weights, program)
    requires k.target.Valid() && k.maxTokenLength == program.maxTokenLength
    requires ParseCode(LinesFor(program, k.target)) == Some((k.recogniser, [ReturnIdent])) && Compiles(k.recogniser)
    requires forall s :: k.getKeyword(s) == LastEntry(keywords, s)
    ensures Recognises(k, keywords)
  {
    hide Eval, Word, Render, ParseCode, Emit, ReadsBelow, Compiles, FillsOut, GoodTable, Coherent;
    forall input | |input| >= k.maxTokenLength && UnitsBelow(input, k.target.units)
      ensures Runs(k, input)
      ensures Eval(k.recogniser, k.target, k.isIdentPart, input) ==
              Expected(LastEntry(keywords, Word(k.isIdentPart, input)), Word(k.isIdentPart, input))
    {
      GeneratedProgramIsTable(keywords, weights, program, k.target, k.isIdentPart, input);
    }
    var f :| GeneratedFrom(keywords, weights, f, program);
    ParseOfRendered(Emit(f), [ReturnIdent]);
    EmitShiftsToIndex(f);
  }

  class Lexer {
    const code: Text
    const keywords: Keywords
    /** `m_code` as an offset, and `m_current`. */
    var offset: nat
    var current: nat
    /** `tokenData->ident`, if it is set. */
    var ident: Option<Text>

    ghost const table: seq<Entry>

    ghost predicate Valid()
      reads this
    {
      && offset <= |code| && current == UnitAt(offset)
      && Recognises(keywords, table) && UnitsBelow(code, keywords.target.units)
      && !keywords.isIdentPart(0) && !keywords.isIdentPart(BACKSLASH)
    }

    /** Past the end, the current unit reads as zero. */
    function UnitAt(i: nat): nat {
      if i < |code| then code[i] else 0
    }

    constructor (code: Text, keywords: Keywords, ghost table: seq<Entry>)
      requires Recognises(keywords, table) && UnitsBelow(code, keywords.target.units)
      requires !keywords.isIdentPart(0) && !keywords.isIdentPart(BACKSLASH)
      ensures Valid() && offset == 0
      ensures this.code == code && this.keywords == keywords && this.table == table
    {
      this.code, this.keywords, this.table := code, keywords, table;
      offset, ident := 0, None;
      current := if 0 < |code| then code[0] else 0;
    }

    method Shift()
      requires offset < |code|
      modifies this`offset, this`current
      ensures offset == old(offset) + 1 && current == UnitAt(offset)
    {
      current := 0;
      offset := offset + 1;
      if offset < |code| {
        current := code[offset];
      }
    }

    /** Reads the unit after the keyword without looking for the end. */
    method InternalShift(shiftAmount: nat)
      requires offset + shiftAmount < |code|
      modifies this`offset, this`current
      ensures offset == old(offset) + shiftAmount && current == UnitAt(offset)
    {
      offset := offset + shiftAmount;
      current := code[offset];
    }

    /** Runs the recogniser, which stops short of the end: the read in `InternalShift` is in bounds. */
    method ParseKeyword(shouldCreateIdentifier: bool) returns (entry: Option<Token>)
      requires Valid() && |code| - offset >= keywords.maxTokenLength
      modifies this
      ensures Valid()
      ensures var word := Word(keywords.isIdentPart, code[old(offset)..]);
              entry == LastEntry(table, word) &&
              offset == old(offset) + (if entry.Some? then |word| else 0) &&
              ident == if entry.Some? && shouldCreateIdentifier then Some(word) else old(ident)
    {
      hide Eval, Word, ReadsBelow, Compiles, ShiftsToIndex;
      var input := code[offset..];
      TailUnits(code, offset, keywords.target.units);
      ghost var word := Word(keywords.isIdentPart, input);
      assert Runs(keywords, input);
      match Eval(keywords.recogniser, keywords.target, keywords.isIdentPart, input) {
        case Ident =>
          entry := None;
        case Keyword(token, shiftAmount, name) =>
          ShiftIsInside(keywords.recogniser, keywords.target, keywords.isIdentPart, input);
          InternalShift(shiftAmount);
          if shouldCreateIdentifier {
            ident := Some(name);
          }
          entry := Some(token);
      }
    }

    /**
     * Short of `maxTokenLength` units the hash table decides, otherwise the recogniser. The result is the lexeme
     * that stands there, except that the recogniser does not look for a backslash, and so takes a keyword out of
     * an identifier that goes on with an escape, and that the hash table cannot be asked without an identifier.
     */
    method ParseIdentifier(shouldCreateIdentifier: bool, ignoreReserved: bool, strict: bool) returns (r: Lexeme)
      requires Valid()
      modifies this
      ensures Valid()
      ensures var input := code[old(offset)..];
              r == Lexed(table, keywords.isIdentPart, input, ignoreReserved, strict) <==>
              !CutShort(keywords, table, input, ignoreReserved) &&
              (shouldCreateIdentifier || !AsksTable(keywords, input, ignoreReserved))
      ensures var input := code[old(offset)..];
              var word := Word(keywords.isIdentPart, input);
              && (CutShort(keywords, table, input, ignoreReserved) ==> r == Classify(LastEntry(table, word), word, strict))
              && (!shouldCreateIdentifier && AsksTable(keywords, input, ignoreReserved) ==> r == AssertionFailed)
              && offset == old(offset) + (if r.Escaped? then 0 else |word|)
      ensures shouldCreateIdentifier && (r.Identifier? || r.Reserved?) ==> ident == Some(r.name)
      ensures !shouldCreateIdentifier ==> ident == old(ident) || ident == None
      ensures var input := code[old(offset)..];
              var word := Word(keywords.isIdentPart, input);
              Decides(r, word, LastEntry(table, word), |word| < |input| && input[|word|] == 0x5c,
                      |input| >= keywords.maxTokenLength, shouldCreateIdentifier, ignoreReserved, strict)
    {
      hide Recognises, Word, UnitsBelow, BackslashFollows, Decides;
      var remaining := |code| - offset;
      ghost var input := code[offset..];
      WordLength(keywords.isIdentPart, input);
      if remaining >= keywords.maxTokenLength && !ignoreReserved {
        var start := offset;
        var entry := ParseKeyword(shouldCreateIdentifier);
        if entry.Some? {
          AfterWord(code, start, keywords.isIdentPart);
          var word := code[start..offset];
          r := if entry.value == RESERVED_IF_STRICT && !strict then Identifier(word) else Reserved(entry.value, word);
          DecidesAll(r, keywords, table, input, shouldCreateIdentifier, ignoreReserved, strict);
          return;
        }
      }
      r := ParseWord(shouldCreateIdentifier, remaining < keywords.maxTokenLength && !ignoreReserved, strict);
      DecidesAll(r, keywords, table, input, shouldCreateIdentifier, ignoreReserved, strict);
    }

    /** The rest of `parseIdentifier`, once the recogniser has not been used or has found nothing. */
    method ParseWord(shouldCreateIdentifier: bool, useTable: bool, strict: bool) returns (r: Lexeme)
      requires Valid()
      modifies this
      ensures Valid()
      ensures var input := code[old(offset)..];
              var word := Word(keywords.isIdentPart, input);
              offset == old(offset) + (if r.Escaped? then 0 else |word|) &&
              r == if BackslashFollows(keywords.isIdentPart, input) then Escaped
                   else if useTable && !shouldCreateIdentifier then AssertionFailed
                   else Classify(if useTable then LastEntry(table, word) else None, word, strict)
      ensures shouldCreateIdentifier && (r.Identifier? || r.Reserved?) ==> ident == Some(r.name)
      ensures !shouldCreateIdentifier ==> ident == old(ident) || ident == None
    {
      hide Recognises, Word, UnitsBelow, BackslashFollows, IdentLength;
      var identifierStart := offset;
      ShiftOverWord();
      AfterWord(code, identifierStart, keywords.isIdentPart);
      if current == BACKSLASH {
        offset := identifierStart;
        current := if offset < |code| then code[offset] else 0;
        return Escaped;
      }
      var name := code[identifierStart..offset];
      ident := if shouldCreateIdentifier then Some(name) else None;
      if useTable {
        if !shouldCreateIdentifier {
          return AssertionFailed;
        }
        GetKeywordIsTable(keywords, table, name);
        var entry := keywords.getKeyword(name);
        if entry.Some? {
          return if entry.value != RESERVED_IF_STRICT || strict then Reserved(entry.value, name) else Identifier(name);
        }
      }
      return Identifier(name);
    }

    /** The loop of `parseIdentifier`. */
    method ShiftOverWord()
      requires Valid()
      modifies this`offset, this`current
      ensures Valid() && offset == old(offset) + IdentLength(keywords.isIdentPart, code[old(offset)..])
    {
      hide Recognises, UnitsBelow;
      ghost var goal := offset + IdentLength(keywords.isIdentPart, code[offset..]);
      while keywords.isIdentPart(current)
        invariant Valid() && goal == offset + IdentLength(keywords.isIdentPart, code[offset..])
        decreases |code| - offset
      {
        assert code[offset..][1..] == code[offset + 1..];
        Shift();
      }
    }
  }

  lemma TailUnits(code: Text, offset: nat, units: nat)
    requires offset <= |code| && UnitsBelow(code, units)
    ensures UnitsBelow(code[offset..], units)
  {
  }

  lemma GetKeywordIsTable(k: Keywords, table: seq<Entry>, s: Text)
    requires Recognises(k, table)
    ensures k.getKeyword(s) == LastEntry(table, s)
  {
  }

  lemma WordLength(isIdentPart: nat -> bool, input: Text)
    ensures |Word(isIdentPart, input)| == IdentLength(isIdentPart, input)
  {
  }

  lemma AfterWord(code: Text, from: nat, isIdentPart: nat -> bool)
    requires from <= |code|
    ensures var n := IdentLength(isIdentPart, code[from..]);
            code[from..from + n] == Word(isIdentPart, code[from..]) &&
            |Word(isIdentPart, code[from..])| == n &&
            (BackslashFollows(isIdentPart, code[from..]) <==> from + n < |code| && code[from + n] == BACKSLASH)
  {
  }

  /** The recogniser runs, and finds a keyword that is only the beginning of an identifier with an escape. */
  predicate CutShort(k: Keywords, table: seq<Entry>, input: Text, ignoreReserved: bool) {
    && |input| >= k.maxTokenLength && !ignoreReserved
    && LastEntry(table, Word(k.isIdentPart, input)).Some? && BackslashFollows(k.isIdentPart, input)
  }

  /** The hash table is asked for the word. */
  predicate AsksTable(k: Keywords, input: Text, ignoreReserved: bool) {
    |input| < k.maxTokenLength && !ignoreReserved && !BackslashFollows(k.isIdentPart, input)
  }

  /**
   * What becomes of a word, by its entry in the table, whether a backslash follows it, and whether enough units
   * are left for the recogniser: a keyword is reserved, but a `RESERVED_IF_STRICT` one in strict code only.
   */
  predicate Decides(
      r: Lexeme, word: Text, entry: Option<Token>, backslash: bool, enough: bool,
      shouldCreateIdentifier: bool, ignoreReserved: bool, strict: bool)
  {
    && (r.Reserved? <==>
          !ignoreReserved && entry.Some? && (entry.value != "RESERVED_IF_STRICT" || strict) &&
          (enough || (!backslash && shouldCreateIdentifier)))
    && (r.Reserved? ==> r.token == entry.value && r.name == word)
    && (r.Escaped? <==> backslash && (ignoreReserved || entry.None? || !enough))
    && (r.AssertionFailed? <==> !backslash && !enough && !ignoreReserved && !shouldCreateIdentifier)
    && (r.Identifier? ==> r.name == word)
  }

  lemma DecidesAll(
      r: Lexeme, k: Keywords, table: seq<Entry>, input: Text,
      shouldCreateIdentifier: bool, ignoreReserved: bool, strict: bool)
    requires var word := Word(k.isIdentPart, input);
             r == if CutShort(k, table, input, ignoreReserved) then Classify(LastEntry(table, word), word, strict)
                  else if !shouldCreateIdentifier && AsksTable(k, input, ignoreReserved) then AssertionFailed
                  else Lexed(table, k.isIdentPart, input, ignoreReserved, strict)
    ensures var word := Word(k.isIdentPart, input);
            Decides(r, word, LastEntry(table, word), |word| < |input| && input[|word|] == 0x5c,
                    |input| >= k.maxTokenLength, shouldCreateIdentifier, ignoreReserved, strict)
  {
    WordLength(k.isIdentPart, input);
    hide IdentLength, LastEntry;
  }

  // ----- The lexeme depends on itself and the unit after it only -----

  lemma {:induction false} LengthIsLocal(isIdentPart: nat -> bool, input: Text, more: Text)
    requires IdentLength(isIdentPart, input) < |input|
    ensures IdentLength(isIdentPart, input + more) == IdentLength(isIdentPart, input)
  {
    assert (input + more)[1..] == input[1..] + more;
    if isIdentPart(input[0]) {
      LengthIsLocal(isIdentPart, input[1..], more);
    }
  }

  /** What comes after the unit that ends a word has no influence on the lexeme. `parseIdentifier` ought to respect that. */
  lemma LexedIsLocal(
      table: seq<Entry>, isIdentPart: nat -> bool, input: Text, more: Text, ignoreReserved: bool, strict: bool)
    requires IdentLength(isIdentPart, input) < |input|
    ensures Lexed(table, isIdentPart, input + more, ignoreReserved, strict) ==
            Lexed(table, isIdentPart, input, ignoreReserved, strict)
  {
    hide IdentLength, LastEntry;
    LengthIsLocal(isIdentPart, input, more);
    var n := IdentLength(isIdentPart, input);
    assert (input + more)[..n] == input[..n];
  }

  /**
   * The exception occurs. For example, `if\u0061` is one identifier, but is cut short as soon as enough input
   * follows it, whatever else the table contains.
   */
  lemma KeywordIsCutOut(k: Keywords, table: seq<Entry>, more: Text, strict: bool)
    requires k.isIdentPart(0x69) && k.isIdentPart(0x66) && !k.isIdentPart(BACKSLASH)
    requires LastEntry(table, [0x69, 0x66]).Some?
    ensures var input := [0x69, 0x66, BACKSLASH, 0x75, 0x30, 0x30, 0x36, 0x31] + more;
            Lexed(table, k.isIdentPart, input, false, strict) == Escaped &&
            (CutShort(k, table, input, false) <==> |input| >= k.maxTokenLength)
  {
    var input := [0x69, 0x66, BACKSLASH, 0x75, 0x30, 0x30, 0x36, 0x31] + more;
    assert input[1..][1..] == input[2..];
    assert IdentLength(k.isIdentPart, input[2..]) == 0;
    assert IdentLength(k.isIdentPart, input[1..]) == 1;
    assert IdentLength(k.isIdentPart, input) == 2;
    assert Word(k.isIdentPart, input) == [0x69, 0x66];
  }
}
