/** The C code that the generator emits, as a syntax tree with a meaning. */
module KeywordCode {
  import opened Arithmetic
  import opened Options
  import opened KeywordTrie

  // ----- Comparison macros -----

  /** What the emitted code is compiled for: the values a code unit can take, and which macros are in force. */
  datatype Target = Target(units: nat, aligned: bool, x86_64: bool) {
    /** `LChar` or `UChar`. */
    predicate Valid() {
      units == 0x100 || units == 0x10000
    }

    /** Two units as one little-endian integer: what the packing macro builds, and what a wide load reads. */
    function Pair(a: nat, b: nat): nat {
      b * units + a
    }

    function Quad(a: nat, b: nat, c: nat, d: nat): nat {
      Pair(c, d) * (units * units) + Pair(a, b)
    }

    predicate Compare2(input: Text, i: nat, a: nat, b: nat)
      requires i + 2 <= |input|
    {
      if aligned then input[i] == a && input[i + 1] == b
      else Pair(input[i], input[i + 1]) == Pair(a, b)
    }

    predicate Compare4(input: Text, i: nat, a: nat, b: nat, c: nat, d: nat)
      requires i + 4 <= |input|
    {
      if !aligned && x86_64 then
        Quad(input[i], input[i + 1], input[i + 2], input[i + 3]) == Quad(a, b, c, d)
      else
        Compare2(input, i, a, b) && Compare2(input, i + 2, c, d)
    }

    /** One unit is compared directly, two to eight by COMPARE_2 to COMPARE_8; there is no macro for more. */
    predicate Compare(input: Text, i: nat, chars: Text)
      requires 1 <= |chars| <= 8 && i + |chars| <= |input|
    {
      match |chars|
      case 1 => input[i] == chars[0]
      case 2 => Compare2(input, i, chars[0], chars[1])
      case 3 => Compare2(input, i, chars[0], chars[1]) && input[i + 2] == chars[2]
      case 4 => Compare4(input, i, chars[0], chars[1], chars[2], chars[3])
      case 5 => Compare4(input, i, chars[0], chars[1], chars[2], chars[3]) && input[i + 4] == chars[4]
      case 6 => Compare4(input, i, chars[0], chars[1], chars[2], chars[3]) && Compare2(input, i + 4, chars[4], chars[5])
      case 7 => Compare4(input, i, chars[0], chars[1], chars[2], chars[3]) &&
                Compare4(input, i + 3, chars[3], chars[4], chars[5], chars[6])
      case _ => Compare4(input, i, chars[0], chars[1], chars[2], chars[3]) &&
                Compare4(input, i + 4, chars[4], chars[5], chars[6], chars[7])
    }
  }

  predicate UnitsBelow(s: Text, bound: nat) {
    forall i :: 0 <= i < |s| ==> s[i] < bound
  }

  predicate Matches(input: Text, i: nat, chars: Text)
    requires i + |chars| <= |input|
  {
    input[i..i + |chars|] == chars
  }

  lemma MatchesByUnit(input: Text, i: nat, chars: Text)
    requires i + |chars| <= |input|
    ensures Matches(input, i, chars) <==> forall j :: 0 <= j < |chars| ==> input[i + j] == chars[j]
  {
    var part := input[i..i + |chars|];
    assert forall j :: 0 <= j < |chars| ==> part[j] == input[i + j];
  }

  /** Two-digit numbers are equal just when their digits are. */
  lemma TwoDigits(base: nat, a: nat, b: nat, c: nat, d: nat)
    requires a < base && c < base
    ensures b * base + a == d * base + c <==> a == c && b == d
  {
    if b < d {
      MultiplesAreSpaced(base, b, d);
    } else if d < b {
      MultiplesAreSpaced(base, d, b);
    }
  }

  lemma Compare2IsEquality(t: Target, input: Text, i: nat, a: nat, b: nat)
    requires t.Valid() && i + 2 <= |input| && UnitsBelow(input, t.units) && a < t.units && b < t.units
    ensures t.Compare2(input, i, a, b) <==> input[i] == a && input[i + 1] == b
  {
    TwoDigits(t.units, input[i], input[i + 1], a, b);
  }

  lemma PairFits(t: Target, a: nat, b: nat)
    requires t.Valid() && a < t.units && b < t.units
    ensures t.Pair(a, b) < t.units * t.units
  {
  }

  lemma Compare4IsEquality(t: Target, input: Text, i: nat, a: nat, b: nat, c: nat, d: nat)
    requires t.Valid() && i + 4 <= |input| && UnitsBelow(input, t.units)
    requires a < t.units && b < t.units && c < t.units && d < t.units
    ensures t.Compare4(input, i, a, b, c, d) <==>
            input[i] == a && input[i + 1] == b && input[i + 2] == c && input[i + 3] == d
  {
    Compare2IsEquality(t, input, i, a, b);
    Compare2IsEquality(t, input, i + 2, c, d);
    var w, x, y, z := input[i], input[i + 1], input[i + 2], input[i + 3];
    TwoDigits(t.units, w, x, a, b);
    TwoDigits(t.units, y, z, c, d);
    PairFits(t, w, x);
    PairFits(t, a, b);
    TwoDigits(t.units * t.units, t.Pair(w, x), t.Pair(y, z), t.Pair(a, b), t.Pair(c, d));
  }

  /** On every target a comparison holds exactly when the units agree one by one. */
  lemma CompareIsMatch(t: Target, input: Text, i: nat, chars: Text)
    requires t.Valid() && UnitsBelow(input, t.units) && UnitsBelow(chars, t.units)
    requires 1 <= |chars| <= 8 && i + |chars| <= |input|
    ensures t.Compare(input, i, chars) <==> Matches(input, i, chars)
  {
    MatchesByUnit(input, i, chars);
    if |chars| >= 4 {
      Compare4IsEquality(t, input, i, chars[0], chars[1], chars[2], chars[3]);
    } else if |chars| >= 2 {
      Compare2IsEquality(t, input, i, chars[0], chars[1]);
    }
    if |chars| == 6 {
      Compare2IsEquality(t, input, i + 4, chars[4], chars[5]);
    } else if |chars| == 7 {
      Compare4IsEquality(t, input, i + 3, chars[3], chars[4], chars[5], chars[6]);
    } else if |chars| == 8 {
      Compare4IsEquality(t, input, i + 4, chars[4], chars[5], chars[6], chars[7]);
    }
  }

  // ----- The emitted code and its meaning -----

  /** `if (!isIdentPart(code[index])) { internalShift<shift>(); ...ident...; return token; }` */
  datatype Accept = Accept(index: nat, shift: nat, ident: Text, token: Token)

  /** An optional acceptance test, then an if / else if chain. */
  datatype Code = Code(accept: Option<Accept>, branches: seq<Branch>)
  datatype Branch = Branch(base: nat, chars: Text, body: Code)

  /** What the recogniser returns: IDENT, or a keyword, having shifted past it. */
  datatype Result = Ident | Keyword(token: Token, shift: nat, ident: Text)

  /** No comparison is longer than the longest macro. */
  predicate Compiles(code: Code) {
    forall i :: 0 <= i < |code.branches| ==> 1 <= |code.branches[i].chars| <= 8 && Compiles(code.branches[i].body)
  }

  /** Every index that any path through the code can read is below `n`. */
  predicate ReadsBelow(code: Code, n: nat) {
    && (code.accept.Some? ==> code.accept.value.index < n)
    && forall i :: 0 <= i < |code.branches| ==>
         code.branches[i].base + |code.branches[i].chars| <= n && ReadsBelow(code.branches[i].body, n)
  }

  function Eval(code: Code, t: Target, isIdentPart: nat -> bool, input: Text): Result
    requires Compiles(code) && ReadsBelow(code, |input|)
    decreases code, |code.branches| + 1
  {
    if code.accept.Some? && !isIdentPart(input[code.accept.value.index]) then
      var a := code.accept.value;
      Keyword(a.token, a.shift, a.ident)
    else
      EvalBranches(code, 0, t, isIdentPart, input)
  }

  /** The chain from branch `k` on. A branch that was entered and does not return falls through to `return IDENT`. */
  function EvalBranches(code: Code, k: nat, t: Target, isIdentPart: nat -> bool, input: Text): Result
    requires k <= |code.branches| && Compiles(code) && ReadsBelow(code, |input|)
    decreases code, |code.branches| - k
  {
    if k == |code.branches| then Ident
    else if t.Compare(input, code.branches[k].base, code.branches[k].chars) then
      Eval(code.branches[k].body, t, isIdentPart, input)
    else
      EvalBranches(code, k + 1, t, isIdentPart, input)
  }

  // ----- fillOut -----

  /** A node after `fillOut`, which has put its children in order. */
  datatype Filled = Filled(prefix: Text, fullPrefix: Text, value: Option<Token>, selfWeight: real, weight: real, keys: seq<Filled>)

  type Weights = map<Text, real>

  function Weight(weights: Weights, s: Text): real {
    if s in weights then weights[s] else 0.0
  }

  function TotalWeight(keys: seq<Filled>): real {
    if keys == [] then 0.0 else keys[0].weight + TotalWeight(keys[1..])
  }

  predicate HeaviestFirst(keys: seq<Filled>) {
    forall i, j :: 0 <= i < j < |keys| ==> keys[i].weight >= keys[j].weight
  }

  /** The children in some order: each exactly once. */
  ghost predicate Arranges(kids: map<nat, Tree>, keys: seq<Filled>) {
    && (forall i :: 0 <= i < |keys| ==> keys[i].prefix != [] && keys[i].prefix[0] in kids)
    && (forall i, j :: 0 <= i < j < |keys| ==> keys[i].prefix[0] != keys[j].prefix[0])
    && (forall c :: c in kids ==> exists i :: 0 <= i < |keys| && keys[i].prefix[0] == c)
  }

  /** `f` is what `fillOut(before)` may make of `t`: the order of equally heavy siblings is left open. */
  ghost predicate FillsOut(t: Tree, before: Text, weights: Weights, f: Filled)
    decreases f
  {
    && f.prefix == t.prefix && f.fullPrefix == before + t.prefix && f.value == t.value
    && Arranges(t.kids, f.keys)
    && (forall i :: 0 <= i < |f.keys| ==> FillsOut(t.kids[f.keys[i].prefix[0]], f.fullPrefix, weights, f.keys[i]))
    && f.selfWeight == Weight(weights, f.fullPrefix)
    && f.weight == f.selfWeight + TotalWeight(f.keys)
    && HeaviestFirst(f.keys)
  }

  // ----- printSubTreeAsC and maxLength -----

  /** An edge of three units is widened to four with the unit before it, so that it can be compared in one load. */
  function EmitBranch(f: Filled, kid: Filled, body: Code): Branch
    requires |f.fullPrefix| <= |kid.fullPrefix|
  {
    var rootIndex := |f.fullPrefix|;
    if rootIndex > 0 && |kid.prefix| == 3 then
      Branch(rootIndex - 1, [kid.fullPrefix[rootIndex - 1]] + kid.prefix, body)
    else
      Branch(rootIndex, kid.prefix, body)
  }

  /** Full prefixes are those of the parents, extended. */
  predicate Coherent(f: Filled) {
    forall i :: 0 <= i < |f.keys| ==>
      f.keys[i].prefix != [] && f.keys[i].fullPrefix == f.fullPrefix + f.keys[i].prefix && Coherent(f.keys[i])
  }

  function Emit(f: Filled): Code
    requires Coherent(f)
  {
    Code(if f.value.Some? then Some(Accept(|f.fullPrefix|, |f.fullPrefix|, f.fullPrefix, f.value.value)) else None,
         seq(|f.keys|, i requires 0 <= i < |f.keys| => EmitBranch(f, f.keys[i], Emit(f.keys[i]))))
  }

  function MaxLength(f: Filled): nat
    decreases f, |f.keys| + 1
  {
    MaxLengthUpTo(f, |f.keys|)
  }

  function MaxLengthUpTo(f: Filled, k: nat): nat
    requires k <= |f.keys|
    decreases f, k
  {
    if k == 0 then |f.fullPrefix|
    else
      var max, l := MaxLengthUpTo(f, k - 1), MaxLength(f.keys[k - 1]);
      if l > max then l else max
  }

  function MaxTokenLength(f: Filled): nat {
    MaxLength(f) + 1
  }

  /** Keywords are shifted past just when the unit after them has been looked at. */
  predicate ShiftsToIndex(code: Code) {
    && (code.accept.Some? ==> code.accept.value.shift == code.accept.value.index)
    && forall i :: 0 <= i < |code.branches| ==> ShiftsToIndex(code.branches[i].body)
  }

  lemma {:induction false} EmitShiftsToIndex(f: Filled)
    requires Coherent(f)
    ensures ShiftsToIndex(Emit(f))
    decreases f
  {
    var code := Emit(f);
    forall i | 0 <= i < |f.keys| ensures ShiftsToIndex(code.branches[i].body) {
      EmitShiftsToIndex(f.keys[i]);
    }
  }

  // ----- Facts about filled nodes -----

  lemma {:induction false} FilledIsCoherent(t: Tree, before: Text, weights: Weights, f: Filled)
    requires FillsOut(t, before, weights, f)
    ensures Coherent(f)
    decreases f
  {
    forall i | 0 <= i < |f.keys|
      ensures f.keys[i].fullPrefix == f.fullPrefix + f.keys[i].prefix && Coherent(f.keys[i])
    {
      FilledIsCoherent(t.kids[f.keys[i].prefix[0]], f.fullPrefix, weights, f.keys[i]);
    }
  }

  /** Every node below has a value or children. */
  predicate LiveBelow(f: Filled) {
    forall i :: 0 <= i < |f.keys| ==> (f.keys[i].value.Some? || f.keys[i].keys != []) && LiveBelow(f.keys[i])
  }

  lemma {:induction false} FilledIsLive(t: Tree, before: Text, weights: Weights, f: Filled)
    requires FillsOut(t, before, weights, f) && Compressed(t)
    ensures LiveBelow(f)
    decreases f
  {
    forall i | 0 <= i < |f.keys|
      ensures (f.keys[i].value.Some? || f.keys[i].keys != []) && LiveBelow(f.keys[i])
    {
      var kid := t.kids[f.keys[i].prefix[0]];
      FilledIsLive(kid, f.fullPrefix, weights, f.keys[i]);
      if kid.value.None? {
        assert |kid.kids.Keys| >= 2;
        var c :| c in kid.kids.Keys;
      }
    }
  }

  // ----- Bounds -----

  lemma {:induction false} MaxLengthBounds(f: Filled, k: nat)
    requires k <= |f.keys|
    ensures MaxLengthUpTo(f, k) >= |f.fullPrefix|
    ensures forall i :: 0 <= i < k ==> MaxLength(f.keys[i]) <= MaxLengthUpTo(f, k)
    ensures MaxLengthUpTo(f, k) == |f.fullPrefix| || exists i :: 0 <= i < k && MaxLength(f.keys[i]) == MaxLengthUpTo(f, k)
    decreases k
  {
    if k > 0 {
      MaxLengthBounds(f, k - 1);
    }
  }

  /** The emitted code reads below `n` on every path exactly when `n` is at least `maxTokenLength`. */
  lemma {:induction false} ReadsBelowMaxTokenLength(f: Filled, n: nat)
    requires Coherent(f) && LiveBelow(f) && (f.value.Some? || f.keys != [])
    ensures ReadsBelow(Emit(f), n) <==> MaxTokenLength(f) <= n
    decreases f
  {
    var code := Emit(f);
    MaxLengthBounds(f, |f.keys|);
    forall i | 0 <= i < |f.keys|
      ensures ReadsBelow(code.branches[i].body, n) <==> MaxTokenLength(f.keys[i]) <= n
      ensures code.branches[i].base + |code.branches[i].chars| == |f.keys[i].fullPrefix| <= MaxLength(f.keys[i])
    {
      ReadsBelowMaxTokenLength(f.keys[i], n);
      MaxLengthBounds(f.keys[i], |f.keys[i].keys|);
    }
  }

  /** All edges have at most eight units. */
  predicate ShortEdges(f: Filled) {
    forall i :: 0 <= i < |f.keys| ==> |f.keys[i].prefix| <= 8 && ShortEdges(f.keys[i])
  }

  /** There is a macro for every comparison exactly when all edges are short. */
  lemma {:induction false} CompilesIffShortEdges(f: Filled)
    requires Coherent(f)
    ensures Compiles(Emit(f)) <==> ShortEdges(f)
    decreases f
  {
    var code := Emit(f);
    forall i | 0 <= i < |f.keys|
      ensures Compiles(code.branches[i].body) <==> ShortEdges(f.keys[i])
      ensures 1 <= |code.branches[i].chars| <= 8 <==> |f.keys[i].prefix| <= 8
    {
      CompilesIffShortEdges(f.keys[i]);
    }
  }

  /** All prefixes below the root have at most eight units. */
  predicate ShortPrefixes(t: Tree) {
    forall c :: c in t.kids ==> |t.kids[c].prefix| <= 8 && ShortPrefixes(t.kids[c])
  }

  lemma FilledKids(t: Tree, before: Text, weights: Weights, f: Filled)
    requires FillsOut(t, before, weights, f)
    ensures Arranges(t.kids, f.keys)
    ensures forall i :: 0 <= i < |f.keys| ==>
              var kid := t.kids[f.keys[i].prefix[0]];
              f.keys[i].prefix == kid.prefix && FillsOut(kid, f.fullPrefix, weights, f.keys[i])
  {
    forall i | 0 <= i < |f.keys| ensures f.keys[i].prefix == t.kids[f.keys[i].prefix[0]].prefix {
      assert FillsOut(t.kids[f.keys[i].prefix[0]], f.fullPrefix, weights, f.keys[i]);
    }
  }

  lemma {:induction false} FilledIsShort(t: Tree, before: Text, weights: Weights, f: Filled)
    requires FillsOut(t, before, weights, f)
    ensures ShortEdges(f) <==> ShortPrefixes(t)
    decreases f
  {
    hide FillsOut;
    FilledKids(t, before, weights, f);
    forall i | 0 <= i < |f.keys| ensures ShortEdges(f.keys[i]) <==> ShortPrefixes(t.kids[f.keys[i].prefix[0]]) {
      FilledIsShort(t.kids[f.keys[i].prefix[0]], f.fullPrefix, weights, f.keys[i]);
    }
    if ShortEdges(f) {
      forall c | c in t.kids ensures |t.kids[c].prefix| <= 8 && ShortPrefixes(t.kids[c]) {
        var i :| 0 <= i < |f.keys| && f.keys[i].prefix[0] == c;
      }
    }
  }

  // ----- The recogniser computes the table -----

  /** How many units at the start of the input are identifier parts. */
  function IdentLength(isIdentPart: nat -> bool, input: Text): (n: nat)
    ensures n <= |input|
    ensures forall i :: 0 <= i < n ==> isIdentPart(input[i])
    ensures n < |input| ==> !isIdentPart(input[n])
  {
    if input == [] || !isIdentPart(input[0]) then 0 else 1 + IdentLength(isIdentPart, input[1..])
  }

  /** The longest prefix of the input that consists of identifier parts. */
  function Word(isIdentPart: nat -> bool, input: Text): Text {
    input[..IdentLength(isIdentPart, input)]
  }

  function Expected(entry: Option<Token>, word: Text): Result {
    match entry
    case None => Ident
    case Some(token) => Keyword(token, |word|, word)
  }

  lemma {:induction false} ChainSkips(code: Code, k: nat, i: nat, t: Target, isIdentPart: nat -> bool, input: Text)
    requires k <= i <= |code.branches| && Compiles(code) && ReadsBelow(code, |input|)
    requires forall j :: k <= j < i ==> !t.Compare(input, code.branches[j].base, code.branches[j].chars)
    ensures EvalBranches(code, k, t, isIdentPart, input) == EvalBranches(code, i, t, isIdentPart, input)
    decreases i - k
  {
    if k < i {
      ChainSkips(code, k + 1, i, t, isIdentPart, input);
    }
  }

  /**
   * Once the full prefix has been matched, the comparison for a child holds exactly when the word goes on
   * with the child's prefix. The unit that a widened comparison adds has been matched already.
   */
  lemma BranchIsMatch(f: Filled, kid: Filled, body: Code, t: Target, isIdentPart: nat -> bool, input: Text)
    requires t.Valid() && UnitsBelow(input, t.units)
    requires kid.prefix != [] && |kid.prefix| <= 8 && kid.fullPrefix == f.fullPrefix + kid.prefix
    requires UnitsBelow(kid.prefix, 0x80) && AllUnits(kid.prefix, isIdentPart)
    requires |kid.fullPrefix| <= |input|
    requires f.fullPrefix <= Word(isIdentPart, input)
    ensures var b := EmitBranch(f, kid, body);
            1 <= |b.chars| <= 8 && b.base + |b.chars| == |kid.fullPrefix| &&
            (t.Compare(input, b.base, b.chars) <==> kid.prefix <= Word(isIdentPart, input)[|f.fullPrefix|..])
  {
    hide UnitsBelow, AllUnits, Matches, Word, EmitBranch;
    var b, n := EmitBranch(f, kid, body), |f.fullPrefix|;
    WordEnds(isIdentPart, input);
    BranchChars(f, kid, body);
    BranchUnits(f, kid, body, t.units, input);
    CompareIsMatch(t, input, b.base, b.chars);
    WideningIsHarmless(input, f.fullPrefix, kid.prefix, b.base);
    WordGoesOn(isIdentPart, input, n, kid.prefix);
  }

  lemma BranchChars(f: Filled, kid: Filled, body: Code)
    requires kid.prefix != [] && |kid.prefix| <= 8 && kid.fullPrefix == f.fullPrefix + kid.prefix
    ensures var b := EmitBranch(f, kid, body);
            b.base <= |f.fullPrefix| && b.chars == kid.fullPrefix[b.base..] && 1 <= |b.chars| <= 8
  {
  }

  lemma BranchUnits(f: Filled, kid: Filled, body: Code, units: nat, input: Text)
    requires units >= 0x80 && kid.fullPrefix == f.fullPrefix + kid.prefix
    requires UnitsBelow(kid.prefix, 0x80) && UnitsBelow(input, units) && f.fullPrefix <= input
    ensures UnitsBelow(EmitBranch(f, kid, body).chars, units)
  {
    assert forall i :: 0 <= i < |f.fullPrefix| ==> f.fullPrefix[i] == input[i];
  }

  /** Comparing some of what has been matched already, together with what comes next, asks nothing more. */
  lemma WideningIsHarmless(input: Text, done: Text, next: Text, base: nat)
    requires base <= |done| && done <= input && |done| + |next| <= |input|
    ensures Matches(input, base, (done + next)[base..]) <==> Matches(input, |done|, next)
  {
    var wide, n := (done + next)[base..], |done|;
    assert wide == done[base..] + next;
    assert input[base..base + |wide|] == input[base..n] + input[n..n + |next|];
    assert input[base..n] == done[base..];
    assert wide[n - base..] == next;
    assert input[base..base + |wide|][n - base..] == input[n..n + |next|];
  }

  lemma PrefixByUnit(s: Text, r: Text)
    ensures s <= r <==> |s| <= |r| && forall j :: 0 <= j < |s| ==> s[j] == r[j]
  {
  }

  lemma WordUnits(isIdentPart: nat -> bool, input: Text, n: nat)
    requires n <= IdentLength(isIdentPart, input)
    ensures n <= |Word(isIdentPart, input)|
    ensures var rest := Word(isIdentPart, input)[n..];
            |rest| == IdentLength(isIdentPart, input) - n && forall j :: 0 <= j < |rest| ==> rest[j] == input[n + j]
  {
    hide IdentLength;
  }

  /** A text of identifier parts continues the input just when it continues the word. */
  lemma WordGoesOn(isIdentPart: nat -> bool, input: Text, n: nat, s: Text)
    requires n <= IdentLength(isIdentPart, input) && n + |s| <= |input| && AllUnits(s, isIdentPart)
    ensures Matches(input, n, s) <==> s <= Word(isIdentPart, input)[n..]
  {
    hide IdentLength, Matches, Word;
    var len := IdentLength(isIdentPart, input);
    WordUnits(isIdentPart, input, n);
    var rest := Word(isIdentPart, input)[n..];
    MatchesByUnit(input, n, s);
    PrefixByUnit(s, rest);
    if |s| > |rest| {
      assert isIdentPart(s[len - n]) && !isIdentPart(input[n + (len - n)]);
    }
  }

  /** The trie node and its filled form fit each other, the macros, the target and the input. */
  ghost predicate Fit(
      tree: Tree, before: Text, weights: Weights, f: Filled,
      t: Target, p: nat -> bool, isIdentPart: nat -> bool, input: Text)
  {
    && FillsOut(tree, before, weights, f) && WellKeyed(tree) && ShortEdges(f) && EdgeUnits(tree, p)
    && (forall u: nat :: p(u) ==> isIdentPart(u) && u < 0x80)
    && t.Valid() && UnitsBelow(input, t.units)
  }

  predicate CanRun(f: Filled, input: Text) {
    Coherent(f) && Compiles(Emit(f)) && ReadsBelow(Emit(f), |input|)
  }

  /**
   * On a node whose full prefix has been matched, the emitted code returns what the trie holds for the
   * rest of the word, with the right shift and identifier.
   */
  lemma {:induction false} EmittedCodeLooksUp(
      tree: Tree, before: Text, weights: Weights, f: Filled,
      t: Target, p: nat -> bool, isIdentPart: nat -> bool, input: Text)
    requires Fit(tree, before, weights, f, t, p, isIdentPart, input) && CanRun(f, input)
    requires f.fullPrefix <= Word(isIdentPart, input)
    ensures var word := Word(isIdentPart, input);
            Eval(Emit(f), t, isIdentPart, input) == Expected(Lookup(tree, word[|f.fullPrefix|..]), word)
    decreases f
  {
    var word := Word(isIdentPart, input);
    var rest := word[|f.fullPrefix|..];
    if i :| 0 <= i < |f.keys| && f.keys[i].prefix <= rest && !Accepts(f, isIdentPart, input) {
      GoDown(tree, before, weights, f, i, t, p, isIdentPart, input);
      var kid := f.keys[i];
      EmittedCodeLooksUp(tree.kids[kid.prefix[0]], f.fullPrefix, weights, kid, t, p, isIdentPart, input);
    } else {
      StopHere(tree, before, weights, f, t, p, isIdentPart, input);
    }
  }

  /** The acceptance test of the node succeeds. */
  predicate Accepts(f: Filled, isIdentPart: nat -> bool, input: Text) {
    f.value.Some? && |f.fullPrefix| < |input| && !isIdentPart(input[|f.fullPrefix|])
  }

  /** If the node accepts, or no child goes on with the word, then the node settles the matter. */
  lemma StopHere(
      tree: Tree, before: Text, weights: Weights, f: Filled,
      t: Target, p: nat -> bool, isIdentPart: nat -> bool, input: Text)
    requires Fit(tree, before, weights, f, t, p, isIdentPart, input) && CanRun(f, input)
    requires f.fullPrefix <= Word(isIdentPart, input)
    requires Accepts(f, isIdentPart, input) ||
             forall i :: 0 <= i < |f.keys| ==> !(f.keys[i].prefix <= Word(isIdentPart, input)[|f.fullPrefix|..])
    ensures var word := Word(isIdentPart, input);
            Eval(Emit(f), t, isIdentPart, input) == Expected(Lookup(tree, word[|f.fullPrefix|..]), word)
  {
    hide Word, ShortEdges, EdgeUnits, WellKeyed, EvalBranches, Compiles, UnitsBelow;
    var code, word := Emit(f), Word(isIdentPart, input);
    WordEnds(isIdentPart, input);
    AcceptReads(code, |input|);
    if !Accepts(f, isIdentPart, input) {
      BranchesAreMatches(tree, before, weights, f, t, p, isIdentPart, input);
      ChainLeaves(code, t, isIdentPart, input);
      NothingBelow(tree, before, weights, f, word[|f.fullPrefix|..]);
    }
  }

  /** If the node does not accept and a child goes on with the word, the code goes down to that child. */
  lemma GoDown(
      tree: Tree, before: Text, weights: Weights, f: Filled, i: nat,
      t: Target, p: nat -> bool, isIdentPart: nat -> bool, input: Text)
    requires Fit(tree, before, weights, f, t, p, isIdentPart, input) && CanRun(f, input)
    requires f.fullPrefix <= Word(isIdentPart, input)
    requires i < |f.keys| && f.keys[i].prefix <= Word(isIdentPart, input)[|f.fullPrefix|..]
    requires !Accepts(f, isIdentPart, input)
    ensures var kid, word := f.keys[i], Word(isIdentPart, input);
            kid.prefix != [] && kid.prefix[0] in tree.kids && CanRun(kid, input) &&
            Fit(tree.kids[kid.prefix[0]], f.fullPrefix, weights, kid, t, p, isIdentPart, input) &&
            kid.fullPrefix <= word &&
            Lookup(tree, word[|f.fullPrefix|..]) == Lookup(tree.kids[kid.prefix[0]], word[|kid.fullPrefix|..]) &&
            Eval(Emit(f), t, isIdentPart, input) == Eval(Emit(kid), t, isIdentPart, input)
  {
    hide Word, Fit, Eval, Emit, Compiles, ReadsBelow, Accepts;
    var word, kid := Word(isIdentPart, input), f.keys[i];
    var rest := word[|f.fullPrefix|..];
    assert word == f.fullPrefix + rest;
    KidFits(tree, before, weights, f, i, t, p, isIdentPart, input);
    assert kid.fullPrefix == f.fullPrefix + kid.prefix;
    assert word[|kid.fullPrefix|..] == rest[|kid.prefix|..];
    KidLookup(tree, kid.prefix[0], rest);
    KidRuns(tree, before, weights, f, i, t, p, isIdentPart, input);
  }

  lemma KidRuns(
      tree: Tree, before: Text, weights: Weights, f: Filled, i: nat,
      t: Target, p: nat -> bool, isIdentPart: nat -> bool, input: Text)
    requires Fit(tree, before, weights, f, t, p, isIdentPart, input) && CanRun(f, input)
    requires f.fullPrefix <= Word(isIdentPart, input)
    requires i < |f.keys| && f.keys[i].prefix <= Word(isIdentPart, input)[|f.fullPrefix|..]
    requires !Accepts(f, isIdentPart, input)
    ensures CanRun(f.keys[i], input)
    ensures Eval(Emit(f), t, isIdentPart, input) == Eval(Emit(f.keys[i]), t, isIdentPart, input)
  {
    hide Word, Fit, EvalBranches, Compiles;
    var code := Emit(f);
    AcceptReads(code, |input|);
    KidCanRun(f, i, input);
    BranchesAreMatches(tree, before, weights, f, t, p, isIdentPart, input);
    OnlyOneMatches(tree, before, weights, f, i, t, p, isIdentPart, input, Word(isIdentPart, input)[|f.fullPrefix|..]);
    ChainEnters(code, i, t, isIdentPart, input);
  }

  lemma KidCanRun(f: Filled, i: nat, input: Text)
    requires i < |f.keys| && CanRun(f, input)
    ensures CanRun(f.keys[i], input) && Emit(f).branches[i].body == Emit(f.keys[i])
  {
  }

  lemma KidFits(
      tree: Tree, before: Text, weights: Weights, f: Filled, i: nat,
      t: Target, p: nat -> bool, isIdentPart: nat -> bool, input: Text)
    requires i < |f.keys| && Fit(tree, before, weights, f, t, p, isIdentPart, input)
    ensures f.keys[i].prefix != [] && f.keys[i].prefix[0] in tree.kids
    ensures tree.kids[f.keys[i].prefix[0]].prefix == f.keys[i].prefix
    ensures Fit(tree.kids[f.keys[i].prefix[0]], f.fullPrefix, weights, f.keys[i], t, p, isIdentPart, input)
  {
    hide UnitsBelow;
    var c := f.keys[i].prefix[0];
    assert FillsOut(tree.kids[c], f.fullPrefix, weights, f.keys[i]);
    assert WellKeyed(tree.kids[c]) && EdgeUnits(tree.kids[c], p);
  }

  lemma KidLookup(tree: Tree, c: nat, rest: Text)
    requires c in tree.kids && tree.kids[c].prefix != [] && tree.kids[c].prefix[0] == c && tree.kids[c].prefix <= rest
    ensures Lookup(tree, rest) == Lookup(tree.kids[c], rest[|tree.kids[c].prefix|..])
  {
    assert rest[0] == c;
  }

  lemma AcceptReads(code: Code, n: nat)
    requires ReadsBelow(code, n)
    ensures code.accept.Some? ==> code.accept.value.index < n
  {
  }

  /** The word is a prefix of the input, and the unit after it is no identifier part. */
  lemma WordEnds(isIdentPart: nat -> bool, input: Text)
    ensures var word := Word(isIdentPart, input);
            word <= input &&
            (forall i :: 0 <= i < |word| ==> isIdentPart(input[i])) &&
            (|word| < |input| ==> !isIdentPart(input[|word|]))
  {
  }

  lemma BranchesAreMatches(
      tree: Tree, before: Text, weights: Weights, f: Filled,
      t: Target, p: nat -> bool, isIdentPart: nat -> bool, input: Text)
    requires Fit(tree, before, weights, f, t, p, isIdentPart, input) && CanRun(f, input)
    requires f.fullPrefix <= Word(isIdentPart, input)
    ensures var code, rest := Emit(f), Word(isIdentPart, input)[|f.fullPrefix|..];
            forall i :: 0 <= i < |f.keys| ==>
              (t.Compare(input, code.branches[i].base, code.branches[i].chars) <==> f.keys[i].prefix <= rest)
  {
    hide Word, EmitBranch;
    var code, rest := Emit(f), Word(isIdentPart, input)[|f.fullPrefix|..];
    forall i | 0 <= i < |f.keys|
      ensures t.Compare(input, code.branches[i].base, code.branches[i].chars) <==> f.keys[i].prefix <= rest
    {
      KidFits(tree, before, weights, f, i, t, p, isIdentPart, input);
      KidUnits(tree, f, i, p, isIdentPart);
      BranchSpan(f, f.keys[i], Emit(f.keys[i]));
      BranchIsMatch(f, f.keys[i], Emit(f.keys[i]), t, isIdentPart, input);
    }
  }

  lemma BranchSpan(f: Filled, kid: Filled, body: Code)
    requires kid.fullPrefix == f.fullPrefix + kid.prefix
    ensures var b := EmitBranch(f, kid, body); b.base + |b.chars| == |kid.fullPrefix|
  {
  }

  lemma OnlyOneMatches(
      tree: Tree, before: Text, weights: Weights, f: Filled, i: nat,
      t: Target, p: nat -> bool, isIdentPart: nat -> bool, input: Text, rest: Text)
    requires Fit(tree, before, weights, f, t, p, isIdentPart, input)
    requires i < |f.keys| && f.keys[i].prefix <= rest
    ensures forall j :: 0 <= j < |f.keys| && j != i ==> !(f.keys[j].prefix <= rest)
  {
    forall j | 0 <= j < |f.keys| && j != i ensures !(f.keys[j].prefix <= rest) {
      assert f.keys[j].prefix[0] != f.keys[i].prefix[0] == rest[0];
    }
  }

  lemma ChainEnters(code: Code, i: nat, t: Target, isIdentPart: nat -> bool, input: Text)
    requires i < |code.branches| && Compiles(code) && ReadsBelow(code, |input|)
    requires t.Compare(input, code.branches[i].base, code.branches[i].chars)
    requires forall j :: 0 <= j < i ==> !t.Compare(input, code.branches[j].base, code.branches[j].chars)
    ensures EvalBranches(code, 0, t, isIdentPart, input) == Eval(code.branches[i].body, t, isIdentPart, input)
  {
    ChainSkips(code, 0, i, t, isIdentPart, input);
  }

  lemma ChainLeaves(code: Code, t: Target, isIdentPart: nat -> bool, input: Text)
    requires Compiles(code) && ReadsBelow(code, |input|)
    requires forall j :: 0 <= j < |code.branches| ==> !t.Compare(input, code.branches[j].base, code.branches[j].chars)
    ensures EvalBranches(code, 0, t, isIdentPart, input) == Ident
  {
    ChainSkips(code, 0, |code.branches|, t, isIdentPart, input);
  }

  lemma KidUnits(tree: Tree, f: Filled, i: nat, p: nat -> bool, isIdentPart: nat -> bool)
    requires EdgeUnits(tree, p) && i < |f.keys| && f.keys[i].prefix != []
    requires f.keys[i].prefix[0] in tree.kids && tree.kids[f.keys[i].prefix[0]].prefix == f.keys[i].prefix
    requires forall u: nat :: p(u) ==> isIdentPart(u) && u < 0x80
    ensures UnitsBelow(f.keys[i].prefix, 0x80) && AllUnits(f.keys[i].prefix, isIdentPart)
  {
    var s := f.keys[i].prefix;
    assert AllUnits(s, p);
    forall j | 0 <= j < |s| ensures isIdentPart(s[j]) && s[j] < 0x80 {
      assert p(s[j]);
    }
  }

  lemma NothingBelow(tree: Tree, before: Text, weights: Weights, f: Filled, rest: Text)
    requires FillsOut(tree, before, weights, f)
    requires forall i :: 0 <= i < |f.keys| ==> !(f.keys[i].prefix <= rest)
    ensures rest != [] ==> Lookup(tree, rest).None?
  {
    if rest != [] && rest[0] in tree.kids {
      var i :| 0 <= i < |f.keys| && f.keys[i].prefix[0] == rest[0];
      assert FillsOut(tree.kids[rest[0]], f.fullPrefix, weights, f.keys[i]);
    }
  }

  /** A table as the generator wants it: keywords are not empty and consist of ASCII identifier parts. */
  ghost predicate GoodTable(table: seq<Entry>, isIdentPart: nat -> bool) {
    forall i :: 0 <= i < |table| ==>
      table[i].0 != [] && forall j :: 0 <= j < |table[i].0| ==> isIdentPart(table[i].0[j]) && table[i].0[j] < 0x80
  }

  /**
   * The main theorem. For every table, every order `fillOut` may have put siblings in, every target and
   * every input that is as long as the emitted assertion demands, the recogniser returns the token of the
   * last entry for the input's longest identifier prefix, and IDENT if there is none.
   */
  lemma RecogniserIsTable(
      table: seq<Entry>, weights: Weights, f: Filled, t: Target, isIdentPart: nat -> bool, input: Text)
    requires GoodTable(table, isIdentPart)
    requires FillsOut(Compile(table), [], weights, f) && ShortEdges(f)
    requires t.Valid() && UnitsBelow(input, t.units)
    requires |input| >= MaxTokenLength(f)
    ensures Coherent(f) && Compiles(Emit(f)) && ReadsBelow(Emit(f), |input|)
    ensures var word := Word(isIdentPart, input);
            Eval(Emit(f), t, isIdentPart, input) == Expected(LastEntry(table, word), word)
  {
    hide Eval, Word, EdgeUnits, ShortEdges, Build, Compiles, ReadsBelow;
    var tree, word := Compile(table), Word(isIdentPart, input);
    var p := (u: nat) => isIdentPart(u) && u < 0x80;
    CompileIsTable(table);
    CompiledReadsBelow(table, weights, f, |input|);
    CompilesIffShortEdges(f);
    BuildHasEdgeUnits(table, p);
    CoalesceKeepsEdgeUnits(Build(table), p);
    BuildHasEmptyPrefix(table);
    EmittedCodeLooksUp(tree, [], weights, f, t, p, isIdentPart, input);
    assert word[0..] == word;
  }

  /** For every table without the empty keyword, the emitted code reads below `maxTokenLength`, and no bound is tighter. */
  lemma CompiledReadsBelow(table: seq<Entry>, weights: Weights, f: Filled, n: nat)
    requires forall i :: 0 <= i < |table| ==> table[i].0 != []
    requires FillsOut(Compile(table), [], weights, f)
    ensures Coherent(f)
    ensures MaxTokenLength(f) <= n ==> ReadsBelow(Emit(f), n)
    ensures ReadsBelow(Emit(f), n) && table != [] ==> MaxTokenLength(f) <= n
  {
    CompileIsTable(table);
    FilledIsCoherent(Compile(table), [], weights, f);
    FilledIsLive(Compile(table), [], weights, f);
    if table == [] {
      assert f.value.None? && f.keys == [];
    } else {
      RootHasChildren(table, weights, f);
      ReadsBelowMaxTokenLength(f, n);
    }
  }

  lemma BuildHasEmptyPrefix(table: seq<Entry>)
    ensures Build(table).prefix == []
  {
  }

  lemma RootHasChildren(table: seq<Entry>, weights: Weights, f: Filled)
    requires table != [] && table[|table| - 1].0 != []
    requires FillsOut(Compile(table), [], weights, f)
    ensures f.keys != []
  {
    var n := |table| - 1;
    assert table[n].0[0] in Build(table).kids;
  }
}
