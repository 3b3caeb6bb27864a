/** What the keyword table itself says about the generated code: how far it reads, and whether it compiles. */
module KeywordTable {
  import opened Options
  import opened KeywordTrie
  import opened KeywordCode

  // ----- maxTokenLength is one more than the length of the longest keyword, and is needed -----

  lemma {:induction false} HeldTextsFit(t: Tree, before: Text, weights: Weights, f: Filled, s: Text)
    requires FillsOut(t, before, weights, f) && WellKeyed(t) && Lookup(t, s).Some?
    ensures |f.fullPrefix| + |s| <= MaxLength(f)
    decreases f
  {
    hide FillsOut;
    MaxLengthBounds(f, |f.keys|);
    FilledKids(t, before, weights, f);
    if s != [] {
      var kid := t.kids[s[0]];
      var i :| 0 <= i < |f.keys| && f.keys[i].prefix[0] == s[0];
      FilledIsExtended(t, before, weights, f, i);
      HeldTextsFit(kid, f.fullPrefix, weights, f.keys[i], s[|kid.prefix|..]);
    }
  }

  lemma FilledIsExtended(t: Tree, before: Text, weights: Weights, f: Filled, i: nat)
    requires FillsOut(t, before, weights, f) && i < |f.keys|
    ensures f.keys[i].prefix != [] && f.keys[i].prefix[0] in t.kids
    ensures f.keys[i].fullPrefix == f.fullPrefix + f.keys[i].prefix
  {
    assert FillsOut(t.kids[f.keys[i].prefix[0]], f.fullPrefix, weights, f.keys[i]);
  }

  lemma SameValue(t: Tree, before: Text, weights: Weights, f: Filled)
    requires FillsOut(t, before, weights, f)
    ensures f.value == t.value
  {
  }

  lemma LongestIsBelow(t: Tree, before: Text, weights: Weights, f: Filled)
    requires FillsOut(t, before, weights, f) && f.keys != []
    ensures MaxLength(f) > |f.fullPrefix|
  {
    hide FillsOut;
    MaxLengthBounds(f, |f.keys|);
    MaxLengthBounds(f.keys[0], |f.keys[0].keys|);
    FilledIsExtended(t, before, weights, f, 0);
  }

  /** Some text that the trie holds is as long as the longest full prefix. */
  lemma {:induction false} LongestIsHeld(t: Tree, before: Text, weights: Weights, f: Filled) returns (s: Text)
    requires FillsOut(t, before, weights, f) && WellKeyed(t)
    requires LiveBelow(f) && (f.value.Some? || f.keys != [])
    ensures Lookup(t, s).Some? && |f.fullPrefix| + |s| == MaxLength(f)
    decreases f
  {
    hide FillsOut, MaxLength;
    SameValue(t, before, weights, f);
    if MaxLength(f) == |f.fullPrefix| {
      if f.keys != [] {
        LongestIsBelow(t, before, weights, f);
      }
      s := [];
    } else {
      var i := LongestKid(f);
      FilledKids(t, before, weights, f);
      FilledIsExtended(t, before, weights, f, i);
      var kid := t.kids[f.keys[i].prefix[0]];
      var rest := LongestIsHeld(kid, f.fullPrefix, weights, f.keys[i]);
      s := kid.prefix + rest;
      assert s[|kid.prefix|..] == rest;
    }
  }

  lemma LongestKid(f: Filled) returns (i: nat)
    requires MaxLength(f) != |f.fullPrefix|
    ensures i < |f.keys| && MaxLength(f.keys[i]) == MaxLength(f)
  {
    MaxLengthBounds(f, |f.keys|);
    i :| 0 <= i < |f.keys| && MaxLength(f.keys[i]) == MaxLength(f);
  }

  /** `maxTokenLength` exceeds the length of every keyword, and that of some keyword by one. */
  lemma MaxTokenLengthIsLongest(table: seq<Entry>, weights: Weights, f: Filled) returns (longest: nat)
    requires table != [] && forall i :: 0 <= i < |table| ==> table[i].0 != []
    requires FillsOut(Compile(table), [], weights, f)
    ensures forall i :: 0 <= i < |table| ==> |table[i].0| < MaxTokenLength(f)
    ensures longest < |table| && |table[longest].0| + 1 == MaxTokenLength(f)
  {
    var t := Compile(table);
    CompileIsTable(table);
    FilledIsLive(t, [], weights, f);
    RootHasChildren(table, weights, f);
    RootPrefix(table, weights, f);
    hide FillsOut, Compile, Lookup;
    forall i | 0 <= i < |table| ensures |table[i].0| < MaxTokenLength(f) {
      LastEntryMeaning(table, table[i].0);
      HeldTextsFit(t, [], weights, f, table[i].0);
    }
    var s := LongestIsHeld(t, [], weights, f);
    LastEntryMeaning(table, s);
    longest :| longest < |table| && table[longest].0 == s;
  }

  lemma RootPrefix(table: seq<Entry>, weights: Weights, f: Filled)
    requires FillsOut(Compile(table), [], weights, f)
    ensures f.fullPrefix == []
  {
    BuildHasEmptyPrefix(table);
  }

  /** The places at which an evaluation asks whether a unit is an identifier part. */
  function Asked(code: Code, t: Target, isIdentPart: nat -> bool, input: Text): set<nat>
    requires Compiles(code) && ReadsBelow(code, |input|)
    decreases code, |code.branches| + 1
  {
    if code.accept.None? then AskedFrom(code, 0, t, isIdentPart, input)
    else if isIdentPart(input[code.accept.value.index]) then
      {code.accept.value.index} + AskedFrom(code, 0, t, isIdentPart, input)
    else
      {code.accept.value.index}
  }

  function AskedFrom(code: Code, k: nat, t: Target, isIdentPart: nat -> bool, input: Text): set<nat>
    requires k <= |code.branches| && Compiles(code) && ReadsBelow(code, |input|)
    decreases code, |code.branches| - k
  {
    if k == |code.branches| then {}
    else if t.Compare(input, code.branches[k].base, code.branches[k].chars) then
      Asked(code.branches[k].body, t, isIdentPart, input)
    else
      AskedFrom(code, k + 1, t, isIdentPart, input)
  }

  lemma {:induction false} KeywordIsAsked(code: Code, t: Target, isIdentPart: nat -> bool, input: Text)
    requires Compiles(code) && ReadsBelow(code, |input|) && ShiftsToIndex(code)
    ensures var r := Eval(code, t, isIdentPart, input); r.Keyword? ==> r.shift in Asked(code, t, isIdentPart, input)
    decreases code, |code.branches| + 1
  {
    KeywordIsAskedFrom(code, 0, t, isIdentPart, input);
  }

  lemma {:induction false} KeywordIsAskedFrom(code: Code, k: nat, t: Target, isIdentPart: nat -> bool, input: Text)
    requires k <= |code.branches| && Compiles(code) && ReadsBelow(code, |input|) && ShiftsToIndex(code)
    ensures var r := EvalBranches(code, k, t, isIdentPart, input);
            r.Keyword? ==> r.shift in AskedFrom(code, k, t, isIdentPart, input)
    decreases code, |code.branches| - k
  {
    if k < |code.branches| {
      KeywordIsAsked(code.branches[k].body, t, isIdentPart, input);
      KeywordIsAskedFrom(code, k + 1, t, isIdentPart, input);
    }
  }

  lemma {:induction false} WordOfKeyword(isIdentPart: nat -> bool, s: Text, end: nat)
    requires AllUnits(s, isIdentPart) && !isIdentPart(end)
    ensures Word(isIdentPart, s + [end]) == s
  {
    if s != [] {
      assert (s + [end])[1..] == s[1..] + [end];
      WordOfKeyword(isIdentPart, s[1..], end);
    }
  }

  /** On the longest keyword followed by some unit that is no identifier part, the last unit below `maxTokenLength` is read. */
  lemma BoundIsReached(table: seq<Entry>, weights: Weights, f: Filled, t: Target, isIdentPart: nat -> bool, end: nat)
    returns (input: Text)
    requires table != [] && GoodTable(table, isIdentPart)
    requires FillsOut(Compile(table), [], weights, f) && ShortEdges(f)
    requires t.Valid() && end < t.units && !isIdentPart(end)
    ensures UnitsBelow(input, t.units) && |input| == MaxTokenLength(f)
    ensures Coherent(f) && Compiles(Emit(f)) && ReadsBelow(Emit(f), |input|)
    ensures MaxTokenLength(f) - 1 in Asked(Emit(f), t, isIdentPart, input)
  {
    hide FillsOut, Compile, Eval, Word, Emit, Compiles, ReadsBelow, ShortEdges, Coherent, Asked, ShiftsToIndex;
    var longest := MaxTokenLengthIsLongest(table, weights, f);
    var s := table[longest].0;
    input := s + [end];
    WordOfKeyword(isIdentPart, s, end);
    RecogniserIsTable(table, weights, f, t, isIdentPart, input);
    LastEntryMeaning(table, s);
    EmitShiftsToIndex(f);
    KeywordIsAsked(Emit(f), t, isIdentPart, input);
  }

  // ----- When the generated code compiles -----

  /** The path `p` leads to a node, if all edges are single. */
  predicate Has(t: Tree, p: Text)
    decreases p
  {
    p == [] || (p[0] in t.kids && Has(t.kids[p[0]], p[1..]))
  }

  /** Compression does not merge this node with its child. */
  predicate Stays(t: Tree) {
    t.value.Some? || |t.kids| >= 2
  }

  function NodeAt(t: Tree, p: Text): Tree
    requires Has(t, p)
    decreases p
  {
    if p == [] then t else NodeAt(t.kids[p[0]], p[1..])
  }

  /** No more than eight edges are merged into one, if `n` have been so far. */
  predicate ShortRuns(t: Tree, n: nat) {
    forall c :: c in t.kids ==> n < 8 && ShortRuns(t.kids[c], if Stays(t.kids[c]) then 0 else n + 1)
  }

  lemma KidIsLive(t: Tree, c: nat)
    requires Live(t) && SingleEdges(t) && c in t.kids
    ensures var kid := t.kids[c];
            Live(kid) && SingleEdges(kid) && kid.prefix == [c] && (kid.value.Some? || kid.kids.Keys != {})
  {
  }

  lemma {:induction false} CoalescedRun(u: Tree, n: nat)
    requires Live(u) && SingleEdges(u) && |u.prefix| == 1 && (u.value.Some? || u.kids.Keys != {})
    ensures n + |Coalesce(u).prefix| <= 8 && ShortPrefixes(Coalesce(u)) <==>
            n < 8 && ShortRuns(u, if Stays(u) then 0 else n + 1)
    decreases u, 1
  {
    hide ShortPrefixes, ShortRuns, Live, SingleEdges;
    if Stays(u) {
      KeptRuns(u);
    } else {
      var c := OnlyKid(u);
      hide *;
      CoalescedChain(u, c);
      KidIsLive(u, c);
      RunsOfKids(u, n + 1);
      CoalescedRun(u.kids[c], n + 1);
    }
  }

  lemma OnlyKid(u: Tree) returns (c: nat)
    requires !Stays(u) && u.kids.Keys != {}
    ensures u.kids.Keys == {c} && u.value.None?
  {
    assert |u.kids.Keys| == 1;
    c := OnlyKey(u.kids);
  }

  /** A node that does not stay takes its only child's place. */
  lemma CoalescedChain(u: Tree, c: nat)
    requires u.kids.Keys == {c} && u.value.None?
    ensures |Coalesce(u).prefix| == |u.prefix| + |Coalesce(u.kids[c]).prefix|
    ensures ShortPrefixes(Coalesce(u)) <==> ShortPrefixes(Coalesce(u.kids[c]))
  {
    var r := CoalesceKids(u);
    assert |r.kids.Keys| == 1;
    assert OnlyKey(r.kids) == c;
    hide ShortPrefixes;
    SamePrefixes(Coalesce(u), Coalesce(u.kids[c]));
  }

  lemma SamePrefixes(a: Tree, b: Tree)
    requires a.kids == b.kids
    ensures ShortPrefixes(a) <==> ShortPrefixes(b)
  {
  }

  lemma PrefixesOfKids(t: Tree)
    ensures ShortPrefixes(CoalesceKids(t)) <==>
            forall c :: c in t.kids ==> |Coalesce(t.kids[c]).prefix| <= 8 && ShortPrefixes(Coalesce(t.kids[c]))
  {
    hide Coalesce;
  }

  lemma {:induction false} KeptRuns(t: Tree)
    requires Live(t) && SingleEdges(t)
    ensures ShortPrefixes(CoalesceKids(t)) <==> ShortRuns(t, 0)
    decreases t, 0
  {
    hide *;
    forall c | c in t.kids
      ensures |Coalesce(t.kids[c]).prefix| <= 8 && ShortPrefixes(Coalesce(t.kids[c])) <==>
              ShortRuns(t.kids[c], if Stays(t.kids[c]) then 0 else 1)
    {
      KidIsLive(t, c);
      CoalescedRun(t.kids[c], 0);
    }
    PrefixesOfKids(t);
    RunsOfKids(t, 0);
  }

  lemma RunsOfKids(t: Tree, n: nat)
    ensures ShortRuns(t, n) <==>
            forall c :: c in t.kids ==> n < 8 && ShortRuns(t.kids[c], if Stays(t.kids[c]) then 0 else n + 1)
  {
  }

  /** For each node on a path, but the first, whether it stays. */
  function Marks(t: Tree, p: Text): (marks: seq<bool>)
    requires Has(t, p)
    ensures |marks| == |p|
    decreases p
  {
    if p == [] then [] else [Stays(t.kids[p[0]])] + Marks(t.kids[p[0]], p[1..])
  }

  predicate ShortRun(marks: seq<bool>, n: nat)
    decreases marks
  {
    marks == [] || (n < 8 && ShortRun(marks[1..], if marks[0] then 0 else n + 1))
  }

  lemma {:induction false} RunsArePaths(t: Tree, n: nat)
    ensures ShortRuns(t, n) <==> forall p :: Has(t, p) ==> ShortRun(Marks(t, p), n)
    decreases t
  {
    forall c | c in t.kids
      ensures var m := if Stays(t.kids[c]) then 0 else n + 1;
              ShortRuns(t.kids[c], m) <==> forall p :: Has(t.kids[c], p) ==> ShortRun(Marks(t.kids[c], p), m)
    {
      RunsArePaths(t.kids[c], if Stays(t.kids[c]) then 0 else n + 1);
    }
    if ShortRuns(t, n) {
      forall p | Has(t, p) ensures ShortRun(Marks(t, p), n) {
        if p != [] {
          var c := p[0];
          assert Has(t.kids[c], p[1..]);
          assert Marks(t, p)[1..] == Marks(t.kids[c], p[1..]);
        }
      }
    } else {
      var c :| c in t.kids && !(n < 8 && ShortRuns(t.kids[c], if Stays(t.kids[c]) then 0 else n + 1));
      RunsArePaths(t.kids[c], if Stays(t.kids[c]) then 0 else n + 1);
      var p := BadPath(t, c, n);
    }
  }

  lemma BadPath(t: Tree, c: nat, n: nat) returns (p: Text)
    requires c in t.kids
    requires var m := if Stays(t.kids[c]) then 0 else n + 1;
             n >= 8 || exists q :: Has(t.kids[c], q) && !ShortRun(Marks(t.kids[c], q), m)
    ensures Has(t, p) && !ShortRun(Marks(t, p), n)
  {
    var kid := t.kids[c];
    var q: Text := [];
    if n < 8 {
      q :| Has(kid, q) && !ShortRun(Marks(kid, q), if Stays(kid) then 0 else n + 1);
    }
    p := [c] + q;
    assert p[1..] == q;
    assert Marks(t, p)[1..] == Marks(kid, q);
  }

  /** Some mark in the stretch from `from` up to `to`. */
  predicate Marked(marks: seq<bool>, from: int, to: int) {
    exists j :: 0 <= j < |marks| && from <= j < to && marks[j]
  }

  predicate MarkedAfter(marks: seq<bool>, i: int) {
    Marked(marks, i, i + 8)
  }

  predicate EveryWindow(marks: seq<bool>) {
    forall i :: 0 <= i <= |marks| - 9 ==> MarkedAfter(marks, i)
  }

  predicate FirstWindow(marks: seq<bool>, n: nat) {
    n + |marks| >= 9 ==> Marked(marks, 0, 8 - n)
  }

  /** Counting along the path comes to the same as looking at all stretches of nine. */
  lemma {:induction false} RunsAreWindows(marks: seq<bool>, n: nat)
    requires n <= 8
    ensures ShortRun(marks, n) <==> EveryWindow(marks) && FirstWindow(marks, n)
    decreases marks
  {
    if marks != [] {
      var rest, m := marks[1..], if marks[0] then 0 else n + 1;
      if n < 8 {
        RunsAreWindows(rest, m);
      }
      if EveryWindow(marks) && FirstWindow(marks, n) {
        assert Marked(marks, 0, 0) ==> false;
        WindowsOfRest(marks, n);
      }
      if ShortRun(marks, n) {
        WindowsOfWhole(marks, n);
      }
    }
  }

  lemma MarkedLater(marks: seq<bool>)
    requires marks != []
    ensures forall i, k :: Marked(marks[1..], i, k) ==> Marked(marks, i + 1, k + 1)
    ensures forall i, k :: Marked(marks, i, k) ==> (i <= 0 < k && marks[0]) || Marked(marks[1..], i - 1, k - 1)
  {
    var rest := marks[1..];
    forall i, k | Marked(rest, i, k) ensures Marked(marks, i + 1, k + 1) {
      var j :| 0 <= j < |rest| && i <= j < k && rest[j];
      assert marks[j + 1];
    }
    forall i, k | Marked(marks, i, k) && !(i <= 0 < k && marks[0]) ensures Marked(rest, i - 1, k - 1) {
      var j :| 0 <= j < |marks| && i <= j < k && marks[j];
      assert rest[j - 1];
    }
  }

  lemma MarkedInMore(marks: seq<bool>, from: int, to: int, from': int, to': int)
    requires Marked(marks, from, to) && (from' <= from || from' <= 0) && to <= to'
    ensures Marked(marks, from', to')
  {
    var j :| 0 <= j < |marks| && from <= j < to && marks[j];
    assert marks[j];
  }

  lemma WindowsOfRest(marks: seq<bool>, n: nat)
    requires marks != [] && n < 8 && EveryWindow(marks) && FirstWindow(marks, n)
    ensures EveryWindow(marks[1..]) && FirstWindow(marks[1..], if marks[0] then 0 else n + 1)
  {
    MarkedLater(marks);
    hide Marked;
    var rest := marks[1..];
    forall i | 0 <= i <= |rest| - 9 ensures MarkedAfter(rest, i) {
      assert MarkedAfter(marks, i + 1);
    }
    if !marks[0] && n + |marks| >= 9 {
      MarkedInMore(rest, -1, 7 - n, 0, 7 - n);
    }
    if marks[0] && |rest| >= 9 {
      assert MarkedAfter(marks, 1);
    }
  }

  lemma WindowsOfWhole(marks: seq<bool>, n: nat)
    requires marks != [] && n < 8
    requires EveryWindow(marks[1..]) && FirstWindow(marks[1..], if marks[0] then 0 else n + 1)
    ensures EveryWindow(marks) && FirstWindow(marks, n)
  {
    MarkedLater(marks);
    var rest := marks[1..];
    if marks[0] {
      assert Marked(marks, 0, 1);
    }
    hide Marked;
    if n + |marks| >= 9 {
      if marks[0] {
        MarkedInMore(marks, 0, 1, 0, 8 - n);
      } else {
        MarkedInMore(marks, 1, 8 - n, 0, 8 - n);
      }
    }
    forall i | 0 <= i <= |marks| - 9 ensures MarkedAfter(marks, i) {
      if i > 0 {
        assert MarkedAfter(rest, i - 1);
      } else {
        MarkedInMore(marks, 0, 8 - n, 0, 8);
      }
    }
  }

  // ----- ... in terms of the table -----

  /** Some keyword starts with `p`. */
  predicate Begins(table: seq<Entry>, p: Text) {
    exists i :: 0 <= i < |table| && p <= table[i].0
  }

  predicate IsKeyword(table: seq<Entry>, p: Text) {
    exists i :: 0 <= i < |table| && table[i].0 == p
  }

  /** Some keyword goes on from `p` with unit `c`. */
  predicate ContinuesWith(table: seq<Entry>, p: Text, c: nat) {
    Begins(table, p + [c])
  }

  /** `p` is a keyword, or keywords go on from it in two ways. */
  ghost predicate IsStop(table: seq<Entry>, p: Text) {
    IsKeyword(table, p) || exists c, d :: c != d && ContinuesWith(table, p, c) && ContinuesWith(table, p, d)
  }

  /** One of the prefixes of length `i + 1` to `i + 8` is a stop. */
  ghost predicate StopAfter(table: seq<Entry>, w: Text, i: nat) {
    exists j :: i < j <= i + 8 && j <= |w| && IsStop(table, w[..j])
  }

  /** In every keyword, every stretch of nine units has a stop inside. */
  ghost predicate HasStops(table: seq<Entry>) {
    forall k, i :: 0 <= k < |table| && 0 <= i <= |table[k].0| - 9 ==> StopAfter(table, table[k].0, i)
  }

  lemma {:induction false} InsertHas(t: Tree, key: Text, v: Token, p: Text)
    ensures Has(Insert(t, key, v), p) <==> Has(t, p) || p <= key
    decreases key
  {
    if key != [] && p != [] && p[0] == key[0] {
      var kid := if key[0] in t.kids then t.kids[key[0]] else Tree([key[0]], None, map[]);
      InsertHas(kid, key[1..], v, p[1..]);
      assert p == [p[0]] + p[1..] && key == [key[0]] + key[1..];
    }
  }

  lemma {:induction false} BuildHas(table: seq<Entry>, p: Text)
    ensures Has(Build(table), p) <==> p == [] || Begins(table, p)
  {
    if table != [] {
      var n := |table| - 1;
      BuildHas(table[..n], p);
      InsertHas(Build(table[..n]), table[n].0, table[n].1, p);
      hide Has;
      if Begins(table, p) {
        var i :| 0 <= i < |table| && p <= table[i].0;
        assert i < n ==> p <= table[..n][i].0;
      }
      if Begins(table[..n], p) {
        var i :| 0 <= i < n && p <= table[..n][i].0;
        assert p <= table[i].0;
      }
    }
  }

  lemma {:induction false} NodeFacts(t: Tree, p: Text)
    requires SingleEdges(t) && Has(t, p)
    ensures Lookup(t, p) == NodeAt(t, p).value
    ensures forall c :: c in NodeAt(t, p).kids <==> Has(t, p + [c])
    decreases p
  {
    if p == [] {
      assert forall c: nat :: ([] + [c])[1..] == [];
    } else {
      NodeFacts(t.kids[p[0]], p[1..]);
      assert forall c: nat :: (p + [c])[1..] == p[1..] + [c];
    }
  }

  lemma TwoKids(kids: map<nat, Tree>)
    ensures |kids| >= 2 <==> exists c, d :: c != d && c in kids && d in kids
  {
    if |kids| >= 2 {
      assert |kids.Keys| >= 2;
      var c :| c in kids.Keys;
      assert |kids.Keys - {c}| >= 1;
      var d :| d in kids.Keys - {c};
    }
    forall c, d | c != d && c in kids && d in kids ensures |kids.Keys| >= 2 {
      assert {c, d} <= kids.Keys;
      SubsetSize({c, d}, kids.Keys);
    }
  }

  lemma SubsetSize(a: set<nat>, b: set<nat>)
    requires a <= b
    ensures |a| <= |b|
  {
    assert |b| == |a| + |b - a| by {
      assert b == a + (b - a);
    }
  }

  /** A node of the trie stays exactly if its path is a stop of the table. */
  lemma NodeStaysIff(table: seq<Entry>, p: Text)
    requires Has(Build(table), p)
    ensures Stays(NodeAt(Build(table), p)) <==> IsStop(table, p)
  {
    hide Has, NodeAt, Begins;
    var t := Build(table);
    var node := NodeAt(t, p);
    BuildIsTable(table, p);
    NodeFacts(t, p);
    LastEntryMeaning(table, p);
    TwoKids(node.kids);
    forall c ensures c in node.kids <==> ContinuesWith(table, p, c) {
      BuildHas(table, p + [c]);
    }
  }

  lemma {:induction false} MarkIsNode(t: Tree, p: Text, j: nat)
    requires Has(t, p) && j < |p|
    ensures Has(t, p[..j + 1]) && Marks(t, p)[j] == Stays(NodeAt(t, p[..j + 1]))
    decreases p
  {
    var q := p[..j + 1];
    if j == 0 {
      assert q[1..] == [];
    } else {
      MarkIsNode(t.kids[p[0]], p[1..], j - 1);
      assert q[1..] == p[1..][..j];
    }
  }

  lemma MarkedIffStop(table: seq<Entry>, p: Text, i: nat)
    requires Has(Build(table), p) && i + 9 <= |p|
    ensures Marked(Marks(Build(table), p), i, i + 8) <==> StopAfter(table, p, i)
  {
    hide IsStop, Stays, Has, Marks;
    var t := Build(table);
    var marks := Marks(t, p);
    forall j | 0 <= j < |p| ensures marks[j] <==> IsStop(table, p[..j + 1]) {
      MarkIsNode(t, p, j);
      NodeStaysIff(table, p[..j + 1]);
    }
    if Marked(marks, i, i + 8) {
      var j :| 0 <= j < |marks| && i <= j < i + 8 && marks[j];
      assert IsStop(table, p[..j + 1]);
    }
    if StopAfter(table, p, i) {
      var j :| i < j <= i + 8 && j <= |p| && IsStop(table, p[..j]);
      assert marks[j - 1];
    }
  }

  /** Every path in the trie of a table has a stop in each stretch of nine. */
  ghost predicate PathsHaveStops(table: seq<Entry>) {
    forall p :: Has(Build(table), p) ==> EveryWindow(Marks(Build(table), p))
  }

  lemma StopsOnPath(table: seq<Entry>, p: Text)
    requires HasStops(table) && Has(Build(table), p)
    ensures EveryWindow(Marks(Build(table), p))
  {
    hide Has, Marks, Marked, StopAfter;
    forall i | 0 <= i <= |p| - 9 ensures MarkedAfter(Marks(Build(table), p), i) {
      BuildHas(table, p);
      var k :| 0 <= k < |table| && p <= table[k].0;
      assert StopAfter(table, table[k].0, i);
      StopWithin(table, table[k].0, p, i);
      MarkedIffStop(table, p, i);
    }
  }

  lemma StopsInKeyword(table: seq<Entry>, k: nat, i: nat)
    requires PathsHaveStops(table) && k < |table| && i + 9 <= |table[k].0|
    ensures StopAfter(table, table[k].0, i)
  {
    hide Has, Marks, Marked, StopAfter;
    BuildHas(table, table[k].0);
    assert Begins(table, table[k].0);
    MarkedIffStop(table, table[k].0, i);
    assert MarkedAfter(Marks(Build(table), table[k].0), i);
  }

  lemma WindowsOfKeywords(table: seq<Entry>)
    ensures HasStops(table) <==> PathsHaveStops(table)
  {
    hide Has, Marks, StopAfter, EveryWindow, Build;
    if HasStops(table) {
      forall p | Has(Build(table), p) ensures EveryWindow(Marks(Build(table), p)) {
        StopsOnPath(table, p);
      }
    }
    if PathsHaveStops(table) {
      forall k, i | 0 <= k < |table| && 0 <= i <= |table[k].0| - 9 ensures StopAfter(table, table[k].0, i) {
        StopsInKeyword(table, k, i);
      }
    }
  }

  lemma StopWithin(table: seq<Entry>, w: Text, p: Text, i: nat)
    requires StopAfter(table, w, i) && p <= w && i + 9 <= |p|
    ensures StopAfter(table, p, i)
  {
    hide IsStop;
    var j :| i < j <= i + 8 && j <= |w| && IsStop(table, w[..j]);
    assert p[..j] == w[..j];
  }

  /**
   * All compressed edges are short, and so the generated code compiles, exactly if within any nine consecutive
   * units of a keyword some prefix is a keyword itself or is continued in two ways.
   */
  lemma ShortPrefixesIff(table: seq<Entry>)
    ensures ShortPrefixes(Compile(table)) <==> HasStops(table)
  {
    hide Has, Marks, ShortPrefixes, ShortRuns, HasStops, EveryWindow, ShortRun;
    var t := Build(table);
    BuildIsTable(table, []);
    BuildIsLive(table);
    KeptRuns(t);
    RunsArePaths(t, 0);
    WindowsOfKeywords(table);
    if PathsHaveStops(table) {
      forall p | Has(t, p) ensures ShortRun(Marks(t, p), 0) {
        RunIsWindows(Marks(t, p));
      }
    }
    if ShortRuns(t, 0) {
      forall p | Has(t, p) ensures EveryWindow(Marks(t, p)) {
        RunIsWindows(Marks(t, p));
      }
    }
  }

  lemma RunIsWindows(marks: seq<bool>)
    ensures ShortRun(marks, 0) <==> EveryWindow(marks)
  {
    RunsAreWindows(marks, 0);
    FirstIsEvery(marks);
  }

  lemma FirstIsEvery(marks: seq<bool>)
    ensures EveryWindow(marks) ==> FirstWindow(marks, 0)
  {
    assert |marks| >= 9 && EveryWindow(marks) ==> MarkedAfter(marks, 0);
  }
}
