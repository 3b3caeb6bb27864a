/** What the order of the branches means: the keywords that go through the earlier branch weigh more. */
module KeywordWeights {
  import opened Options
  import opened KeywordTrie
  import opened KeywordCode
  import opened KeywordTable
  import opened KeywordText
  import opened KeywordGenerator

  // ----- The keywords of a piece of code -----

  /** The keywords that a piece of code can return. */
  function Keywords(code: Code): seq<Text>
    decreases code, |code.branches| + 1
  {
    (if code.accept.Some? then [code.accept.value.ident] else []) + KeywordsFrom(code, 0)
  }

  function KeywordsFrom(code: Code, k: nat): seq<Text>
    requires k <= |code.branches|
    decreases code, |code.branches| - k
  {
    if k == |code.branches| then [] else Keywords(code.branches[k].body) + KeywordsFrom(code, k + 1)
  }

  /** The sum of their weights; what is not in the list of weights has none. */
  function Sum(weights: Weights, words: seq<Text>): real {
    if words == [] then 0.0
    else (if words[0] in weights then weights[words[0]] else 0.0) + Sum(weights, words[1..])
  }

  lemma {:induction false} SumOfConcat(weights: Weights, a: seq<Text>, b: seq<Text>)
    ensures Sum(weights, a + b) == Sum(weights, a) + Sum(weights, b)
  {
    if a == [] {
      assert a + b == b;
    } else {
      assert (a + b)[1..] == a[1..] + b;
      SumOfConcat(weights, a[1..], b);
    }
  }

  /** Of two branches of one chain, the earlier weighs at least as much as the later, here and below. */
  predicate HeaviestBranchesFirst(code: Code, weights: Weights) {
    && (forall i, j :: 0 <= i < j < |code.branches| ==>
          Sum(weights, Keywords(code.branches[i].body)) >= Sum(weights, Keywords(code.branches[j].body)))
    && forall i :: 0 <= i < |code.branches| ==> HeaviestBranchesFirst(code.branches[i].body, weights)
  }

  // ----- Nodes and the table -----

  /** Below a node the trie holds what the table says of the texts that start with its full prefix. */
  ghost predicate Agrees(t: Tree, fullPrefix: Text, table: seq<Entry>) {
    forall s :: Lookup(t, s) == LastEntry(table, fullPrefix + s)
  }

  lemma KidAgrees(t: Tree, fullPrefix: Text, table: seq<Entry>, c: nat)
    requires WellKeyed(t) && Agrees(t, fullPrefix, table) && c in t.kids
    ensures WellKeyed(t.kids[c]) && Agrees(t.kids[c], fullPrefix + t.kids[c].prefix, table)
  {
    hide LastEntry;
    var kid := t.kids[c];
    forall s ensures Lookup(kid, s) == LastEntry(table, (fullPrefix + kid.prefix) + s) {
      assert (kid.prefix + s)[0] == c && (kid.prefix + s)[|kid.prefix|..] == s;
      assert Lookup(t, kid.prefix + s) == LookupWhole(kid, kid.prefix + s) == Lookup(kid, s);
      assert (fullPrefix + kid.prefix) + s == fullPrefix + (kid.prefix + s);
    }
  }

  lemma NodeAgrees(t: Tree, before: Text, weights: Weights, f: Filled, table: seq<Entry>)
    requires FillsOut(t, before, weights, f) && Agrees(t, f.fullPrefix, table)
    ensures f.value == LastEntry(table, f.fullPrefix)
  {
    hide LastEntry;
    assert Lookup(t, []) == LastEntry(table, f.fullPrefix + []);
    assert f.fullPrefix + [] == f.fullPrefix;
  }

  /** All that has a weight is a keyword. */
  ghost predicate WeighsKeywords(weights: Weights, table: seq<Entry>) {
    forall s :: s in weights ==> LastEntry(table, s).Some?
  }

  /** What is known of a node, its tree and the table. */
  ghost predicate Known(t: Tree, before: Text, weights: Weights, f: Filled, table: seq<Entry>) {
    FillsOut(t, before, weights, f) && WellKeyed(t) && Agrees(t, f.fullPrefix, table) && Coherent(f)
  }

  lemma KidIsKnown(t: Tree, before: Text, weights: Weights, f: Filled, table: seq<Entry>, i: nat)
    requires Known(t, before, weights, f, table) && i < |f.keys|
    ensures f.keys[i].prefix != [] && f.keys[i].prefix[0] in t.kids
    ensures Known(t.kids[f.keys[i].prefix[0]], f.fullPrefix, weights, f.keys[i], table)
    ensures f.keys[i].fullPrefix == f.fullPrefix + f.keys[i].prefix
  {
    hide FillsOut, Agrees, WellKeyed;
    FilledKids(t, before, weights, f);
    KidAgrees(t, f.fullPrefix, table, f.keys[i].prefix[0]);
  }

  lemma EmitShape(f: Filled)
    requires Coherent(f)
    ensures |Emit(f).branches| == |f.keys|
    ensures forall i :: 0 <= i < |f.keys| ==> Emit(f).branches[i].body == Emit(f.keys[i])
    ensures Emit(f).accept.Some? <==> f.value.Some?
    ensures f.value.Some? ==> Emit(f).accept.value.ident == f.fullPrefix
  {
  }

  // ----- The weight of a node is that of its keywords -----

  lemma FilledWeight(t: Tree, before: Text, weights: Weights, f: Filled)
    requires FillsOut(t, before, weights, f)
    ensures f.weight == Weight(weights, f.fullPrefix) + TotalWeight(f.keys)
    ensures HeaviestFirst(f.keys)
  {
  }

  lemma {:induction false} WeightIsSum(t: Tree, before: Text, weights: Weights, f: Filled, table: seq<Entry>)
    requires Known(t, before, weights, f, table) && WeighsKeywords(weights, table)
    ensures f.weight == Sum(weights, Keywords(Emit(f)))
    decreases f, |f.keys| + 1
  {
    hide FillsOut, WellKeyed, LastEntry, Emit, KeywordsFrom;
    var code := Emit(f);
    EmitShape(f);
    FilledWeight(t, before, weights, f);
    NodeAgrees(t, before, weights, f, table);
    KidsWeighSum(t, before, weights, f, table, 0);
    assert f.keys[0..] == f.keys;
    SumOfConcat(weights, if code.accept.Some? then [f.fullPrefix] else [], KeywordsFrom(code, 0));
    OwnWeight(weights, f.fullPrefix);
  }

  lemma OwnWeight(weights: Weights, s: Text)
    ensures Sum(weights, [s]) == Weight(weights, s) && Sum(weights, []) == 0.0
    ensures s !in weights ==> Weight(weights, s) == 0.0
  {
    assert [s][1..] == [];
  }

  lemma {:induction false} KidsWeighSum(t: Tree, before: Text, weights: Weights, f: Filled, table: seq<Entry>, k: nat)
    requires Known(t, before, weights, f, table) && WeighsKeywords(weights, table) && k <= |f.keys|
    ensures |Emit(f).branches| == |f.keys|
    ensures TotalWeight(f.keys[k..]) == Sum(weights, KeywordsFrom(Emit(f), k))
    decreases f, |f.keys| - k
  {
    hide *;
    KnownIsCoherent(t, before, weights, f, table);
    EmitShape(f);
    if k < |f.keys| {
      KidIsKnown(t, before, weights, f, table, k);
      WeightIsSum(t.kids[f.keys[k].prefix[0]], f.fullPrefix, weights, f.keys[k], table);
      KidsWeighSum(t, before, weights, f, table, k + 1);
      FirstOfRest(f.keys, k);
      FirstBranch(Emit(f), k);
      SumOfConcat(weights, Keywords(Emit(f.keys[k])), KeywordsFrom(Emit(f), k + 1));
    } else {
      NothingLeft(weights, f.keys, Emit(f));
    }
  }

  lemma FirstOfRest(keys: seq<Filled>, k: nat)
    requires k < |keys|
    ensures TotalWeight(keys[k..]) == keys[k].weight + TotalWeight(keys[k + 1..])
  {
    assert keys[k..][1..] == keys[k + 1..];
  }

  lemma FirstBranch(code: Code, k: nat)
    requires k < |code.branches|
    ensures KeywordsFrom(code, k) == Keywords(code.branches[k].body) + KeywordsFrom(code, k + 1)
  {
  }

  lemma NothingLeft(weights: Weights, keys: seq<Filled>, code: Code)
    ensures TotalWeight(keys[|keys|..]) == 0.0
    ensures Sum(weights, KeywordsFrom(code, |code.branches|)) == 0.0
  {
  }

  lemma KnownIsCoherent(t: Tree, before: Text, weights: Weights, f: Filled, table: seq<Entry>)
    requires Known(t, before, weights, f, table)
    ensures Coherent(f) && FillsOut(t, before, weights, f)
  {
  }

  lemma {:induction false} BranchesAreOrdered(t: Tree, before: Text, weights: Weights, f: Filled, table: seq<Entry>)
    requires Known(t, before, weights, f, table) && WeighsKeywords(weights, table)
    ensures Coherent(f) && HeaviestBranchesFirst(Emit(f), weights)
    decreases f
  {
    hide Known, WeighsKeywords, Keywords, FillsOut;
    KnownIsCoherent(t, before, weights, f, table);
    EmitShape(f);
    hide Emit, Coherent;
    FilledWeight(t, before, weights, f);
    forall i | 0 <= i < |f.keys|
      ensures HeaviestBranchesFirst(Emit(f).branches[i].body, weights)
      ensures f.keys[i].weight == Sum(weights, Keywords(Emit(f).branches[i].body))
    {
      KidIsKnown(t, before, weights, f, table, i);
      var kid := t.kids[f.keys[i].prefix[0]];
      WeightIsSum(kid, f.fullPrefix, weights, f.keys[i], table);
      BranchesAreOrdered(kid, f.fullPrefix, weights, f.keys[i], table);
    }
  }

  // ----- Which keywords go through a node -----

  lemma {:induction false} KeywordsOfNode(t: Tree, before: Text, weights: Weights, f: Filled, table: seq<Entry>, s: Text)
    requires Known(t, before, weights, f, table)
    ensures Coherent(f)
    ensures s in Keywords(Emit(f)) <==> f.fullPrefix <= s && LastEntry(table, s).Some?
    decreases f, |f.keys| + 1
  {
    hide Known, LastEntry, FillsOut, KeywordsFrom;
    KnownIsCoherent(t, before, weights, f, table);
    EmitShape(f);
    hide Emit, Coherent;
    NodeIsInTable(t, before, weights, f, table, s);
    KeywordsOfKids(t, before, weights, f, table, s, 0);
  }

  /** A keyword that goes through a node ends there or goes on through a child. */
  lemma NodeIsInTable(t: Tree, before: Text, weights: Weights, f: Filled, table: seq<Entry>, s: Text)
    requires Known(t, before, weights, f, table)
    ensures f.value.Some? <==> LastEntry(table, f.fullPrefix).Some?
    ensures f.fullPrefix <= s && s != f.fullPrefix && LastEntry(table, s).Some? ==>
              exists i :: 0 <= i < |f.keys| && f.keys[i].fullPrefix <= s
    ensures forall i :: 0 <= i < |f.keys| && f.keys[i].fullPrefix <= s ==> f.fullPrefix <= s && s != f.fullPrefix
  {
    hide LastEntry, FillsOut, Lookup, WellKeyed, Agrees;
    NodeAgrees(t, before, weights, f, table);
    if f.fullPrefix <= s && s != f.fullPrefix && LastEntry(table, s).Some? {
      var i := KeywordGoesOn(t, before, weights, f, table, s);
    }
    forall i | 0 <= i < |f.keys| && f.keys[i].fullPrefix <= s ensures f.fullPrefix <= s && s != f.fullPrefix {
      KidIsKnown(t, before, weights, f, table, i);
    }
  }

  lemma LookupGoesOn(t: Tree, rest: Text)
    requires rest != [] && Lookup(t, rest).Some?
    ensures rest[0] in t.kids && t.kids[rest[0]].prefix <= rest
  {
  }

  lemma KeywordGoesOn(t: Tree, before: Text, weights: Weights, f: Filled, table: seq<Entry>, s: Text) returns (i: nat)
    requires Known(t, before, weights, f, table)
    requires f.fullPrefix <= s && s != f.fullPrefix && LastEntry(table, s).Some?
    ensures i < |f.keys| && f.keys[i].fullPrefix <= s
  {
    hide LastEntry, FillsOut, Coherent;
    FilledKids(t, before, weights, f);
    var rest := s[|f.fullPrefix|..];
    assert s == f.fullPrefix + rest;
    assert Lookup(t, rest).Some?;
    LookupGoesOn(t, rest);
    i :| 0 <= i < |f.keys| && f.keys[i].prefix[0] == rest[0];
    KidIsKnown(t, before, weights, f, table, i);
    assert f.keys[i].prefix == t.kids[rest[0]].prefix <= rest;
  }

  lemma {:induction false} KeywordsOfKids(
      t: Tree, before: Text, weights: Weights, f: Filled, table: seq<Entry>, s: Text, k: nat)
    requires Known(t, before, weights, f, table) && k <= |f.keys|
    ensures Coherent(f) && |Emit(f).branches| == |f.keys|
    ensures s in KeywordsFrom(Emit(f), k) <==>
            LastEntry(table, s).Some? && exists i :: k <= i < |f.keys| && f.keys[i].fullPrefix <= s
    decreases f, |f.keys| - k
  {
    hide Known, LastEntry, FillsOut, Keywords;
    KnownIsCoherent(t, before, weights, f, table);
    EmitShape(f);
    hide Emit, Coherent;
    if k < |f.keys| {
      KidIsKnown(t, before, weights, f, table, k);
      KeywordsOfNode(t.kids[f.keys[k].prefix[0]], f.fullPrefix, weights, f.keys[k], table, s);
      KeywordsOfKids(t, before, weights, f, table, s, k + 1);
    }
  }

  // ----- The generated program -----

  lemma RootIsKnown(table: seq<Entry>, weights: Weights, f: Filled)
    requires FillsOut(Compile(table), [], weights, f)
    ensures Known(Compile(table), [], weights, f, table)
  {
    hide FillsOut, Compile, LastEntry, Lookup;
    CompileIsTable(table);
    FilledIsCoherent(Compile(table), [], weights, f);
    RootPrefix(table, weights, f);
    assert forall s: Text :: [] + s == s;
  }

  /** In the generated program, branches come in the order of the weights of the keywords that go through them. */
  lemma GeneratedBranchesAreOrdered(keywords: seq<Entry>, weights: Weights, program: Program, t: Target)
    requires Generated(keywords, weights, program) && WeighsKeywords(weights, keywords)
    ensures ParseCode(LinesFor(program, t)).Some?
    ensures var code := ParseCode(LinesFor(program, t)).value.0;
            HeaviestBranchesFirst(code, weights) &&
            forall s :: s in Keywords(code) <==> LastEntry(keywords, s).Some?
  {
    hide Render, ParseCode, Emit, FillsOut, Coherent, HeaviestBranchesFirst, Keywords, Known, WeighsKeywords, LastEntry;
    var f :| GeneratedFrom(keywords, weights, f, program);
    ParseOfRendered(Emit(f), [ReturnIdent]);
    RootIsKnown(keywords, weights, f);
    RootPrefix(keywords, weights, f);
    BranchesAreOrdered(Compile(keywords), [], weights, f, keywords);
    forall s ensures s in Keywords(Emit(f)) <==> LastEntry(keywords, s).Some? {
      KeywordsOfNode(Compile(keywords), [], weights, f, keywords, s);
    }
  }
}
