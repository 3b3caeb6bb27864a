/** The trie that `KeywordLookupGenerator.py` builds from the keyword table and then path-compresses. */
module KeywordTrie {
  import opened Options

  /** Text as code units. */
  type Text = seq<nat>
  type Token = string
  type Entry = (Text, Token)

  /** A node with its children, each under the first code unit of its prefix. */
  datatype Tree = Tree(prefix: Text, value: Option<Token>, kids: map<nat, Tree>)

  predicate WellKeyed(t: Tree) {
    forall c :: c in t.kids ==> t.kids[c].prefix != [] && t.kids[c].prefix[0] == c && WellKeyed(t.kids[c])
  }

  /** What the trie holds for a text that continues below `t`. */
  function Lookup(t: Tree, s: Text): Option<Token>
    decreases t, 0
  {
    if s == [] then t.value
    else if s[0] in t.kids then LookupWhole(t.kids[s[0]], s)
    else None
  }

  /** What the trie holds for a text that starts with the prefix of `t` itself. */
  function LookupWhole(t: Tree, s: Text): Option<Token>
    decreases t, 1
  {
    if t.prefix <= s then Lookup(t, s[|t.prefix|..]) else None
  }

  // ----- insert -----

  /** Before compression every edge is one code unit long. */
  predicate SingleEdges(t: Tree) {
    forall c :: c in t.kids ==> t.kids[c].prefix == [c] && SingleEdges(t.kids[c])
  }

  function Insert(t: Tree, key: Text, v: Token): (r: Tree)
    ensures r.prefix == t.prefix
    decreases key
  {
    if key == [] then t.(value := Some(v))
    else
      var kid := if key[0] in t.kids then t.kids[key[0]] else Tree([key[0]], None, map[]);
      t.(kids := t.kids[key[0] := Insert(kid, key[1..], v)])
  }

  function Build(table: seq<Entry>): Tree {
    if table == [] then Tree([], None, map[])
    else
      var n := |table| - 1;
      Insert(Build(table[..n]), table[n].0, table[n].1)
  }

  lemma {:induction false} InsertKeepsSingleEdges(t: Tree, key: Text, v: Token)
    requires SingleEdges(t)
    ensures SingleEdges(Insert(t, key, v))
    decreases key
  {
    if key != [] && key[0] in t.kids {
      InsertKeepsSingleEdges(t.kids[key[0]], key[1..], v);
    } else if key != [] {
      InsertKeepsSingleEdges(Tree([key[0]], None, map[]), key[1..], v);
    }
  }

  /** Inserting changes the value of one text and no other. */
  lemma {:induction false} LookupAfterInsert(t: Tree, key: Text, v: Token, s: Text)
    requires SingleEdges(t)
    ensures Lookup(Insert(t, key, v), s) == if s == key then Some(v) else Lookup(t, s)
    decreases key
  {
    if key != [] && s != [] && s[0] == key[0] {
      var kid := if key[0] in t.kids then t.kids[key[0]] else Tree([key[0]], None, map[]);
      LookupAfterInsert(kid, key[1..], v, s[1..]);
      assert s == [s[0]] + s[1..] && key == [key[0]] + key[1..];
    }
  }

  /** The token of the last entry for `s`, if there is one. */
  function LastEntry(table: seq<Entry>, s: Text): Option<Token> {
    if table == [] then None
    else if table[|table| - 1].0 == s then Some(table[|table| - 1].1)
    else LastEntry(table[..|table| - 1], s)
  }

  predicate IsLastFor(table: seq<Entry>, s: Text, i: int) {
    && 0 <= i < |table| && table[i].0 == s
    && forall j :: i < j < |table| ==> table[j].0 != s
  }

  lemma {:induction false} LastEntryMeaning(table: seq<Entry>, s: Text)
    ensures LastEntry(table, s).None? <==> forall i :: 0 <= i < |table| ==> table[i].0 != s
    ensures forall i :: IsLastFor(table, s, i) ==> LastEntry(table, s) == Some(table[i].1)
  {
    if table != [] {
      var n := |table| - 1;
      var rest := table[..n];
      LastEntryMeaning(rest, s);
      assert forall i :: 0 <= i < n ==> rest[i] == table[i];
      forall i | IsLastFor(table, s, i) ensures LastEntry(table, s) == Some(table[i].1) {
        if i < n {
          assert IsLastFor(rest, s, i);
        }
      }
    }
  }

  /** The trie built from a table is that table: the last entry for a text wins. */
  lemma {:induction false} BuildIsTable(table: seq<Entry>, s: Text)
    ensures SingleEdges(Build(table))
    ensures Lookup(Build(table), s) == LastEntry(table, s)
  {
    if table != [] {
      var n := |table| - 1;
      BuildIsTable(table[..n], s);
      InsertKeepsSingleEdges(Build(table[..n]), table[n].0, table[n].1);
      LookupAfterInsert(Build(table[..n]), table[n].0, table[n].1, s);
    }
  }

  lemma {:induction false} SingleEdgesAreKeyed(t: Tree)
    requires SingleEdges(t)
    ensures WellKeyed(t)
    decreases t
  {
    forall c | c in t.kids ensures WellKeyed(t.kids[c]) {
      SingleEdgesAreKeyed(t.kids[c]);
    }
  }

  // ----- coalesce -----

  /** The node itself after `coalesce`, which rebuilds its children in place. */
  function CoalesceKids(t: Tree): (r: Tree)
    ensures r.prefix == t.prefix && r.value == t.value && r.kids.Keys == t.kids.Keys
    decreases t, 0
  {
    t.(kids := map c | c in t.kids :: Coalesce(t.kids[c]))
  }

  /** What `coalesce` returns: a node without value and with one child is merged with that child. */
  function Coalesce(t: Tree): Tree
    decreases t, 1
  {
    var r := CoalesceKids(t);
    if r.value.Some? || |r.kids| != 1 then r
    else
      var kid := r.kids[OnlyKey(r.kids)];
      Tree(r.prefix + kid.prefix, kid.value, kid.kids)
  }

  function OnlyKey<V>(m: map<nat, V>): (c: nat)
    requires |m| == 1
    ensures m.Keys == {c}
  {
    OnlyElement(m.Keys);
    var c :| c in m; c
  }

  lemma OnlyElement(s: set<nat>)
    requires |s| == 1
    ensures exists c :: c in s
    ensures forall c :: c in s ==> s == {c}
  {
    var c :| c in s;
    forall d | d in s ensures d == c {
      assert |s - {c}| == 0;
    }
  }

  /** Compression only lengthens prefixes, so siblings keep distinct first units and re-keying loses no child. */
  lemma {:induction false} CoalesceKeepsFirstUnit(t: Tree)
    requires WellKeyed(t)
    ensures WellKeyed(Coalesce(t)) && WellKeyed(CoalesceKids(t))
    ensures t.prefix <= Coalesce(t).prefix
    decreases t
  {
    forall c | c in t.kids ensures WellKeyed(Coalesce(t.kids[c])) && t.kids[c].prefix <= Coalesce(t.kids[c]).prefix {
      CoalesceKeepsFirstUnit(t.kids[c]);
    }
  }

  /** Compression preserves the key-to-value map below the node ... */
  lemma {:induction false} CoalesceKidsKeepsLookup(t: Tree, s: Text)
    requires WellKeyed(t)
    ensures Lookup(CoalesceKids(t), s) == Lookup(t, s)
    decreases t, 0
  {
    if s != [] && s[0] in t.kids {
      CoalesceKeepsLookup(t.kids[s[0]], s);
    }
  }

  /** ... and, counting the prefix, of the node returned. */
  lemma {:induction false} CoalesceKeepsLookup(t: Tree, s: Text)
    requires WellKeyed(t)
    ensures LookupWhole(Coalesce(t), s) == LookupWhole(t, s)
    decreases t, 1
  {
    var r := CoalesceKids(t);
    if t.prefix <= s {
      CoalesceKidsKeepsLookup(t, s[|t.prefix|..]);
    }
    if r.value.None? && |r.kids| == 1 {
      CoalesceKeepsFirstUnit(t);
      MergeKeepsLookup(r, s);
    }
  }

  lemma MergeKeepsLookup(r: Tree, s: Text)
    requires WellKeyed(r) && r.value.None? && |r.kids| == 1
    ensures var kid := r.kids[OnlyKey(r.kids)];
            LookupWhole(Tree(r.prefix + kid.prefix, kid.value, kid.kids), s) == LookupWhole(r, s)
  {
    var c := OnlyKey(r.kids);
    var kid := r.kids[c];
    var merged := Tree(r.prefix + kid.prefix, kid.value, kid.kids);
    if r.prefix <= s {
      var rest := s[|r.prefix|..];
      assert s == r.prefix + rest;
      assert merged.prefix <= s <==> kid.prefix <= rest;
      if kid.prefix <= rest {
        assert rest != [] && rest[0] == kid.prefix[0] == c;
        assert LookupWhole(r, s) == Lookup(r, rest) == LookupWhole(kid, rest) == Lookup(kid, rest[|kid.prefix|..]);
        assert s[|merged.prefix|..] == rest[|kid.prefix|..];
        SameBelow(merged, kid, rest[|kid.prefix|..]);
      } else if rest != [] && rest[0] in r.kids {
        assert rest[0] == c;
        assert LookupWhole(kid, rest).None?;
      }
    } else {
      assert merged.prefix <= s ==> r.prefix <= s;
    }
  }

  lemma SameBelow(a: Tree, b: Tree, s: Text)
    requires a.value == b.value && a.kids == b.kids
    ensures Lookup(a, s) == Lookup(b, s)
  {
  }

  /** Every node but the root has a value or a child. */
  predicate Live(t: Tree) {
    forall c :: c in t.kids ==> (t.kids[c].value.Some? || t.kids[c].kids.Keys != {}) && Live(t.kids[c])
  }

  /** Every node but the root has a value or at least two children. */
  predicate Compressed(t: Tree) {
    forall c :: c in t.kids ==> (t.kids[c].value.Some? || |t.kids[c].kids| >= 2) && Compressed(t.kids[c])
  }

  lemma {:induction false} InsertKeepsLive(t: Tree, key: Text, v: Token)
    requires Live(t)
    ensures Live(Insert(t, key, v))
    ensures var r := Insert(t, key, v); r.value.Some? || r.kids.Keys != {}
    decreases key
  {
    if key != [] {
      var kid := if key[0] in t.kids then t.kids[key[0]] else Tree([key[0]], None, map[]);
      InsertKeepsLive(kid, key[1..], v);
      assert key[0] in Insert(t, key, v).kids;
    }
  }

  lemma {:induction false} BuildIsLive(table: seq<Entry>)
    ensures Live(Build(table))
  {
    if table != [] {
      var n := |table| - 1;
      BuildIsLive(table[..n]);
      InsertKeepsLive(Build(table[..n]), table[n].0, table[n].1);
    }
  }

  /** Compression leaves no node that could be merged, the root alone excepted. */
  lemma {:induction false} CoalesceCompresses(t: Tree)
    requires Live(t)
    ensures Compressed(CoalesceKids(t)) && Compressed(Coalesce(t))
    ensures t.value.Some? || t.kids.Keys != {} ==> Coalesce(t).value.Some? || |Coalesce(t).kids| >= 2
    decreases t
  {
    forall c | c in t.kids
      ensures var k := Coalesce(t.kids[c]); (k.value.Some? || |k.kids| >= 2) && Compressed(k)
    {
      CoalesceCompresses(t.kids[c]);
    }
    if t.kids.Keys != {} {
      assert |CoalesceKids(t).kids.Keys| != 0;
    }
  }

  // ----- Code units of the edges -----

  predicate AllUnits(s: Text, p: nat -> bool) {
    forall i :: 0 <= i < |s| ==> p(s[i])
  }

  /** Every edge consists of units that satisfy `p`. */
  predicate EdgeUnits(t: Tree, p: nat -> bool) {
    forall c :: c in t.kids ==> AllUnits(t.kids[c].prefix, p) && EdgeUnits(t.kids[c], p)
  }

  lemma {:induction false} InsertKeepsEdgeUnits(t: Tree, key: Text, v: Token, p: nat -> bool)
    requires EdgeUnits(t, p) && AllUnits(key, p)
    ensures EdgeUnits(Insert(t, key, v), p)
    decreases key
  {
    if key != [] {
      var kid := if key[0] in t.kids then t.kids[key[0]] else Tree([key[0]], None, map[]);
      assert forall i :: 0 <= i < |key[1..]| ==> key[1..][i] == key[i + 1];
      InsertKeepsEdgeUnits(kid, key[1..], v, p);
    }
  }

  lemma {:induction false} BuildHasEdgeUnits(table: seq<Entry>, p: nat -> bool)
    requires forall i :: 0 <= i < |table| ==> AllUnits(table[i].0, p)
    ensures EdgeUnits(Build(table), p)
  {
    if table != [] {
      var n := |table| - 1;
      BuildHasEdgeUnits(table[..n], p);
      InsertKeepsEdgeUnits(Build(table[..n]), table[n].0, table[n].1, p);
    }
  }

  lemma {:induction false} CoalesceKeepsEdgeUnits(t: Tree, p: nat -> bool)
    requires EdgeUnits(t, p)
    ensures EdgeUnits(CoalesceKids(t), p) && EdgeUnits(Coalesce(t), p)
    ensures AllUnits(t.prefix, p) ==> AllUnits(Coalesce(t).prefix, p)
    decreases t
  {
    forall c | c in t.kids
      ensures AllUnits(Coalesce(t.kids[c]).prefix, p) && EdgeUnits(Coalesce(t.kids[c]), p)
    {
      CoalesceKeepsEdgeUnits(t.kids[c], p);
    }
  }

  /** The trie that the generator hands on: built, then compressed below the root. */
  function Compile(table: seq<Entry>): Tree {
    CoalesceKids(Build(table))
  }

  /** Building and compressing together: the table, as a compressed trie. */
  lemma CompileIsTable(table: seq<Entry>)
    ensures forall s :: Lookup(Compile(table), s) == LastEntry(table, s)
    ensures WellKeyed(Compile(table)) && Compressed(Compile(table))
  {
    var t := Build(table);
    BuildIsTable(table, []);
    SingleEdgesAreKeyed(t);
    CoalesceKeepsFirstUnit(t);
    BuildIsLive(table);
    CoalesceCompresses(t);
    forall s ensures Lookup(Compile(table), s) == LastEntry(table, s) {
      BuildIsTable(table, s);
      CoalesceKidsKeepsLookup(t, s);
    }
  }
}
