/** The generator itself: trie nodes that `KeywordLookupGenerator.py` changes in place. */
module KeywordGenerator {
  import opened Options
  import opened KeywordTrie
  import opened KeywordCode
  import opened KeywordTable
  import opened KeywordOrder
  import opened KeywordText

  class Trie {
    const prefix: Text
    var keys: map<Text, Trie>
    var value: Option<Token>

    /** Set by `fillOut`; `ordered` is the list of children that then takes the place of the dictionary. */
    var fullPrefix: Text
    var selfWeight: real
    var weight: real
    var ordered: seq<Trie>
    ghost var filled: Filled

    /** The nodes of the subtree, and the tree they stand for. */
    ghost var Repr: set<Trie>
    ghost var tree: Tree

    ghost predicate Valid()
      reads this, Repr
      ensures Valid() ==> this in Repr
      decreases Repr, 0
    {
      && this in Repr
      && tree.prefix == prefix && tree.value == value
      && Forest(keys, Repr - {this}, tree.kids)
    }

    /**
     * The nodes of `m`, each under its own prefix, have valid and separate subtrees within `nodes`,
     * start with different units, and stand for the trees of `kids`.
     */
    static ghost predicate Forest(m: map<Text, Trie>, nodes: set<Trie>, kids: map<nat, Tree>)
      reads nodes
      decreases nodes, 2
    {
      Rooted(m, nodes) && Separate(m, nodes) && StandsFor(m, nodes, kids) && Covers(m, kids)
    }

    static ghost predicate Rooted(m: map<Text, Trie>, nodes: set<Trie>)
      reads nodes
      decreases nodes, 1
    {
      forall k :: k in m ==> k != [] && m[k] in nodes && m[k].Repr <= nodes && m[k].prefix == k && m[k].Valid()
    }

    static ghost predicate Separate(m: map<Text, Trie>, nodes: set<Trie>)
      reads nodes
    {
      forall k, l :: k in m && l in m && k != l && m[k] in nodes && m[l] in nodes && k != [] && l != [] ==>
                       m[k].Repr !! m[l].Repr && k[0] != l[0]
    }

    static ghost predicate StandsFor(m: map<Text, Trie>, nodes: set<Trie>, kids: map<nat, Tree>)
      reads nodes
    {
      forall k :: k in m && k != [] && m[k] in nodes ==> k[0] in kids && kids[k[0]] == m[k].tree
    }

    static ghost predicate Covers(m: map<Text, Trie>, kids: map<nat, Tree>) {
      forall c :: c in kids ==> exists k :: k in m && k != [] && k[0] == c
    }

    constructor (prefix: Text)
      ensures this.prefix == prefix && keys == map[] && value == None
      ensures Valid() && Repr == {this} && tree == Tree(prefix, None, map[])
    {
      this.prefix := prefix;
      keys := map[];
      value := None;
      fullPrefix, selfWeight, weight, ordered := [], 0.0, 0.0, [];
      filled := Filled([], [], None, 0.0, 0.0, []);
      Repr := {this};
      tree := Tree(prefix, None, map[]);
    }

    /** A child can be set aside: the others stay a forest, apart from it. */
    static lemma SetAside(m: map<Text, Trie>, nodes: set<Trie>, kids: map<nat, Tree>, k: Text)
      requires Forest(m, nodes, kids) && k in m
      ensures k != [] && m[k].prefix == k && m[k].Valid() && m[k].Repr <= nodes
      ensures k[0] in kids && kids[k[0]] == m[k].tree
      ensures Forest(m - {k}, nodes - m[k].Repr, kids - {k[0]})
    {
      RootedKid(m, nodes, k);
      StandsForKid(m, nodes, kids, k);
      hide Rooted, Separate, StandsFor, Covers;
      RootedWithout(m, nodes, k);
      SeparateWithout(m, nodes, k);
      StandsForWithout(m, nodes, kids, k);
      CoversWithout(m, kids, k);
    }

    static lemma RootedKid(m: map<Text, Trie>, nodes: set<Trie>, k: Text)
      requires Rooted(m, nodes) && k in m
      ensures k != [] && m[k] in nodes && m[k].prefix == k && m[k].Valid() && m[k].Repr <= nodes
    {
    }

    static lemma StandsForKid(m: map<Text, Trie>, nodes: set<Trie>, kids: map<nat, Tree>, k: Text)
      requires StandsFor(m, nodes, kids) && k in m && k != [] && m[k] in nodes
      ensures k[0] in kids && kids[k[0]] == m[k].tree
    {
    }

    static lemma RootedWithout(m: map<Text, Trie>, nodes: set<Trie>, k: Text)
      requires Rooted(m, nodes) && Separate(m, nodes) && k in m && m[k] in nodes
      ensures Rooted(m - {k}, nodes - m[k].Repr)
    {
      forall l | l in m && l != k ensures m[l] in nodes - m[k].Repr && m[l].Repr <= nodes - m[k].Repr {
        RootedKid(m, nodes, l);
      }
    }

    static lemma SeparateWithout(m: map<Text, Trie>, nodes: set<Trie>, k: Text)
      requires Separate(m, nodes) && k in m && m[k] in nodes
      ensures Separate(m - {k}, nodes - m[k].Repr)
    {
    }

    static lemma StandsForWithout(m: map<Text, Trie>, nodes: set<Trie>, kids: map<nat, Tree>, k: Text)
      requires Rooted(m, nodes) && Separate(m, nodes) && StandsFor(m, nodes, kids) && k in m && m[k] in nodes && k != []
      ensures StandsFor(m - {k}, nodes - m[k].Repr, kids - {k[0]})
    {
      hide Rooted;
    }

    static lemma CoversWithout(m: map<Text, Trie>, kids: map<nat, Tree>, k: Text)
      requires Covers(m, kids) && k in m && k != []
      ensures Covers(m - {k}, kids - {k[0]})
    {
      forall c | c in kids && c != k[0] ensures exists l :: l in m - {k} && l != [] && l[0] == c {
        var l :| l in m && l != [] && l[0] == c;
        assert l in m - {k};
      }
    }

    /** A valid subtree apart from a forest can join it, if its prefix starts with a new unit. */
    static lemma Join(m: map<Text, Trie>, nodes: set<Trie>, kids: map<nat, Tree>, t: Trie)
      requires Forest(m, nodes, kids) && t.Valid() && t.Repr !! nodes
      requires t.prefix != [] && t.prefix[0] !in kids
      ensures t.prefix !in m
      ensures Forest(m[t.prefix := t], nodes + t.Repr, kids[t.prefix[0] := t.tree])
    {
      IsNew(m, nodes, kids, t);
      hide Rooted, Separate, StandsFor, Covers;
      RootedWith(m, nodes, t);
      SeparateWith(m, nodes, kids, t);
      StandsForWith(m, nodes, kids, t);
      CoversWith(m, kids, t);
    }

    static lemma IsNew(m: map<Text, Trie>, nodes: set<Trie>, kids: map<nat, Tree>, t: Trie)
      requires Rooted(m, nodes) && StandsFor(m, nodes, kids) && t.prefix != [] && t.prefix[0] !in kids
      ensures t.prefix !in m
    {
      hide Rooted, StandsFor;
      var k := t.prefix;
      if k in m {
        RootedKid(m, nodes, k);
        StandsForKid(m, nodes, kids, k);
      }
    }

    static lemma RootedWith(m: map<Text, Trie>, nodes: set<Trie>, t: Trie)
      requires Rooted(m, nodes) && t.Valid() && t.prefix != []
      ensures Rooted(m[t.prefix := t], nodes + t.Repr)
    {
      hide Rooted;
      var m' := m[t.prefix := t];
      forall k | k in m'
        ensures k != [] && m'[k] in nodes + t.Repr && m'[k].Repr <= nodes + t.Repr && m'[k].prefix == k && m'[k].Valid()
      {
        if k != t.prefix {
          RootedKid(m, nodes, k);
        }
      }
      RootedByKid(m', nodes + t.Repr);
    }

    static lemma RootedByKid(m: map<Text, Trie>, nodes: set<Trie>)
      requires forall k :: k in m ==> k != [] && m[k] in nodes && m[k].Repr <= nodes && m[k].prefix == k && m[k].Valid()
      ensures Rooted(m, nodes)
    {
    }

    static lemma SeparateWith(m: map<Text, Trie>, nodes: set<Trie>, kids: map<nat, Tree>, t: Trie)
      requires Rooted(m, nodes) && Separate(m, nodes) && StandsFor(m, nodes, kids)
      requires t.Repr !! nodes && t.prefix != [] && t.prefix[0] !in kids
      ensures Separate(m[t.prefix := t], nodes + t.Repr)
    {
      forall k | k in m ensures k != [] && m[k] in nodes && m[k].Repr !! t.Repr && k[0] != t.prefix[0] {
        RootedKid(m, nodes, k);
        StandsForKid(m, nodes, kids, k);
      }
      hide Rooted, StandsFor;
    }

    static lemma StandsForWith(m: map<Text, Trie>, nodes: set<Trie>, kids: map<nat, Tree>, t: Trie)
      requires Rooted(m, nodes) && StandsFor(m, nodes, kids) && t.prefix != [] && t.prefix[0] !in kids
      ensures StandsFor(m[t.prefix := t], nodes + t.Repr, kids[t.prefix[0] := t.tree])
    {
      forall k | k in m ensures m[k] in nodes {
        RootedKid(m, nodes, k);
      }
      hide Rooted;
    }

    static lemma CoversWith(m: map<Text, Trie>, kids: map<nat, Tree>, t: Trie)
      requires Covers(m, kids) && t.prefix != [] && t.prefix !in m
      ensures Covers(m[t.prefix := t], kids[t.prefix[0] := t.tree])
    {
      var m', kids' := m[t.prefix := t], kids[t.prefix[0] := t.tree];
      forall c | c in kids' ensures exists l :: l in m' && l != [] && l[0] == c {
        if c == t.prefix[0] {
          assert t.prefix in m';
        } else {
          var l :| l in m && l != [] && l[0] == c;
          assert l in m';
        }
      }
    }

    // ----- insert -----

    lemma ChildOfSingleEdges(c: nat)
      requires Valid() && SingleEdges(tree)
      ensures c in tree.kids <==> [c] in keys
      ensures forall k :: k in keys ==> |k| == 1
    {
      ghost var nodes := Repr - {this};
      forall k | k in keys ensures |k| == 1 && k[0] in tree.kids {
        RootedKid(keys, nodes, k);
        StandsForKid(keys, nodes, tree.kids, k);
        assert keys[k].Valid() && tree.kids[k[0]].prefix == [k[0]];
      }
      if c in tree.kids {
        var k :| k in keys && k != [] && k[0] == c;
        assert k == [c];
      }
      if [c] in keys {
        assert [c][0] in tree.kids;
      }
    }

    static lemma NewChildIsSingle(t: Tree, c: nat)
      requires SingleEdges(t)
      ensures SingleEdges(t.(kids := t.kids[c := Tree([c], None, map[])]))
    {
      assert SingleEdges(Tree([c], None, map[]));
    }

    method Insert(key: Text, v: Token)
      requires Valid() && SingleEdges(tree)
      modifies Repr
      ensures Valid() && old(Repr) <= Repr && fresh(Repr - old(Repr))
      ensures tree == KeywordTrie.Insert(old(tree), key, v)
      decreases |key|, 0
    {
      hide Forest, SingleEdges;
      if |key| == 0 {
        value := Some(v);
        tree := tree.(value := Some(v));
        return;
      }
      var k := [key[0]];
      ChildOfSingleEdges(key[0]);
      if k !in keys {
        AddChild(k);
        NewChildIsSingle(old(tree), key[0]);
      }
      InsertBelow(k, key[1..], v);
    }

    method AddChild(k: Text)
      requires Valid() && |k| == 1 && k[0] !in tree.kids
      modifies this
      ensures Valid() && old(Repr) <= Repr && fresh(Repr - old(Repr))
      ensures k in keys
      ensures tree == old(tree).(kids := old(tree).kids[k[0] := Tree(k, None, map[])])
    {
      hide Forest;
      var t := new Trie(k);
      Join(keys, Repr - {this}, tree.kids, t);
      keys := keys[k := t];
      assert Repr - {this} + {t} == Repr + {t} - {this};
      Repr := Repr + {t};
      tree := tree.(kids := tree.kids[k[0] := t.tree]);
    }

    /** The recursive call of `insert`, on the child for the first unit. */
    method InsertBelow(k: Text, rest: Text, v: Token)
      requires Valid() && SingleEdges(tree) && k in keys
      modifies Repr
      ensures Valid() && old(Repr) <= Repr && fresh(Repr - old(Repr))
      ensures k != [] && k[0] in old(tree).kids
      ensures tree == old(tree).(kids := old(tree).kids[k[0] := KeywordTrie.Insert(old(tree).kids[k[0]], rest, v)])
      decreases |rest|, 1
    {
      hide Forest;
      var kid := keys[k];
      ghost var others, nodes, kids := keys - {k}, Repr - {this} - kid.Repr, tree.kids;
      SetAside(keys, Repr - {this}, kids, k);
      kid.Insert(rest, v);
      Join(others, nodes, kids - {k[0]}, kid);
      Repr := {this} + nodes + kid.Repr;
      tree := tree.(kids := kids[k[0] := kid.tree]);
      assert others[k := kid] == keys;
      assert (kids - {k[0]})[k[0] := kid.tree] == tree.kids;
      assert nodes + kid.Repr == Repr - {this};
    }

    // ----- coalesce -----

    /** Some kids are compressed and some are still to be. */
    static ghost predicate Midway(t: Tree, newKids: map<nat, Tree>, oldKids: map<nat, Tree>) {
      && newKids.Keys !! oldKids.Keys && newKids.Keys + oldKids.Keys == t.kids.Keys
      && (forall c :: c in oldKids ==> oldKids[c] == t.kids[c])
      && (forall c :: c in newKids ==> newKids[c] == KeywordTrie.Coalesce(t.kids[c]))
    }

    static lemma MidwayMoves(t: Tree, newKids: map<nat, Tree>, oldKids: map<nat, Tree>, c: nat)
      requires Midway(t, newKids, oldKids) && c in oldKids && WellKeyed(t)
      ensures c in t.kids && c !in newKids && oldKids[c] == t.kids[c] && WellKeyed(oldKids[c])
      ensures var kid := KeywordTrie.Coalesce(t.kids[c]);
              kid.prefix != [] && kid.prefix[0] == c && Midway(t, newKids[c := kid], oldKids - {c})
    {
      hide WellKeyed, Midway, KeywordTrie.Coalesce;
      MidwayKnows(t, newKids, oldKids, c);
      CompressedKid(t, c);
    }

    static lemma MidwayKnows(t: Tree, newKids: map<nat, Tree>, oldKids: map<nat, Tree>, c: nat)
      requires Midway(t, newKids, oldKids) && c in oldKids
      ensures c in t.kids && c !in newKids && oldKids[c] == t.kids[c]
      ensures Midway(t, newKids[c := KeywordTrie.Coalesce(t.kids[c])], oldKids - {c})
    {
      hide KeywordTrie.Coalesce;
    }

    static lemma CompressedKid(t: Tree, c: nat)
      requires WellKeyed(t) && c in t.kids
      ensures WellKeyed(t.kids[c])
      ensures var kid := KeywordTrie.Coalesce(t.kids[c]); kid.prefix != [] && kid.prefix[0] == c
    {
      hide KeywordTrie.Coalesce;
      CoalesceKeepsFirstUnit(t.kids[c]);
      assert KeywordTrie.Coalesce(t.kids[c]).prefix[0] == t.kids[c].prefix[0];
    }

    static lemma MidwayEnds(t: Tree, newKids: map<nat, Tree>)
      requires Midway(t, newKids, map[])
      ensures newKids == CoalesceKids(t).kids
    {
      hide KeywordTrie.Coalesce;
    }

    method Coalesce() returns (r: Trie)
      requires Valid() && WellKeyed(tree)
      modifies Repr
      ensures Valid() && fresh(Repr - old(Repr)) && tree == CoalesceKids(old(tree))
      ensures r.Valid() && fresh(r.Repr - old(Repr)) && r.tree == KeywordTrie.Coalesce(old(tree))
      decreases tree, 1
    {
      hide Forest, KeywordTrie.CoalesceKids;
      RekeyChildren();
      if value != None {
        return this;
      }
      SameSize(keys, Repr - {this}, tree.kids);
      if |keys| != 1 {
        return this;
      }
      var only :| only in keys;
      assert |keys.Keys - {only}| == 0;
      r := Merge(only);
    }

    /** Lines 107 to 111 of `coalesce`: a new dictionary, with every compressed child under its new prefix. */
    method RekeyChildren()
      requires Valid() && WellKeyed(tree)
      modifies Repr
      ensures Valid() && fresh(Repr - old(Repr)) && tree == CoalesceKids(old(tree))
      decreases tree, 0
    {
      hide Forest, Midway, WellKeyed, KeywordTrie.Coalesce, KeywordTrie.CoalesceKids;
      ghost var t, nodes := tree, Repr - {this};
      var m: map<Text, Trie> := map[];
      var todo := keys;
      ghost var done: set<Trie>, rest, newKids: map<nat, Tree>, oldKids := {}, nodes, map[], t.kids;
      EmptyForest();
      MidwayStarts(t);
      while todo != map[]
        invariant Forest(m, done, newKids) && Forest(todo, rest, oldKids) && done !! rest
        invariant Midway(t, newKids, oldKids)
        invariant this !in done && rest <= nodes && fresh(done - old(Repr))
        modifies nodes
        decreases |todo|
      {
        var k :| k in todo;
        TakeKid(t, newKids, oldKids, todo, rest, k);
        ghost var kid := KeywordTrie.Coalesce(todo[k].tree);
        rest := rest - todo[k].Repr;
        m, done := RekeyChild(m, done, newKids, todo[k]);
        newKids, oldKids := newKids[k[0] := kid], oldKids - {k[0]};
        todo := todo - {k};
      }
      NoKidsLeft(rest, oldKids);
      MidwayEnds(t, newKids);
      keys := m;
      Repr := {this} + done;
      tree := CoalesceKids(t);
      assert Repr - {this} == done;
    }

    /** One round of that loop: compresses a child and enters it in the new dictionary. */
    static method RekeyChild(m: map<Text, Trie>, ghost nodes: set<Trie>, ghost kids: map<nat, Tree>, v: Trie)
      returns (m': map<Text, Trie>, ghost nodes': set<Trie>)
      requires Forest(m, nodes, kids) && v.Valid() && WellKeyed(v.tree) && v.Repr !! nodes
      requires var kid := KeywordTrie.Coalesce(v.tree); kid.prefix != [] && kid.prefix[0] !in kids
      modifies v.Repr
      ensures var kid := KeywordTrie.Coalesce(old(v.tree)); Forest(m', nodes', kids[kid.prefix[0] := kid])
      ensures fresh(nodes' - nodes - old(v.Repr))
      decreases v.tree, 2
    {
      hide Forest, WellKeyed, KeywordTrie.Coalesce, KeywordTrie.CoalesceKids;
      var t := v.Coalesce();
      Join(m, nodes, kids, t);
      m', nodes' := m[t.prefix := t], nodes + t.Repr;
    }

    static lemma TakeKid(
        t: Tree, newKids: map<nat, Tree>, oldKids: map<nat, Tree>, todo: map<Text, Trie>, rest: set<Trie>, k: Text)
      requires Midway(t, newKids, oldKids) && WellKeyed(t) && Forest(todo, rest, oldKids) && k in todo
      ensures k != [] && k[0] in t.kids && k[0] !in newKids
      ensures todo[k].Valid() && todo[k].Repr <= rest && todo[k].tree == t.kids[k[0]] && WellKeyed(todo[k].tree)
      ensures Forest(todo - {k}, rest - todo[k].Repr, oldKids - {k[0]})
      ensures var kid := KeywordTrie.Coalesce(todo[k].tree);
              kid.prefix != [] && kid.prefix[0] == k[0] && Midway(t, newKids[k[0] := kid], oldKids - {k[0]})
    {
      hide Forest, Midway, WellKeyed, KeywordTrie.Coalesce;
      SetAside(todo, rest, oldKids, k);
      MidwayMoves(t, newKids, oldKids, k[0]);
    }

    static lemma EmptyForest()
      ensures Forest(map[], {}, map[])
    {
    }

    static lemma NoKidsLeft(nodes: set<Trie>, kids: map<nat, Tree>)
      requires Forest(map[], nodes, kids)
      ensures kids == map[]
    {
    }

    static lemma MidwayStarts(t: Tree)
      ensures Midway(t, map[], t.kids)
    {
    }

    /** The dictionary has as many entries as the tree has kids. */
    static lemma SameSize(m: map<Text, Trie>, nodes: set<Trie>, kids: map<nat, Tree>)
      requires Forest(m, nodes, kids)
      ensures |m| == |kids|
      decreases |m|
    {
      hide Forest;
      if m == map[] {
        NoKidsLeft(nodes, kids);
      } else {
        var k :| k in m;
        SetAside(m, nodes, kids, k);
        SameSize(m - {k}, nodes - m[k].Repr, kids - {k[0]});
        assert (m - {k}).Keys == m.Keys - {k};
        assert (kids - {k[0]}).Keys == kids.Keys - {k[0]};
      }
    }

    /** A new node in the place of this one and its only child. The child's children are shared, not copied. */
    method Merge(only: Text) returns (res: Trie)
      requires Valid() && keys.Keys == {only} && |tree.kids| == 1
      ensures unchanged(Repr)
      ensures res.Valid() && fresh(res.Repr - Repr)
      ensures var kid := tree.kids[OnlyKey(tree.kids)];
              res.tree == Tree(tree.prefix + kid.prefix, kid.value, kid.kids)
    {
      hide Forest;
      var suffix := keys[only];
      SetAside(keys, Repr - {this}, tree.kids, only);
      assert only[0] == OnlyKey(tree.kids);
      res := new Trie(prefix + only);
      res.value := suffix.value;
      res.keys := suffix.keys;
      res.Repr := {res} + (suffix.Repr - {suffix});
      res.tree := Tree(prefix + only, suffix.tree.value, suffix.tree.kids);
      assert res.Repr - {res} == suffix.Repr - {suffix};
    }

    // ----- fillOut -----

    ghost predicate IsFilled()
      reads this, Repr
      decreases Repr, 0
    {
      && this in Repr && Valid()
      && filled.prefix == prefix && filled.fullPrefix == fullPrefix && filled.value == value
      && filled.selfWeight == selfWeight && filled.weight == weight
      && FilledList(ordered, Repr - {this}, filled.keys)
    }

    /** The nodes of the list are filled, within `nodes`, and stand for `fills`. */
    static ghost predicate FilledList(list: seq<Trie>, nodes: set<Trie>, fills: seq<Filled>)
      reads nodes
      decreases nodes, 2
    {
      && |list| == |fills|
      && forall i :: 0 <= i < |list| ==> FilledAs(list[i], nodes, fills[i])
    }

    static ghost predicate FilledAs(t: Trie, nodes: set<Trie>, f: Filled)
      reads nodes
      decreases nodes, 1
    {
      t in nodes && t.Repr <= nodes && t.IsFilled() && t.filled == f
    }

    static lemma FilledListGrows(list: seq<Trie>, nodes: set<Trie>, fills: seq<Filled>, t: Trie)
      requires FilledList(list, nodes, fills) && t.IsFilled()
      ensures FilledList(list + [t], nodes + t.Repr, fills + [t.filled])
    {
    }

    static lemma FilledListInserts(list: seq<Trie>, nodes: set<Trie>, fills: seq<Filled>, t: Trie, j: nat)
      requires FilledList(list, nodes, fills) && t.IsFilled() && t in nodes && t.Repr <= nodes && j <= |list|
      ensures FilledList(list[..j] + [t] + list[j..], nodes, fills[..j] + [t.filled] + fills[j..])
    {
      assert FilledAs(t, nodes, t.filled);
      hide FilledAs;
      var list', fills' := list[..j] + [t] + list[j..], fills[..j] + [t.filled] + fills[j..];
      forall i | 0 <= i < |list'| ensures FilledAs(list'[i], nodes, fills'[i]) {
        if i < j {
          assert list'[i] == list[i] && fills'[i] == fills[i];
        } else if i > j {
          assert list'[i] == list[i - 1] && fills'[i] == fills[i - 1];
        }
      }
    }

    static lemma FilledListWeight(list: seq<Trie>, nodes: set<Trie>, fills: seq<Filled>, i: nat)
      requires FilledList(list, nodes, fills) && i < |list|
      ensures list[i] in nodes && list[i].Repr <= nodes && list[i].IsFilled() && list[i].filled == fills[i]
      ensures list[i].weight == fills[i].weight
    {
    }

    /** `sorted` with the weight as key, heaviest first. */
    static method SortedByWeight(list: seq<Trie>, ghost nodes: set<Trie>, ghost fills: seq<Filled>) returns (r: seq<Trie>)
      requires FilledList(list, nodes, fills)
      ensures FilledList(r, nodes, SortByWeight(fills))
    {
      hide FilledList, InsertByWeight, SortByWeight, HeaviestFirst;
      r := [];
      ghost var sorted: seq<Filled> := [];
      var i := 0;
      SortStarts(fills, nodes);
      SameLengths(list, nodes, fills);
      while i < |list|
        invariant 0 <= i <= |list| == |fills|
        invariant FilledList(r, nodes, sorted) && sorted == SortByWeight(fills[..i])
      {
        var t := list[i];
        FilledListWeight(list, nodes, fills, i);
        SameLengths(r, nodes, sorted);
        var j := 0;
        while j < |r| && r[j].weight >= t.weight
          invariant 0 <= j <= |r| == |sorted|
          invariant forall k :: 0 <= k < j ==> sorted[k].weight >= t.weight
        {
          FilledListWeight(r, nodes, sorted, j);
          j := j + 1;
        }
        if j < |r| {
          FilledListWeight(r, nodes, sorted, j);
        }
        InsertPosition(sorted, fills[i], j);
        FilledListInserts(r, nodes, sorted, t, j);
        SortStep(fills, i);
        r := r[..j] + [t] + r[j..];
        sorted := InsertByWeight(sorted, fills[i]);
        i := i + 1;
      }
      assert fills[..i] == fills;
    }

    static lemma SameLengths(list: seq<Trie>, nodes: set<Trie>, fills: seq<Filled>)
      requires FilledList(list, nodes, fills)
      ensures |list| == |fills|
    {
    }

    static lemma SortStarts(fills: seq<Filled>, nodes: set<Trie>)
      ensures SortByWeight(fills[..0]) == [] && FilledList([], nodes, [])
    {
    }

    static lemma SortStep(fills: seq<Filled>, i: nat)
      requires i < |fills|
      ensures SortByWeight(fills[..i + 1]) == InsertByWeight(SortByWeight(fills[..i]), fills[i])
    {
      assert fills[..i + 1][..i] == fills[..i];
    }

    static lemma WeightIs(weights: Weights, s: Text)
      ensures Weight(weights, s) == if s in weights then 0.0 + weights[s] else 0.0
    {
    }

    method FillOut(before: Text, weights: Weights)
      requires Valid()
      modifies Repr
      ensures IsFilled() && Repr == old(Repr) && tree == old(tree)
      ensures FillsOut(tree, before, weights, filled)
      decreases tree, 1
    {
      hide Forest, FilledList, FillsAll, FillsOut, SortByWeight, Weight, SumUpTo;
      WeightIs(weights, before + prefix);
      fullPrefix := before + prefix;
      var total := 0.0;
      if fullPrefix in weights {
        total := total + weights[fullPrefix];
      }
      selfWeight := total;
      var list;
      ghost var fills;
      list, total, fills := FillChildren(total, weights);
      ordered := SortedByWeight(list, Repr - {this}, fills);
      weight := total;
      filled := Filled(prefix, fullPrefix, value, selfWeight, weight, SortByWeight(fills));
      SortFillsOut(tree, before, weights, fills);
    }

    /** Lines 129 to 131 of `fillOut`: the children are filled, in any order, and their weights added up. */
    method FillChildren(start: real, weights: Weights)
      returns (list: seq<Trie>, total: real, ghost fills: seq<Filled>)
      requires Valid()
      modifies Repr - {this}
      ensures Valid()
      ensures FilledList(list, Repr - {this}, fills) && FillsAll(tree.kids, fullPrefix, weights, fills)
      ensures total == start + SumUpTo(fills, |fills|)
      decreases tree, 0
    {
      hide Forest, FilledList, FillsAll, FillsOut, Filling, Splits, SumUpTo;
      ghost var nodes, kids := Repr - {this}, tree.kids;
      var before, dict := fullPrefix, keys;
      var m: map<Text, Trie> := map[];
      var todo := dict;
      list, total, fills := [], start, [];
      ghost var done: set<Trie>, newKids: map<nat, Tree>, oldKids := {}, map[], kids;
      FillingStarts(before, weights, dict, kids, nodes);
      while todo != map[]
        invariant Filling(m, done, newKids, list, fills, before, weights)
        invariant Forest(todo, nodes - done, oldKids)
        invariant done <= nodes && Splits(dict, m, todo) && Splits(kids, newKids, oldKids)
        invariant total == start + SumUpTo(fills, |fills|)
        modifies nodes
        decreases |todo|
      {
        var k :| k in todo;
        TakeChild(dict, m, todo, kids, newKids, oldKids, nodes, done, k);
        var v := todo[k];
        list, total, fills := FillChild(v, before, weights, list, total, m, done, newKids, fills);
        done, newKids, oldKids := done + v.Repr, newKids[k[0] := v.tree], oldKids - {k[0]};
        m := m[k := v];
        todo := todo - {k};
      }
      FillingEnds(dict, m, kids, newKids, oldKids, done, nodes, list, fills, before, weights);
    }

    /** One round of that loop. */
    static method FillChild(
        v: Trie, before: Text, weights: Weights, list: seq<Trie>, total: real,
        ghost m: map<Text, Trie>, ghost done: set<Trie>, ghost kids: map<nat, Tree>, ghost fills: seq<Filled>)
      returns (list': seq<Trie>, total': real, ghost fills': seq<Filled>)
      requires Filling(m, done, kids, list, fills, before, weights)
      requires v.Valid() && v.Repr !! done && v.prefix != [] && v.prefix[0] !in kids
      modifies v.Repr
      ensures v.Repr == old(v.Repr) && v.tree == old(v.tree)
      ensures Filling(m[v.prefix := v], done + v.Repr, kids[v.prefix[0] := v.tree], list', fills', before, weights)
      ensures total' - SumUpTo(fills', |fills'|) == total - SumUpTo(fills, |fills|)
      decreases v.tree, 2
    {
      hide Forest, FilledList, FillsAll, FillsOut, Filling, SumUpTo;
      v.FillOut(before, weights);
      FillingGrows(m, done, kids, list, fills, before, weights, v);
      list', total', fills' := list + [v], total + v.weight, fills + [v.filled];
    }

    /** The nodes of `m` form a forest, and have been filled and listed. */
    static ghost predicate Filling(
        m: map<Text, Trie>, nodes: set<Trie>, kids: map<nat, Tree>,
        list: seq<Trie>, fills: seq<Filled>, fullPrefix: Text, weights: Weights)
      reads nodes
    {
      Forest(m, nodes, kids) && FilledList(list, nodes, fills) && FillsAll(kids, fullPrefix, weights, fills)
    }

    static lemma FillingStarts(
        fullPrefix: Text, weights: Weights, keys: map<Text, Trie>, kids: map<nat, Tree>, nodes: set<Trie>)
      ensures nodes - {} == nodes
      ensures Filling(map[], {}, map[], [], [], fullPrefix, weights)
      ensures Splits(keys, map[], keys) && Splits(kids, map[], kids)
      ensures SumUpTo([], 0) == 0.0
    {
    }

    static lemma TakeChild(
        keys: map<Text, Trie>, m: map<Text, Trie>, todo: map<Text, Trie>,
        kids: map<nat, Tree>, newKids: map<nat, Tree>, oldKids: map<nat, Tree>, nodes: set<Trie>, done: set<Trie>, k: Text)
      requires Forest(todo, nodes - done, oldKids) && k in todo
      requires Splits(keys, m, todo) && Splits(kids, newKids, oldKids)
      ensures k != [] && todo[k].prefix == k && todo[k].Valid() && todo[k].Repr <= nodes - done
      ensures k[0] in kids && k[0] !in newKids && todo[k].tree == kids[k[0]]
      ensures Forest(todo - {k}, nodes - (done + todo[k].Repr), oldKids - {k[0]})
      ensures Splits(keys, m[k := todo[k]], todo - {k})
      ensures Splits(kids, newKids[k[0] := todo[k].tree], oldKids - {k[0]})
    {
      hide Forest, Splits;
      SetAside(todo, nodes - done, oldKids, k);
      assert nodes - done - todo[k].Repr == nodes - (done + todo[k].Repr);
      SplitsMove(keys, m, todo, k);
      SplitsMove(kids, newKids, oldKids, k[0]);
    }

    static lemma FillingGrows(
        m: map<Text, Trie>, nodes: set<Trie>, kids: map<nat, Tree>,
        list: seq<Trie>, fills: seq<Filled>, fullPrefix: Text, weights: Weights, v: Trie)
      requires Filling(m, nodes, kids, list, fills, fullPrefix, weights)
      requires v.IsFilled() && v.Repr !! nodes && v.prefix != [] && v.prefix[0] !in kids
      requires FillsOut(v.tree, fullPrefix, weights, v.filled)
      ensures Filling(m[v.prefix := v], nodes + v.Repr, kids[v.prefix[0] := v.tree],
                      list + [v], fills + [v.filled], fullPrefix, weights)
      ensures SumUpTo(fills + [v.filled], |fills| + 1) == SumUpTo(fills, |fills|) + v.weight
    {
      hide Forest, FilledList, FillsAll, FillsOut;
      Join(m, nodes, kids, v);
      FilledListGrows(list, nodes, fills, v);
      FillsOneMore(kids, fullPrefix, weights, fills, v.tree, v.filled);
      SumGrows(fills, v.filled);
    }

    static lemma FillingEnds(
        keys: map<Text, Trie>, m: map<Text, Trie>, kids: map<nat, Tree>, newKids: map<nat, Tree>, oldKids: map<nat, Tree>,
        done: set<Trie>, nodes: set<Trie>, list: seq<Trie>, fills: seq<Filled>, fullPrefix: Text, weights: Weights)
      requires Filling(m, done, newKids, list, fills, fullPrefix, weights) && done <= nodes
      requires Forest(map[], nodes - done, oldKids) && Splits(keys, m, map[]) && Splits(kids, newKids, oldKids)
      ensures Forest(keys, nodes, kids) && FilledList(list, nodes, fills)
      ensures FillsAll(kids, fullPrefix, weights, fills)
    {
      hide Forest, FilledList, FillsAll, Splits;
      NoKidsLeft(nodes - done, oldKids);
      SplitsEnd(keys, m);
      SplitsEnd(kids, newKids);
      OnlyTheirNodes(m, done, nodes, newKids, list, fills);
    }

    /** The first map consists of the other two. */
    static ghost predicate Splits<K, V>(whole: map<K, V>, a: map<K, V>, b: map<K, V>) {
      && whole.Keys == a.Keys + b.Keys && a.Keys !! b.Keys
      && (forall k :: k in a ==> a[k] == whole[k]) && forall k :: k in b ==> b[k] == whole[k]
    }

    static lemma SplitsMove<K, V>(whole: map<K, V>, a: map<K, V>, b: map<K, V>, k: K)
      requires Splits(whole, a, b) && k in b
      ensures k in whole && b[k] == whole[k] && k !in a
      ensures Splits(whole, a[k := b[k]], b - {k})
    {
    }

    static lemma SplitsEnd<K, V>(whole: map<K, V>, a: map<K, V>)
      requires Splits(whole, a, map[])
      ensures a == whole
    {
    }

    /** Nodes that belong to no child do no harm. */
    static lemma OnlyTheirNodes(
        m: map<Text, Trie>, done: set<Trie>, nodes: set<Trie>, kids: map<nat, Tree>, list: seq<Trie>, fills: seq<Filled>)
      requires Forest(m, done, kids) && FilledList(list, done, fills) && done <= nodes
      ensures Forest(m, nodes, kids) && FilledList(list, nodes, fills)
    {
    }

    static lemma SumGrows(fills: seq<Filled>, f: Filled)
      ensures SumUpTo(fills + [f], |fills| + 1) == SumUpTo(fills, |fills|) + f.weight
    {
      SumOfPrefix(fills + [f], |fills|, |fills|);
      assert (fills + [f])[..|fills|] == fills;
    }

    // ----- maxLength, printSubTreeAsC -----

    method MaxLength() returns (max: nat)
      requires IsFilled()
      ensures max == KeywordCode.MaxLength(filled)
      decreases Repr
    {
      hide FilledList;
      max := |fullPrefix|;
      SameLengths(ordered, Repr - {this}, filled.keys);
      for i := 0 to |ordered|
        invariant max == MaxLengthUpTo(filled, i)
      {
        FilledListWeight(ordered, Repr - {this}, filled.keys, i);
        var l := ordered[i].MaxLength();
        if l > max {
          max := l;
        }
      }
    }

    /** Prints the subtree. The lines read back as the code that `Emit` describes. */
    method PrintSubTreeAsC() returns (lines: seq<Line>)
      requires IsFilled() && Coherent(filled)
      ensures lines == Render(Emit(filled))
      decreases Repr
    {
      hide FilledList, Render, RenderFrom, Emit, EmitBranch;
      ghost var code := Emit(filled);
      lines := [];
      if value != None {
        lines := [IfNotIdentPart(|fullPrefix|), InternalShift(|fullPrefix|), IfCreateIdentifier, SetIdent(fullPrefix),
                  Return(value.value), Close];
      }
      EmitShape(filled);
      RenderStarts(filled, lines);
      SameLengths(ordered, Repr - {this}, filled.keys);
      var rootIndex := |fullPrefix|;
      var itemCount := 0;
      while itemCount < |ordered|
        invariant 0 <= itemCount <= |ordered|
        invariant itemCount < |ordered| ==> lines + RenderFrom(code, itemCount) == Render(code)
        invariant itemCount == |ordered| ==> lines == Render(code)
      {
        var trie := ordered[itemCount];
        FilledListWeight(ordered, Repr - {this}, filled.keys, itemCount);
        var k := trie.prefix;
        var baseIndex := rootIndex;
        if baseIndex > 0 && |k| == 3 {
          baseIndex := baseIndex - 1;
          k := [trie.fullPrefix[baseIndex]] + k;
        }
        var head := if itemCount == 0 then If(baseIndex, k) else ElseIf(baseIndex, k);
        var body := trie.PrintSubTreeAsC();
        RenderStep(filled, itemCount, lines, head, baseIndex, k, body);
        lines := lines + [head] + body;
        itemCount := itemCount + 1;
        if itemCount == |ordered| {
          lines := lines + [Close];
        }
      }
    }

    static lemma EmitShape(f: Filled)
      requires Coherent(f)
      ensures |Emit(f).branches| == |f.keys|
      ensures forall i :: 0 <= i < |f.keys| ==>
                f.keys[i].fullPrefix == f.fullPrefix + f.keys[i].prefix && Coherent(f.keys[i])
    {
    }

    static lemma RenderStarts(f: Filled, lines: seq<Line>)
      requires Coherent(f)
      requires lines == if f.value.None? then [] else
                 [IfNotIdentPart(|f.fullPrefix|), InternalShift(|f.fullPrefix|), IfCreateIdentifier,
                  SetIdent(f.fullPrefix), Return(f.value.value), Close]
      ensures lines + RenderFrom(Emit(f), 0) == Render(Emit(f))
      ensures f.keys == [] ==> lines == Render(Emit(f))
    {
    }

    static lemma RenderStep(f: Filled, i: nat, lines: seq<Line>, head: Line, base: nat, chars: Text, body: seq<Line>)
      requires Coherent(f) && i < |f.keys|
      requires lines + RenderFrom(Emit(f), i) == Render(Emit(f))
      requires var kid := f.keys[i];
               if |f.fullPrefix| > 0 && |kid.prefix| == 3 then
                 base == |f.fullPrefix| - 1 && chars == [kid.fullPrefix[base]] + kid.prefix
               else
                 base == |f.fullPrefix| && chars == kid.prefix
      requires head == if i == 0 then If(base, chars) else ElseIf(base, chars)
      requires body == Render(Emit(f.keys[i]))
      ensures var lines' := lines + [head] + body;
              if i + 1 < |f.keys| then lines' + RenderFrom(Emit(f), i + 1) == Render(Emit(f))
              else lines' + [Close] == Render(Emit(f))
    {
      hide Render;
      var code := Emit(f);
      assert code.branches[i] == EmitBranch(f, f.keys[i], Emit(f.keys[i]));
      var rest := RenderFrom(code, i + 1);
      assert RenderFrom(code, i) == [head] + body + rest;
      assert lines + ([head] + body + rest) == lines + [head] + body + rest;
    }
  }

  // ----- printAsC and the driver -----

  /** The generated file: the constant, and the body of `parseKeyword` for each character type. */
  datatype Program = Program(maxTokenLength: nat, forUChar: seq<Line>, forLChar: seq<Line>)

  method PrintAsC(trie: Trie) returns (program: Program)
    requires trie.IsFilled() && Coherent(trie.filled)
    ensures program.maxTokenLength == MaxTokenLength(trie.filled)
    ensures program.forUChar == program.forLChar == Render(Emit(trie.filled)) + [ReturnIdent]
  {
    var max := trie.MaxLength();
    var wide := trie.PrintSubTreeAsC();
    var narrow := trie.PrintSubTreeAsC();
    program := Program(max + 1, wide + [ReturnIdent], narrow + [ReturnIdent]);
  }

  /** The program is the one for the table, compressed, filled and ordered, whatever order equally heavy siblings got. */
  ghost predicate Generated(keywords: seq<Entry>, weights: Weights, program: Program) {
    exists f :: GeneratedFrom(keywords, weights, f, program)
  }

  ghost predicate GeneratedFrom(keywords: seq<Entry>, weights: Weights, f: Filled, program: Program) {
    && FillsOut(Compile(keywords), [], weights, f) && Coherent(f)
    && program.maxTokenLength == MaxTokenLength(f)
    && program.forUChar == program.forLChar == Render(Emit(f)) + [ReturnIdent]
  }

  /** The whole run of the generator. */
  method Generate(keywords: seq<Entry>, weights: Weights) returns (program: Program)
    ensures Generated(keywords, weights, program)
  {
    hide Build, FillsOut, Coherent, SingleEdges, WellKeyed;
    var trie := new Trie([]);
    BuildSteps(keywords);
    var i := 0;
    while i < |keywords|
      invariant 0 <= i <= |keywords|
      invariant trie.Valid() && fresh(trie.Repr) && trie.tree == Build(keywords[..i])
    {
      BuildIsTable(keywords[..i], []);
      trie.Insert(keywords[i].0, keywords[i].1);
      i := i + 1;
    }
    assert keywords[..i] == keywords;
    BuildIsTable(keywords, []);
    SingleEdgesAreKeyed(trie.tree);
    var discarded := trie.Coalesce();
    trie.FillOut([], weights);
    FilledIsCoherent(trie.tree, [], weights, trie.filled);
    program := PrintAsC(trie);
    assert GeneratedFrom(keywords, weights, trie.filled, program);
  }

  lemma BuildSteps(table: seq<Entry>)
    ensures Build(table[..0]) == Tree([], None, map[])
    ensures forall i :: 0 <= i < |table| ==> Build(table[..i + 1]) == KeywordTrie.Insert(Build(table[..i]), table[i].0, table[i].1)
  {
    forall i | 0 <= i < |table|
      ensures Build(table[..i + 1]) == KeywordTrie.Insert(Build(table[..i]), table[i].0, table[i].1)
    {
      assert table[..i + 1][..i] == table[..i];
    }
  }

  /** The lines printed for a target. */
  function LinesFor(program: Program, t: Target): seq<Line> {
    if t.units == 0x100 then program.forLChar else program.forUChar
  }

  /**
   * What the generated file does. Its lines read back as code that stays within `maxTokenLength`. It compiles
   * exactly if in every keyword, each stretch of nine units has a prefix inside that is a keyword or is continued
   * in two ways. If it compiles, then on every target and input it returns what the keyword table says.
   */
  lemma GeneratedProgramIsTable(
      keywords: seq<Entry>, weights: Weights, program: Program, t: Target, isIdentPart: nat -> bool, input: Text)
    requires GoodTable(keywords, isIdentPart) && Generated(keywords, weights, program)
    requires t.Valid() && UnitsBelow(input, t.units) && |input| >= program.maxTokenLength
    ensures ParseCode(LinesFor(program, t)).Some?
    ensures var (code, rest) := ParseCode(LinesFor(program, t)).value;
            var word := Word(isIdentPart, input);
            rest == [ReturnIdent] && ReadsBelow(code, program.maxTokenLength) && ReadsBelow(code, |input|) &&
            (Compiles(code) <==> HasStops(keywords)) &&
            (Compiles(code) ==> Eval(code, t, isIdentPart, input) == Expected(LastEntry(keywords, word), word))
  {
    hide Eval, Word, Render, ParseCode, Emit, ReadsBelow, Compiles, FillsOut, GoodTable, Coherent, HasStops;
    var f :| GeneratedFrom(keywords, weights, f, program);
    ParseOfRendered(Emit(f), [ReturnIdent]);
    NoEmptyKeyword(keywords, isIdentPart);
    CompiledReadsBelow(keywords, weights, f, program.maxTokenLength);
    CompiledReadsBelow(keywords, weights, f, |input|);
    CompilesIffShortEdges(f);
    FilledIsShort(Compile(keywords), [], weights, f);
    ShortPrefixesIff(keywords);
    if ShortEdges(f) {
      RecogniserIsTable(keywords, weights, f, t, isIdentPart, input);
    }
  }

  lemma NoEmptyKeyword(table: seq<Entry>, isIdentPart: nat -> bool)
    requires GoodTable(table, isIdentPart)
    ensures forall i :: 0 <= i < |table| ==> table[i].0 != []
  {
  }
}
