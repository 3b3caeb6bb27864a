/** Ordering siblings by weight, as `fillOut` does with `sorted(..., reverse=True)`. */
module KeywordOrder {
  import opened Options
  import opened KeywordTrie
  import opened KeywordCode

  /** Puts `x` after the siblings that are at least as heavy, so that equally heavy ones keep their order. */
  function InsertByWeight(s: seq<Filled>, x: Filled): (r: seq<Filled>)
    ensures |r| == |s| + 1
  {
    if s == [] || s[0].weight < x.weight then [x] + s else [s[0]] + InsertByWeight(s[1..], x)
  }

  function SortByWeight(s: seq<Filled>): (r: seq<Filled>)
    ensures |r| == |s|
  {
    if s == [] then [] else InsertByWeight(SortByWeight(s[..|s| - 1]), s[|s| - 1])
  }

  lemma {:induction false} InsertElements(s: seq<Filled>, x: Filled)
    ensures forall y :: y in InsertByWeight(s, x) <==> y in s || y == x
  {
    if s != [] && s[0].weight >= x.weight {
      InsertElements(s[1..], x);
      assert s == [s[0]] + s[1..];
    }
  }

  lemma {:induction false} InsertTotal(s: seq<Filled>, x: Filled)
    ensures TotalWeight(InsertByWeight(s, x)) == TotalWeight(s) + x.weight
  {
    if s == [] || s[0].weight < x.weight {
      assert ([x] + s)[1..] == s;
    } else {
      InsertTotal(s[1..], x);
      assert InsertByWeight(s, x)[1..] == InsertByWeight(s[1..], x);
    }
  }

  lemma PrependKeepsOrder(h: Filled, r: seq<Filled>)
    requires HeaviestFirst(r) && forall y :: y in r ==> y.weight <= h.weight
    ensures HeaviestFirst([h] + r)
  {
    var s := [h] + r;
    assert forall i :: 0 < i < |s| ==> s[i] == r[i - 1] && s[i] in r;
  }

  lemma HeadIsHeaviest(s: seq<Filled>)
    requires HeaviestFirst(s) && s != []
    ensures HeaviestFirst(s[1..]) && forall y :: y in s ==> y.weight <= s[0].weight
  {
  }

  lemma {:induction false} InsertKeepsOrder(s: seq<Filled>, x: Filled)
    requires HeaviestFirst(s)
    ensures HeaviestFirst(InsertByWeight(s, x))
  {
    if s != [] {
      HeadIsHeaviest(s);
      if s[0].weight < x.weight {
        PrependKeepsOrder(x, s);
      } else {
        InsertKeepsOrder(s[1..], x);
        InsertElements(s[1..], x);
        hide HeaviestFirst;
        PrependKeepsOrder(s[0], InsertByWeight(s[1..], x));
      }
    }
  }

  /** The result is sorted, with the same elements and the same total weight. */
  lemma {:induction false} SortIsSorted(s: seq<Filled>)
    ensures HeaviestFirst(SortByWeight(s))
    ensures forall y :: y in SortByWeight(s) <==> y in s
    ensures TotalWeight(SortByWeight(s)) == SumUpTo(s, |s|)
  {
    if s != [] {
      var n := |s| - 1;
      SortIsSorted(s[..n]);
      InsertKeepsOrder(SortByWeight(s[..n]), s[n]);
      InsertElements(SortByWeight(s[..n]), s[n]);
      InsertTotal(SortByWeight(s[..n]), s[n]);
      assert s == s[..n] + [s[n]];
      SumOfPrefix(s, n, n);
    }
  }

  /** The siblings of one weight, in order. */
  function OfWeight(s: seq<Filled>, w: real): seq<Filled> {
    if s == [] then []
    else OfWeight(s[..|s| - 1], w) + if s[|s| - 1].weight == w then [s[|s| - 1]] else []
  }

  lemma {:induction false} OfWeightPrepended(x: Filled, s: seq<Filled>, w: real)
    ensures OfWeight([x] + s, w) == (if x.weight == w then [x] else []) + OfWeight(s, w)
  {
    var t := [x] + s;
    if s == [] {
      assert t[..|t| - 1] == [];
    } else {
      assert t[..|t| - 1] == [x] + s[..|s| - 1];
      OfWeightPrepended(x, s[..|s| - 1], w);
    }
  }

  lemma {:induction false} NoneHeavier(s: seq<Filled>, w: real)
    requires forall y :: y in s ==> y.weight < w
    ensures OfWeight(s, w) == []
  {
    if s != [] {
      NoneHeavier(s[..|s| - 1], w);
    }
  }

  lemma {:induction false} InsertIsStable(s: seq<Filled>, x: Filled, w: real)
    requires HeaviestFirst(s)
    ensures OfWeight(InsertByWeight(s, x), w) == OfWeight(s, w) + if x.weight == w then [x] else []
  {
    hide HeaviestFirst, OfWeight;
    if s == [] || s[0].weight < x.weight {
      OfWeightPrepended(x, s, w);
      if x.weight == w {
        if s != [] {
          HeadIsHeaviest(s);
        }
        NoneHeavier(s, w);
      }
    } else {
      HeadIsHeaviest(s);
      InsertIsStable(s[1..], x, w);
      OfWeightPrepended(s[0], InsertByWeight(s[1..], x), w);
      OfWeightPrepended(s[0], s[1..], w);
      assert s == [s[0]] + s[1..];
    }
  }

  /** Siblings of equal weight keep their relative order, and none is lost or repeated. */
  lemma {:induction false} SortIsStable(s: seq<Filled>, w: real)
    ensures OfWeight(SortByWeight(s), w) == OfWeight(s, w)
  {
    if s != [] {
      var n := |s| - 1;
      SortIsStable(s[..n], w);
      SortIsSorted(s[..n]);
      InsertIsStable(SortByWeight(s[..n]), s[n], w);
    }
  }

  /** The running sum of the loop, in the order in which the dictionary yields the children. */
  function SumUpTo(s: seq<Filled>, k: nat): real
    requires k <= |s|
  {
    if k == 0 then 0.0 else SumUpTo(s, k - 1) + s[k - 1].weight
  }

  lemma {:induction false} SumOfPrefix(s: seq<Filled>, n: nat, k: nat)
    requires k <= n <= |s|
    ensures SumUpTo(s[..n], k) == SumUpTo(s, k)
  {
    if k > 0 {
      SumOfPrefix(s, n, k - 1);
    }
  }

  predicate Differ(a: Filled, b: Filled) {
    a.prefix != [] && b.prefix != [] && a.prefix[0] != b.prefix[0]
  }

  predicate FirstsDiffer(s: seq<Filled>) {
    forall i, j :: 0 <= i < j < |s| ==> Differ(s[i], s[j])
  }

  lemma PrependKeepsFirstsDiffering(h: Filled, r: seq<Filled>)
    requires FirstsDiffer(r) && h.prefix != []
    requires forall y :: y in r ==> y.prefix != [] && y.prefix[0] != h.prefix[0]
    ensures FirstsDiffer([h] + r)
  {
    var s := [h] + r;
    assert forall i :: 0 < i < |s| ==> s[i] == r[i - 1] && s[i] in r;
  }

  lemma HeadDiffers(s: seq<Filled>)
    requires FirstsDiffer(s) && s != []
    ensures FirstsDiffer(s[1..])
    ensures forall y :: y in s[1..] ==> s[0].prefix != [] && y.prefix != [] && y.prefix[0] != s[0].prefix[0]
  {
    var r := s[1..];
    forall i, j | 0 <= i < j < |r| ensures Differ(r[i], r[j]) {
      assert Differ(s[i + 1], s[j + 1]);
    }
    forall y | y in r ensures Differ(s[0], y) {
      var i :| 0 <= i < |r| && r[i] == y;
      assert Differ(s[0], s[i + 1]);
    }
  }

  lemma {:induction false} InsertKeepsFirstsDiffering(s: seq<Filled>, x: Filled)
    requires FirstsDiffer(s) && x.prefix != []
    requires forall y :: y in s ==> y.prefix != [] && y.prefix[0] != x.prefix[0]
    ensures FirstsDiffer(InsertByWeight(s, x))
  {
    hide FirstsDiffer;
    if s == [] || s[0].weight < x.weight {
      PrependKeepsFirstsDiffering(x, s);
    } else {
      HeadDiffers(s);
      assert s[0] in s;
      InsertKeepsFirstsDiffering(s[1..], x);
      InsertElements(s[1..], x);
      PrependKeepsFirstsDiffering(s[0], InsertByWeight(s[1..], x));
    }
  }

  lemma LastDiffers(s: seq<Filled>)
    requires FirstsDiffer(s) && s != []
    ensures var n := |s| - 1;
            FirstsDiffer(s[..n]) && forall y :: y in s[..n] ==> Differ(y, s[n])
  {
    var n := |s| - 1;
    var r := s[..n];
    forall i, j | 0 <= i < j < |r| ensures Differ(r[i], r[j]) {
      assert Differ(s[i], s[j]);
    }
    forall y | y in r ensures Differ(y, s[n]) {
      var i :| 0 <= i < n && r[i] == y;
      assert Differ(s[i], s[n]);
    }
  }

  lemma {:induction false} SortKeepsFirstsDiffering(s: seq<Filled>)
    requires FirstsDiffer(s) && forall y :: y in s ==> y.prefix != []
    ensures FirstsDiffer(SortByWeight(s))
    ensures forall y :: y in SortByWeight(s) <==> y in s
  {
    hide FirstsDiffer;
    if s == [] {
      assert SortByWeight(s) == s;
    } else {
      var n := |s| - 1;
      LastDiffers(s);
      assert s == s[..n] + [s[n]];
      SortKeepsFirstsDiffering(s[..n]);
      InsertKeepsFirstsDiffering(SortByWeight(s[..n]), s[n]);
      InsertElements(SortByWeight(s[..n]), s[n]);
    }
  }

  /** Children filled so far, in the order of the dictionary: each kid of `kids` exactly once. */
  ghost predicate FillsAll(kids: map<nat, Tree>, fullPrefix: Text, weights: Weights, fills: seq<Filled>) {
    && Arranges(kids, fills)
    && forall i :: 0 <= i < |fills| ==> FillsOut(kids[fills[i].prefix[0]], fullPrefix, weights, fills[i])
  }

  lemma FilledPrefix(t: Tree, before: Text, weights: Weights, f: Filled)
    requires FillsOut(t, before, weights, f)
    ensures f.prefix == t.prefix
  {
  }

  lemma ArrangesOneMore(kids: map<nat, Tree>, fills: seq<Filled>, t: Tree, f: Filled)
    requires Arranges(kids, fills) && f.prefix == t.prefix != [] && t.prefix[0] !in kids
    ensures Arranges(kids[t.prefix[0] := t], fills + [f])
  {
    var kids', fills' := kids[t.prefix[0] := t], fills + [f];
    assert fills'[|fills|] == f;
    forall c | c in kids' ensures exists i :: 0 <= i < |fills'| && fills'[i].prefix[0] == c {
      if c != t.prefix[0] {
        var i :| 0 <= i < |fills| && fills[i].prefix[0] == c;
        assert fills'[i] == fills[i];
      }
    }
  }

  lemma FillsOneMore(kids: map<nat, Tree>, fullPrefix: Text, weights: Weights, fills: seq<Filled>, t: Tree, f: Filled)
    requires FillsAll(kids, fullPrefix, weights, fills)
    requires t.prefix != [] && t.prefix[0] !in kids && FillsOut(t, fullPrefix, weights, f)
    ensures FillsAll(kids[t.prefix[0] := t], fullPrefix, weights, fills + [f])
  {
    hide FillsOut;
    FilledPrefix(t, fullPrefix, weights, f);
    ArrangesOneMore(kids, fills, t, f);
  }

  lemma ArrangesSorted(kids: map<nat, Tree>, fills: seq<Filled>)
    requires Arranges(kids, fills)
    ensures Arranges(kids, SortByWeight(fills))
    ensures forall y :: y in SortByWeight(fills) <==> y in fills
  {
    hide SortByWeight;
    var sorted := SortByWeight(fills);
    forall y | y in fills ensures y.prefix != [] && y.prefix[0] in kids {
      var i :| 0 <= i < |fills| && fills[i] == y;
    }
    SortKeepsFirstsDiffering(fills);
    forall i | 0 <= i < |sorted| ensures sorted[i].prefix != [] && sorted[i].prefix[0] in kids {
      assert sorted[i] in sorted;
    }
    forall c | c in kids ensures exists i :: 0 <= i < |sorted| && sorted[i].prefix[0] == c {
      var j :| 0 <= j < |fills| && fills[j].prefix[0] == c;
      assert fills[j] in sorted;
      var i :| 0 <= i < |sorted| && sorted[i] == fills[j];
    }
  }

  lemma FillsSorted(kids: map<nat, Tree>, fullPrefix: Text, weights: Weights, fills: seq<Filled>)
    requires FillsAll(kids, fullPrefix, weights, fills)
    ensures FillsAll(kids, fullPrefix, weights, SortByWeight(fills))
  {
    hide SortByWeight, FillsOut;
    var sorted := SortByWeight(fills);
    ArrangesSorted(kids, fills);
    forall i | 0 <= i < |sorted| ensures FillsOut(kids[sorted[i].prefix[0]], fullPrefix, weights, sorted[i]) {
      assert sorted[i] in sorted;
      var j :| 0 <= j < |fills| && fills[j] == sorted[i];
    }
  }

  /** Sorting what all the children were filled with gives what `fillOut` makes of the node. */
  lemma SortFillsOut(t: Tree, before: Text, weights: Weights, fills: seq<Filled>)
    requires FillsAll(t.kids, before + t.prefix, weights, fills)
    ensures var w := Weight(weights, before + t.prefix);
            FillsOut(t, before, weights,
                     Filled(t.prefix, before + t.prefix, t.value, w, w + SumUpTo(fills, |fills|), SortByWeight(fills)))
  {
    hide SortByWeight, Arranges;
    FillsSorted(t.kids, before + t.prefix, weights, fills);
    SortIsSorted(fills);
  }

  lemma SplitsLater(s: seq<Filled>, x: Filled, j: nat)
    requires 0 < j <= |s|
    ensures s[..j] + [x] + s[j..] == [s[0]] + (s[1..][..j - 1] + [x] + s[1..][j - 1..])
  {
    assert s[..j] == [s[0]] + s[1..][..j - 1];
    assert s[j..] == s[1..][j - 1..];
  }

  lemma {:induction false} InsertPosition(s: seq<Filled>, x: Filled, j: nat)
    requires j <= |s|
    requires forall i :: 0 <= i < j ==> s[i].weight >= x.weight
    requires j < |s| ==> s[j].weight < x.weight
    ensures InsertByWeight(s, x) == s[..j] + [x] + s[j..]
    decreases j
  {
    if j == 0 {
      assert s[..0] + [x] + s[0..] == [x] + s;
    } else {
      assert forall i :: 0 <= i < j - 1 ==> s[1..][i] == s[i + 1];
      InsertPosition(s[1..], x, j - 1);
      SplitsLater(s, x, j);
    }
  }
}
