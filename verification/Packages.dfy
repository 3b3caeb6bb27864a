/** The dependency closure that `cygwin-downloader.py` computes before it downloads anything. */
module Packages {

  type Name = string

  /** One package of setup.ini. The dictionary entry of the source: only the flag is ever changed. */
  class Package {
    const requirements: seq<Name>
    var needsDownload: bool

    constructor (requirements: seq<Name>, needsDownload: bool)
      ensures this.requirements == requirements && this.needsDownload == needsDownload
    {
      this.requirements := requirements;
      this.needsDownload := needsDownload;
    }
  }

  // ----- Reachability -----

  /** The dependencies of each known package. Names outside the map are unknown. */
  type Graph = map<Name, seq<Name>>

  /** A path through known packages, each required by the one before. */
  predicate IsPath(g: Graph, p: seq<Name>)
  {
    && p != []
    && (forall i :: 0 <= i < |p| ==> p[i] in g)
    && forall i :: 0 < i < |p| ==> p[i] in g[p[i - 1]]
  }

  predicate Avoids(p: seq<Name>, visited: set<Name>) {
    forall i :: 0 <= i < |p| ==> p[i] !in visited
  }

  predicate PathFromTo(g: Graph, visited: set<Name>, p: seq<Name>, from: Name, to: Name) {
    IsPath(g, p) && Avoids(p, visited) && p[0] == from && p[|p| - 1] == to
  }

  /** `to` can be reached from `from` through known packages not yet visited. */
  ghost predicate ReachesAvoiding(g: Graph, visited: set<Name>, from: Name, to: Name) {
    exists p :: PathFromTo(g, visited, p, from, to)
  }

  /** Everything that can be reached from `from` through known packages not yet visited. */
  ghost function WhiteReach(g: Graph, visited: set<Name>, from: Name): set<Name> {
    set x | x in g.Keys && ReachesAvoiding(g, visited, from, x)
  }

  /** Everything that can be reached from a root through known packages. */
  ghost function Reach(g: Graph, roots: set<Name>): set<Name> {
    set x | x in g.Keys && exists r :: r in roots && ReachesAvoiding(g, {}, r, x)
  }

  lemma ReachesItself(g: Graph, visited: set<Name>, x: Name)
    requires x in g && x !in visited
    ensures ReachesAvoiding(g, visited, x, x)
  {
    assert PathFromTo(g, visited, [x], x, x);
  }

  lemma ReachesThrough(g: Graph, visited: set<Name>, visited': set<Name>, from: Name, dep: Name, to: Name)
    requires from in g && from !in visited && dep in g[from]
    requires visited <= visited' && ReachesAvoiding(g, visited', dep, to)
    ensures ReachesAvoiding(g, visited, from, to)
  {
    var p :| PathFromTo(g, visited', p, dep, to);
    var q := [from] + p;
    assert forall i :: 0 < i < |q| ==> q[i] == p[i - 1];
    assert PathFromTo(g, visited, q, from, to);
  }

  /** A path cannot leave a set of names that contains the known, unvisited requirements of its members. */
  lemma {:induction false} PathsStayInside(g: Graph, visited: set<Name>, p: seq<Name>, closed: set<Name>)
    requires IsPath(g, p) && Avoids(p, visited) && p[0] in closed
    requires forall x, d :: x in closed && x in g && d in g[x] && d in g && d !in visited ==> d in closed
    ensures p[|p| - 1] in closed
  {
    if |p| > 1 {
      var q := p[1..];
      assert forall i :: 0 <= i < |q| ==> q[i] == p[i + 1];
      assert p[1] in g[p[1 - 1]];
      PathsStayInside(g, visited, q, closed);
    }
  }

  lemma ReachesOneMore(g: Graph, visited: set<Name>, from: Name, x: Name, d: Name)
    requires ReachesAvoiding(g, visited, from, x)
    requires x in g && d in g[x] && d in g && d !in visited
    ensures ReachesAvoiding(g, visited, from, d)
  {
    var p :| PathFromTo(g, visited, p, from, x);
    var q := p + [d];
    assert forall i :: 0 <= i < |p| ==> q[i] == p[i];
    assert PathFromTo(g, visited, q, from, d);
  }

  /** What is reached is new, and contains its own requirements, except the unknown and the visited ones. */
  lemma WhiteReachIsClosed(g: Graph, visited: set<Name>, from: Name)
    ensures WhiteReach(g, visited, from) !! visited
    ensures forall x, d :: x in WhiteReach(g, visited, from) && d in g[x] && d in g && d !in visited
              ==> d in WhiteReach(g, visited, from)
  {
    forall x, d | x in WhiteReach(g, visited, from) && d in g[x] && d in g && d !in visited
      ensures d in WhiteReach(g, visited, from)
    {
      ReachesOneMore(g, visited, from, x, d);
    }
  }

  lemma WhiteReachIsNew(g: Graph, visited: set<Name>, from: Name)
    ensures WhiteReach(g, visited, from) !! visited
  {
    WhiteReachIsClosed(g, visited, from);
  }

  /** A set of reached names that holds the start and is closed is all that can be reached. */
  lemma ClosedSetIsWhiteReach(g: Graph, visited: set<Name>, from: Name, found: set<Name>)
    requires found <= g.Keys && found !! visited
    requires from in g && from !in visited ==> from in found
    requires forall x :: x in found ==> ReachesAvoiding(g, visited, from, x)
    requires forall x, d :: x in found && d in g[x] && d in g && d !in visited ==> d in found
    ensures found == WhiteReach(g, visited, from)
  {
    forall x | x in WhiteReach(g, visited, from) ensures x in found {
      var p :| PathFromTo(g, visited, p, from, x);
      PathsStayInside(g, visited, p, found);
    }
  }

  /** Midway through a visit of `name`: what has been added was reached, and only `name` may still lack requirements. */
  ghost predicate Exploring(g: Graph, before: set<Name>, name: Name, now: set<Name>) {
    && before + {name} <= now <= g.Keys
    && (forall x :: x in now - before ==> ReachesAvoiding(g, before, name, x))
    && forall x, d :: x in now - before - {name} && d in g[x] && d in g ==> d in now
  }

  lemma ExploringStarts(g: Graph, before: set<Name>, name: Name)
    requires name in g && name !in before && before <= g.Keys
    ensures Exploring(g, before, name, before + {name})
  {
    ReachesItself(g, before, name);
  }

  lemma ExploringGoesOn(g: Graph, before: set<Name>, name: Name, now: set<Name>, dep: Name)
    requires name in g && name !in before && dep in g[name]
    requires Exploring(g, before, name, now)
    ensures var more := WhiteReach(g, now, dep);
            Exploring(g, before, name, now + more) && now + more - before == now - before + more
    ensures dep in g ==> dep in now + WhiteReach(g, now, dep)
  {
    hide ReachesAvoiding;
    WhiteReachIsClosed(g, now, dep);
    forall x | x in WhiteReach(g, now, dep) ensures ReachesAvoiding(g, before, name, x) {
      ReachesThrough(g, before, now, name, dep, x);
    }
    if dep in g && dep !in now {
      ReachesItself(g, now, dep);
    }
  }

  lemma ExploringIncludes(g: Graph, before: set<Name>, name: Name, now: set<Name>)
    requires Exploring(g, before, name, now)
    ensures before <= now
  {
  }

  lemma ExploringEnds(g: Graph, before: set<Name>, name: Name, now: set<Name>)
    requires name in g && name !in before
    requires Exploring(g, before, name, now)
    requires forall d :: d in g[name] && d in g ==> d in now
    ensures now - before == WhiteReach(g, before, name)
  {
    hide ReachesAvoiding;
    ClosedSetIsWhiteReach(g, before, name, now - before);
  }

  /** The closure is the least set of known names that holds the known roots and the known requirements of its members. */
  lemma ReachIsLeastClosedSet(g: Graph, roots: set<Name>, closed: set<Name>)
    requires forall r :: r in roots && r in g ==> r in closed
    requires forall x, d :: x in closed && x in g && d in g[x] && d in g ==> d in closed
    ensures Reach(g, roots) <= closed
    ensures forall r :: r in roots && r in g ==> r in Reach(g, roots)
    ensures forall x, d :: x in Reach(g, roots) && d in g[x] && d in g ==> d in Reach(g, roots)
  {
    forall x | x in Reach(g, roots) ensures x in closed {
      var r :| r in roots && ReachesAvoiding(g, {}, r, x);
      var p :| PathFromTo(g, {}, p, r, x);
      PathsStayInside(g, {}, p, closed);
    }
    forall r | r in roots && r in g ensures r in Reach(g, roots) {
      ReachesItself(g, {}, r);
    }
    forall x, d | x in Reach(g, roots) && d in g[x] && d in g ensures d in Reach(g, roots) {
      var r :| r in roots && ReachesAvoiding(g, {}, r, x);
      ReachesOneMore(g, {}, r, x, d);
    }
  }

  /** Between visits: what has been added was reached, and lacks none of its requirements. */
  ghost predicate Collecting(g: Graph, roots: set<Name>, now: set<Name>) {
    && now <= Reach(g, roots)
    && forall x, d :: x in now && d in g[x] && d in g ==> d in now
  }

  lemma CollectingStarts(g: Graph, roots: set<Name>)
    ensures Collecting(g, roots, {})
  {
  }

  lemma CollectingGoesOn(g: Graph, roots: set<Name>, now: set<Name>, name: Name)
    requires Collecting(g, roots, now) && name in g && (name in roots || name in now)
    ensures Collecting(g, roots, now + WhiteReach(g, now, name))
    ensures name in now + WhiteReach(g, now, name)
  {
    hide ReachesAvoiding;
    var more := WhiteReach(g, now, name);
    WhiteReachIsClosed(g, now, name);
    forall x | x in more ensures x in Reach(g, roots) {
      ReachesMore(g, now, name, x);
    }
    if name !in now {
      ReachesItself(g, now, name);
    }
  }

  lemma ReachesMore(g: Graph, visited: set<Name>, from: Name, x: Name)
    requires ReachesAvoiding(g, visited, from, x)
    ensures ReachesAvoiding(g, {}, from, x) && from !in visited
  {
    var p :| PathFromTo(g, visited, p, from, x);
    assert PathFromTo(g, {}, p, from, x);
  }

  lemma CollectingEnds(g: Graph, roots: set<Name>, now: set<Name>)
    requires Collecting(g, roots, now)
    requires forall r :: r in roots && r in g ==> r in now
    ensures now == Reach(g, roots)
  {
    ReachIsLeastClosedSet(g, roots, now);
  }

  // ----- The program -----

  class Downloader {
    const packages: map<Name, Package>
    var namesToDownload: set<Name>

    constructor (packages: map<Name, Package>)
      ensures this.packages == packages && namesToDownload == {}
    {
      this.packages := packages;
      namesToDownload := {};
    }

    /** Each name has a record of its own, as the parser makes one for every header line. */
    ghost predicate Valid()
      reads this
    {
      && (forall x, y :: x in packages && y in packages && packages[x] == packages[y] ==> x == y)
      && namesToDownload <= packages.Keys
    }

    ghost function Requirements(): Graph
    {
      map x | x in packages :: packages[x].requirements
    }

    ghost function Flagged(): set<Name>
      reads packages.Values
    {
      set x | x in packages && packages[x].needsDownload
    }

    /** Adds exactly the known packages that can be reached without passing through one added before. */
    method AddPackageAndDependencies(name: Name)
      requires Valid()
      modifies this, packages.Values
      ensures Valid()
      ensures namesToDownload == old(namesToDownload) + WhiteReach(Requirements(), old(namesToDownload), name)
      ensures Flagged() == old(Flagged()) + WhiteReach(Requirements(), old(namesToDownload), name)
      decreases packages.Keys - namesToDownload, 0
    {
      hide WhiteReach, Exploring;
      ghost var g, before := Requirements(), namesToDownload;
      if name in namesToDownload || name !in packages {
        ClosedSetIsWhiteReach(g, before, name, {});
        return;
      }
      packages[name].needsDownload := true;
      namesToDownload := namesToDownload + {name};
      ExploringStarts(g, before, name);
      WhiteReachIsNew(g, before, name);
      AddRequirements(name, before);
    }

    /** The loop of `add_package_and_dependencies`. */
    method AddRequirements(name: Name, ghost before: set<Name>)
      requires Valid() && name in packages && name !in before
      requires Exploring(Requirements(), before, name, namesToDownload)
      modifies this, packages.Values
      ensures Valid()
      ensures namesToDownload == before + WhiteReach(Requirements(), before, name)
      ensures old(namesToDownload) <= namesToDownload
      ensures Flagged() == old(Flagged()) + (namesToDownload - old(namesToDownload))
      decreases packages.Keys - namesToDownload, 1
    {
      hide WhiteReach, Exploring;
      ghost var g, start := Requirements(), namesToDownload;
      var requirements := packages[name].requirements;
      var i := 0;
      while i < |requirements|
        invariant 0 <= i <= |requirements|
        invariant Valid() && Exploring(g, before, name, namesToDownload) && start <= namesToDownload
        invariant Flagged() == old(Flagged()) + (namesToDownload - start)
        invariant forall d :: d in requirements[..i] && d in g ==> d in namesToDownload
      {
        ExploringGoesOn(g, before, name, namesToDownload, requirements[i]);
        WhiteReachIsNew(g, namesToDownload, requirements[i]);
        AddPackageAndDependencies(requirements[i]);
        assert requirements[..i + 1] == requirements[..i] + [requirements[i]];
        i := i + 1;
      }
      assert requirements[..i] == g[name];
      ExploringIncludes(g, before, name, namesToDownload);
      ExploringEnds(g, before, name, namesToDownload);
    }

    /** A chain of known packages that ends with `x`, each required by the one before. */
    ghost predicate LeadsTo(p: seq<Name>, x: Name) {
      && p != [] && p[|p| - 1] == x
      && (forall i :: 0 <= i < |p| ==> p[i] in packages)
      && forall i :: 0 < i < |p| ==> p[i] in packages[p[i - 1]].requirements
    }

    lemma ReachIsChains(roots: set<Name>)
      ensures forall x :: x in Reach(Requirements(), roots) <==> exists p :: LeadsTo(p, x) && p[0] in roots
    {
      var g := Requirements();
      forall x ensures x in Reach(g, roots) <==> exists p :: LeadsTo(p, x) && p[0] in roots {
        if x in Reach(g, roots) {
          var r :| r in roots && ReachesAvoiding(g, {}, r, x);
          var p :| PathFromTo(g, {}, p, r, x);
          assert LeadsTo(p, x) && p[0] in roots;
        }
        if p :| LeadsTo(p, x) && p[0] in roots {
          assert PathFromTo(g, {}, p, p[0], x);
          assert ReachesAvoiding(g, {}, p[0], x);
        }
      }
    }

    /**
     * The driver: `names` is the sorted list of all known names. In the end exactly those packages are to be
     * downloaded to which a chain of requirements leads from a package flagged at first.
     */
    method AddAll(names: seq<Name>)
      requires Valid() && namesToDownload == {}
      requires forall x :: x in names <==> x in packages
      modifies this, packages.Values
      ensures Valid()
      ensures namesToDownload == Reach(Requirements(), old(Flagged()))
      ensures Flagged() == namesToDownload
      ensures forall x :: x in packages ==> (packages[x].needsDownload <==> x in namesToDownload)
      ensures forall x :: x in namesToDownload <==>
                exists p :: LeadsTo(p, x) && old(packages[p[0]].needsDownload)
    {
      hide WhiteReach, Reach, Collecting, LeadsTo;
      ghost var g, roots := Requirements(), Flagged();
      ReachIsChains(roots);
      FlaggedAtStart(roots);
      CollectingStarts(g, roots);
      var i := 0;
      while i < |names|
        invariant 0 <= i <= |names|
        invariant Valid() && Collecting(g, roots, namesToDownload)
        invariant Flagged() == roots + namesToDownload
        invariant forall x :: x in names[..i] && x in roots ==> x in namesToDownload
      {
        if packages[names[i]].needsDownload {
          assert names[i] in Flagged();
          CollectingGoesOn(g, roots, namesToDownload, names[i]);
          AddPackageAndDependencies(names[i]);
        }
        assert names[..i + 1] == names[..i] + [names[i]];
        i := i + 1;
      }
      assert names[..i] == names;
      CollectingEnds(g, roots, namesToDownload);
    }

    lemma FlaggedAtStart(roots: set<Name>)
      requires roots == Flagged()
      ensures forall p, x :: LeadsTo(p, x) ==> (p[0] in roots <==> packages[p[0]].needsDownload)
    {
    }

    /** The download loop. Each message gives a running number, the announced total and the package. */
    method DownloadAll(names: seq<Name>) returns (log: seq<(int, int, Name)>)
      requires Valid() && Flagged() == namesToDownload
      requires forall x :: x in names <==> x in packages
      requires forall i, j :: 0 <= i < j < |names| ==> names[i] != names[j]
      ensures |log| == |namesToDownload|
      ensures log == Numbered(Selected(names, namesToDownload), |log|)
      ensures forall k :: 0 <= k < |log| ==>
                log[k].0 == k + 1 && log[k].1 == |namesToDownload| && log[k].2 in namesToDownload && log[k].2 in names
    {
      hide Selected;
      var downloadedSoFar := 0;
      log := [];
      var i := 0;
      SelectNone(names, namesToDownload);
      while i < |names|
        invariant 0 <= i <= |names|
        invariant downloadedSoFar == |log|
        invariant log == Numbered(Selected(names[..i], namesToDownload), |namesToDownload|)
      {
        SelectOneMore(names, i, namesToDownload);
        assert names[i] in Flagged() <==> packages[names[i]].needsDownload;
        if packages[names[i]].needsDownload {
          downloadedSoFar := downloadedSoFar + 1;
          log := log + [(downloadedSoFar, |namesToDownload|, names[i])];
        }
        i := i + 1;
      }
      SelectedIsAll(names, namesToDownload);
    }
  }

  /** The messages "package k of total" for these names. */
  function Numbered(names: seq<Name>, total: int): (log: seq<(int, int, Name)>)
    ensures |log| == |names|
  {
    seq(|names|, k requires 0 <= k < |names| => (k + 1, total, names[k]))
  }

  /** The names that belong to `s`, in their order. */
  function Selected(names: seq<Name>, s: set<Name>): (r: seq<Name>)
    ensures forall x :: x in r <==> x in names && x in s
  {
    if names == [] then [] else
    var last := names[|names| - 1];
    assert names == names[..|names| - 1] + [last];
    Selected(names[..|names| - 1], s) + (if last in s then [last] else [])
  }

  predicate Precedes(r: seq<Name>, a: Name, b: Name) {
    exists k, l :: 0 <= k < l < |r| && r[k] == a && r[l] == b
  }

  lemma PrecedesInMore(r: seq<Name>, more: seq<Name>, a: Name, b: Name)
    requires Precedes(r, a, b)
    ensures Precedes(r + more, a, b)
  {
    var k, l :| 0 <= k < l < |r| && r[k] == a && r[l] == b;
    assert (r + more)[k] == a && (r + more)[l] == b;
  }

  lemma PrecedesLast(r: seq<Name>, a: Name, b: Name)
    requires a in r
    ensures Precedes(r + [b], a, b)
  {
    var k :| 0 <= k < |r| && r[k] == a;
    assert (r + [b])[k] == a && (r + [b])[|r|] == b;
  }

  /** The selection keeps the order of the names. */
  lemma {:induction false} SelectedInOrder(names: seq<Name>, s: set<Name>, i: nat, j: nat)
    requires i < j < |names| && names[i] in s && names[j] in s
    ensures Precedes(Selected(names, s), names[i], names[j])
  {
    hide Selected, Precedes;
    var n := |names| - 1;
    var before := Selected(names[..n], s);
    SelectOneMore(names, n, s);
    assert names[..n + 1] == names;
    if j < n {
      SelectedInOrder(names[..n], s, i, j);
      PrecedesInMore(before, if names[n] in s then [names[n]] else [], names[i], names[j]);
    } else {
      assert names[..n][i] == names[i];
      PrecedesLast(before, names[i], names[j]);
    }
  }

  lemma SelectNone(names: seq<Name>, s: set<Name>)
    ensures Selected(names[..0], s) == []
    ensures names[..|names|] == names
  {
  }

  lemma SelectOneMore(names: seq<Name>, i: nat, s: set<Name>)
    requires i < |names|
    ensures Selected(names[..i + 1], s) == Selected(names[..i], s) + (if names[i] in s then [names[i]] else [])
  {
    assert names[..i + 1][..i] == names[..i];
  }

  lemma {:induction false} SelectedIsAll(names: seq<Name>, s: set<Name>)
    requires forall x :: x in s ==> x in names
    requires forall i, j :: 0 <= i < j < |names| ==> names[i] != names[j]
    ensures |Selected(names, s)| == |s|
  {
    if names != [] {
      var rest, last := names[..|names| - 1], names[|names| - 1];
      assert names == rest + [last];
      SelectedIsAll(rest, s - {last});
      SelectedWithout(rest, s, last);
    }
  }

  lemma {:induction false} SelectedWithout(names: seq<Name>, s: set<Name>, x: Name)
    requires x !in names
    ensures Selected(names, s - {x}) == Selected(names, s)
  {
    if names != [] {
      SelectedWithout(names[..|names| - 1], s, x);
    }
  }
}
