/**
 * The dependency-graph builder of dz2/package-parser.js: a depth-bounded
 * walk from the root package.json through node_modules/<name>/package.json,
 * with a visited set per root dependency.  The files it reads are given as
 * data: the root manifest, if there is one, and for every package that has
 * a package.json under node_modules the keys of its "dependencies".
 */
module PackageParser {
  import opened Results
  import opened Dicts

  /** The root package.json: its "name" and the keys of its "dependencies" (none when absent). */
  datatype Manifest = Manifest(name: string, dependencies: seq<string>)

  /** What the parser can read: the root manifest, and the dependency keys of each installed package. */
  datatype Packages = Packages(root: Option<Manifest>, modules: map<string, seq<string>>)

  /** The graph object: package name to the keys of its dependencies, in insertion order. */
  type Graph = seq<(string, seq<string>)>

  /** The Error thrown when the root package.json does not exist. */
  datatype ParseError = ManifestNotFound

  /** maxDepth when the caller gives none. */
  const DEFAULT_MAX_DEPTH := 3

  /** What parseRecursive updates: the shared graph and the visited set of the current root dependency. */
  datatype Walk = Walk(graph: Graph, visited: set<string>)

  // ---------------------------------------------------------------------
  // The walk as functions
  // ---------------------------------------------------------------------

  /** parseRecursive(name, depth, visited). */
  function Visit(pkgs: Packages, maxDepth: int, name: string, depth: int, w: Walk): Walk
    decreases maxDepth + 1 - depth, 0, 0
  {
    if depth > maxDepth || name in w.visited then w
    else
      var marked := w.(visited := w.visited + {name});
      if name !in pkgs.modules then marked
      else
        var deps := pkgs.modules[name];
        VisitAll(pkgs, maxDepth, deps, depth + 1, marked.(graph := Put(marked.graph, name, deps)))
  }

  /** The loop of parseRecursive over the dependency keys, each at the given depth. */
  function VisitAll(pkgs: Packages, maxDepth: int, deps: seq<string>, depth: int, w: Walk): Walk
    decreases maxDepth + 1 - depth, 1, |deps|
  {
    if deps == [] then w
    else VisitAll(pkgs, maxDepth, deps[1..], depth, Visit(pkgs, maxDepth, deps[0], depth, w))
  }

  /** The loop of parseDependencies: each root dependency at depth 1, with a fresh visited set. */
  function Roots(pkgs: Packages, maxDepth: int, deps: seq<string>, graph: Graph): Graph
    decreases |deps|
  {
    if deps == [] then graph
    else Roots(pkgs, maxDepth, deps[1..], Visit(pkgs, maxDepth, deps[0], 1, Walk(graph, {})).graph)
  }

  /** parseDependencies: the root entry first, then what the walks from the root dependencies add. */
  function Dependencies(pkgs: Packages, maxDepth: int): Result<Graph, ParseError>
  {
    match pkgs.root
    case None => Err(ManifestNotFound)
    case Some(m) => Ok(Roots(pkgs, maxDepth, m.dependencies, Put([], m.name, m.dependencies)))
  }

  // ---------------------------------------------------------------------
  // The walk as the source performs it
  // ---------------------------------------------------------------------

  /** The closure of parseDependencies: the graph it builds and the visited set it passes down. */
  class DependencyParser {
    const packages: Packages
    const maxDepth: int
    var graph: Graph
    var visited: set<string>

    constructor (packages: Packages, maxDepth: int)
      ensures this.packages == packages && this.maxDepth == maxDepth
      ensures graph == [] && visited == {}
    {
      this.packages := packages;
      this.maxDepth := maxDepth;
      graph := [];
      visited := {};
    }

    /** parseRecursive: enter name unless it is too deep or already visited, then its dependencies. */
    method ParseRecursive(name: string, depth: int)
      modifies this
      decreases maxDepth + 1 - depth, 0
      ensures Walk(graph, visited) == Visit(packages, maxDepth, name, depth, Walk(old(graph), old(visited)))
    {
      if depth > maxDepth || name in visited {
        return;
      }
      visited := visited + {name};
      if name !in packages.modules {
        return;
      }
      var deps := packages.modules[name];
      graph := Put(graph, name, deps);
      ghost var start := Walk(graph, visited);
      var i := 0;
      while i < |deps|
        invariant 0 <= i <= |deps|
        invariant VisitAll(packages, maxDepth, deps, depth + 1, start)
          == VisitAll(packages, maxDepth, deps[i..], depth + 1, Walk(graph, visited))
      {
        assert deps[i..][1..] == deps[i + 1..];
        ParseRecursive(deps[i], depth + 1);
        i := i + 1;
      }
    }
  }

  /** parseDependencies(packageDir, maxDepth = 3). */
  method ParseDependencies(packages: Packages, maxDepth: int := DEFAULT_MAX_DEPTH) returns (r: Result<Graph, ParseError>)
    ensures r == Dependencies(packages, maxDepth)
  {
    if packages.root.None? {
      return Err(ManifestNotFound);
    }
    var root := packages.root.value;
    var parser := new DependencyParser(packages, maxDepth);
    parser.graph := Put(parser.graph, root.name, root.dependencies);
    var deps := root.dependencies;
    var i := 0;
    while i < |deps|
      invariant 0 <= i <= |deps|
      invariant parser.packages == packages && parser.maxDepth == maxDepth
      invariant Roots(packages, maxDepth, deps, Put([], root.name, deps)) == Roots(packages, maxDepth, deps[i..], parser.graph)
    {
      assert deps[i..][1..] == deps[i + 1..];
      parser.visited := {};
      parser.ParseRecursive(deps[i], 1);
      i := i + 1;
    }
    return Ok(parser.graph);
  }

  // ---------------------------------------------------------------------
  // What the walk guarantees
  // ---------------------------------------------------------------------

  /** An entry written for an installed package: its name and its dependency keys. */
  predicate ModuleEntry(pkgs: Packages, e: (string, seq<string>))
  {
    e.0 in pkgs.modules && e.1 == pkgs.modules[e.0]
  }

  /**
   * g2 is g after more writes of module entries: keys keep their places,
   * every entry is an old one or a module entry, keys stay distinct, and
   * names that are not installed read as before.
   */
  ghost predicate Grows(pkgs: Packages, g: Graph, g2: Graph)
  {
    && |g| <= |g2|
    && Keys(g2)[..|g|] == Keys(g)
    && (forall i :: 0 <= i < |g2| ==> (i < |g| && g2[i] == g[i]) || ModuleEntry(pkgs, g2[i]))
    && (forall k :: k !in pkgs.modules ==> Lookup(g2, k) == Lookup(g, k))
    && (DistinctKeys(g) ==> DistinctKeys(g2))
  }

  lemma GrowsTrans(pkgs: Packages, g1: Graph, g2: Graph, g3: Graph)
    requires Grows(pkgs, g1, g2) && Grows(pkgs, g2, g3)
    ensures Grows(pkgs, g1, g3)
  {
    assert Keys(g3)[..|g1|] == Keys(g3)[..|g2|][..|g1|];
  }

  /** graph[name] = its dependency keys, for an installed package. */
  lemma PutGrows(pkgs: Packages, g: Graph, name: string)
    requires name in pkgs.modules && DistinctKeys(g)
    ensures Grows(pkgs, g, Put(g, name, pkgs.modules[name]))
  {
    var deps := pkgs.modules[name];
    var g2 := Put(g, name, deps);
    PutAt(g, name, deps);
    PutKeys(g, name, deps);
    PutDistinct(g, name, deps);
    forall k | k !in pkgs.modules
      ensures Lookup(g2, k) == Lookup(g, k)
    {
      PutLookup(g, name, deps, k);
    }
  }

  /** The walk from one name only adds module entries and marks names visited. */
  lemma {:induction false} VisitGrows(pkgs: Packages, maxDepth: int, name: string, depth: int, w: Walk)
    requires DistinctKeys(w.graph)
    ensures var w2 := Visit(pkgs, maxDepth, name, depth, w);
      Grows(pkgs, w.graph, w2.graph) && w.visited <= w2.visited
    decreases maxDepth + 1 - depth, 0, 0
  {
    if !(depth > maxDepth || name in w.visited) && name in pkgs.modules {
      var deps := pkgs.modules[name];
      var w1 := Walk(Put(w.graph, name, deps), w.visited + {name});
      PutGrows(pkgs, w.graph, name);
      VisitAllGrows(pkgs, maxDepth, deps, depth + 1, w1);
      GrowsTrans(pkgs, w.graph, w1.graph, VisitAll(pkgs, maxDepth, deps, depth + 1, w1).graph);
    }
  }

  lemma {:induction false} VisitAllGrows(pkgs: Packages, maxDepth: int, deps: seq<string>, depth: int, w: Walk)
    requires DistinctKeys(w.graph)
    ensures var w2 := VisitAll(pkgs, maxDepth, deps, depth, w);
      Grows(pkgs, w.graph, w2.graph) && w.visited <= w2.visited
    decreases maxDepth + 1 - depth, 1, |deps|
  {
    if deps != [] {
      var w1 := Visit(pkgs, maxDepth, deps[0], depth, w);
      VisitGrows(pkgs, maxDepth, deps[0], depth, w);
      VisitAllGrows(pkgs, maxDepth, deps[1..], depth, w1);
      GrowsTrans(pkgs, w.graph, w1.graph, VisitAll(pkgs, maxDepth, deps[1..], depth, w1).graph);
    }
  }

  lemma {:induction false} RootsGrows(pkgs: Packages, maxDepth: int, deps: seq<string>, graph: Graph)
    requires DistinctKeys(graph)
    ensures Grows(pkgs, graph, Roots(pkgs, maxDepth, deps, graph))
    decreases |deps|
  {
    if deps != [] {
      var g1 := Visit(pkgs, maxDepth, deps[0], 1, Walk(graph, {})).graph;
      VisitGrows(pkgs, maxDepth, deps[0], 1, Walk(graph, {}));
      RootsGrows(pkgs, maxDepth, deps[1..], g1);
      GrowsTrans(pkgs, graph, g1, Roots(pkgs, maxDepth, deps[1..], g1));
    }
  }

  /**
   * parseDependencies throws exactly when the root package.json is missing.
   * Otherwise the root's entry comes first, no key appears twice, every
   * entry is the root's or an installed package's own dependency keys, and
   * the root's entry keeps the root's dependency keys unless an installed
   * package of the same name overwrites it.
   */
  lemma DependenciesShape(pkgs: Packages, maxDepth: int)
    ensures Dependencies(pkgs, maxDepth).Err? <==> pkgs.root.None?
    ensures pkgs.root.Some? ==>
      var m, g := pkgs.root.value, Dependencies(pkgs, maxDepth).value;
      && g != [] && g[0].0 == m.name
      && DistinctKeys(g)
      && (forall i :: 0 <= i < |g| ==> g[i] == (m.name, m.dependencies) || ModuleEntry(pkgs, g[i]))
      && (m.name !in pkgs.modules ==> Lookup(g, m.name) == Some(m.dependencies))
  {
    if pkgs.root.Some? {
      var m := pkgs.root.value;
      var g0 := Put([], m.name, m.dependencies);
      assert g0 == [(m.name, m.dependencies)];
      RootsGrows(pkgs, maxDepth, m.dependencies, g0);
      var g := Roots(pkgs, maxDepth, m.dependencies, g0);
      assert Keys(g)[..1] == Keys(g0);
    }
  }

  /** With maxDepth below 1 no root dependency is entered: the graph is the root entry alone. */
  lemma ShallowGraph(pkgs: Packages, maxDepth: int)
    requires pkgs.root.Some? && maxDepth < 1
    ensures Dependencies(pkgs, maxDepth) == Ok([(pkgs.root.value.name, pkgs.root.value.dependencies)])
  {
    var m := pkgs.root.value;
    RootsShallow(pkgs, maxDepth, m.dependencies, Put([], m.name, m.dependencies));
  }

  lemma {:induction false} RootsShallow(pkgs: Packages, maxDepth: int, deps: seq<string>, graph: Graph)
    requires maxDepth < 1
    ensures Roots(pkgs, maxDepth, deps, graph) == graph
    decreases |deps|
  {
    if deps != [] {
      RootsShallow(pkgs, maxDepth, deps[1..], graph);
    }
  }

  /** A name without a package.json under node_modules is marked visited and adds no entry. */
  lemma MissingPackage(pkgs: Packages, maxDepth: int, name: string, depth: int, w: Walk)
    requires depth <= maxDepth && name !in w.visited && name !in pkgs.modules
    ensures Visit(pkgs, maxDepth, name, depth, w) == Walk(w.graph, w.visited + {name})
  {
  }

  // ---------------------------------------------------------------------
  // Each name is entered at most once per root dependency
  // ---------------------------------------------------------------------

  /** The names parseRecursive enters (passes its depth and visited check for), in order. */
  function Entered(pkgs: Packages, maxDepth: int, name: string, depth: int, w: Walk): seq<string>
    decreases maxDepth + 1 - depth, 0, 0
  {
    if depth > maxDepth || name in w.visited then []
    else if name !in pkgs.modules then [name]
    else
      var deps := pkgs.modules[name];
      [name] + EnteredAll(pkgs, maxDepth, deps, depth + 1, Walk(Put(w.graph, name, deps), w.visited + {name}))
  }

  function EnteredAll(pkgs: Packages, maxDepth: int, deps: seq<string>, depth: int, w: Walk): seq<string>
    decreases maxDepth + 1 - depth, 1, |deps|
  {
    if deps == [] then []
    else
      Entered(pkgs, maxDepth, deps[0], depth, w)
      + EnteredAll(pkgs, maxDepth, deps[1..], depth, Visit(pkgs, maxDepth, deps[0], depth, w))
  }

  predicate NoDuplicates(s: seq<string>)
  {
    forall i, j :: 0 <= i < j < |s| ==> s[i] != s[j]
  }

  /**
   * The names entered are exactly the names the walk adds to visited, and
   * none is entered twice: the check of visited comes before every entry
   * and the name is added right after it.
   */
  lemma {:induction false} EnteredOnce(pkgs: Packages, maxDepth: int, name: string, depth: int, w: Walk)
    ensures var t, w2 := Entered(pkgs, maxDepth, name, depth, w), Visit(pkgs, maxDepth, name, depth, w);
      NoDuplicates(t) && w.visited <= w2.visited && (forall x :: x in t <==> x in w2.visited && x !in w.visited)
    decreases maxDepth + 1 - depth, 0, 0
  {
    if !(depth > maxDepth || name in w.visited) && name in pkgs.modules {
      var deps := pkgs.modules[name];
      var w1 := Walk(Put(w.graph, name, deps), w.visited + {name});
      EnteredAllOnce(pkgs, maxDepth, deps, depth + 1, w1);
      var rest := EnteredAll(pkgs, maxDepth, deps, depth + 1, w1);
      assert name !in rest;
      var t := [name] + rest;
      forall i, j | 0 <= i < j < |t|
        ensures t[i] != t[j]
      {
        if i > 0 {
          assert t[i] == rest[i - 1] && t[j] == rest[j - 1];
        } else {
          assert t[j] in rest;
        }
      }
    }
  }

  lemma {:induction false} EnteredAllOnce(pkgs: Packages, maxDepth: int, deps: seq<string>, depth: int, w: Walk)
    ensures var t, w2 := EnteredAll(pkgs, maxDepth, deps, depth, w), VisitAll(pkgs, maxDepth, deps, depth, w);
      NoDuplicates(t) && w.visited <= w2.visited && (forall x :: x in t <==> x in w2.visited && x !in w.visited)
    decreases maxDepth + 1 - depth, 1, |deps|
  {
    if deps != [] {
      var w1 := Visit(pkgs, maxDepth, deps[0], depth, w);
      EnteredOnce(pkgs, maxDepth, deps[0], depth, w);
      EnteredAllOnce(pkgs, maxDepth, deps[1..], depth, w1);
      var t1, t2 := Entered(pkgs, maxDepth, deps[0], depth, w), EnteredAll(pkgs, maxDepth, deps[1..], depth, w1);
      var t := t1 + t2;
      forall i, j | 0 <= i < j < |t|
        ensures t[i] != t[j]
      {
        if j < |t1| {
          assert t[i] == t1[i] && t[j] == t1[j];
        } else if i >= |t1| {
          assert t[i] == t2[i - |t1|] && t[j] == t2[j - |t1|];
        } else {
          assert t[i] == t1[i] && t[j] == t2[j - |t1|];
          assert t[i] in t1 && t[j] in t2;
        }
      }
    }
  }

  // ---------------------------------------------------------------------
  // What the depth bound promises
  // ---------------------------------------------------------------------

  /** x is reached from an installed package by following at most n dependency edges between installed packages. */
  ghost predicate Reach(pkgs: Packages, from: string, x: string, n: nat)
    decreases n
  {
    x == from || (n > 0 && from in pkgs.modules && exists d :: d in pkgs.modules[from] && Reach(pkgs, d, x, n - 1))
  }

  /** Every name the walk from name enters lies within maxDepth - depth edges of name, and depth is within the bound. */
  lemma {:induction false} EnteredReach(pkgs: Packages, maxDepth: int, name: string, depth: int, w: Walk)
    ensures forall x :: x in Entered(pkgs, maxDepth, name, depth, w) ==>
      depth <= maxDepth && Reach(pkgs, name, x, maxDepth - depth)
    decreases maxDepth + 1 - depth, 0, 0
  {
    if !(depth > maxDepth || name in w.visited) && name in pkgs.modules {
      var deps := pkgs.modules[name];
      var w1 := Walk(Put(w.graph, name, deps), w.visited + {name});
      var next := depth + 1;
      EnteredAllReach(pkgs, maxDepth, deps, next, w1);
      forall x | x in EnteredAll(pkgs, maxDepth, deps, next, w1)
        ensures Reach(pkgs, name, x, maxDepth - depth)
      {
        var d :| d in deps && Reach(pkgs, d, x, maxDepth - next);
      }
    }
  }

  lemma {:induction false} EnteredAllReach(pkgs: Packages, maxDepth: int, deps: seq<string>, depth: int, w: Walk)
    ensures forall x :: x in EnteredAll(pkgs, maxDepth, deps, depth, w) ==>
      depth <= maxDepth && exists d :: d in deps && Reach(pkgs, d, x, maxDepth - depth)
    decreases maxDepth + 1 - depth, 1, |deps|
  {
    if deps != [] {
      var w1 := Visit(pkgs, maxDepth, deps[0], depth, w);
      EnteredReach(pkgs, maxDepth, deps[0], depth, w);
      EnteredAllReach(pkgs, maxDepth, deps[1..], depth, w1);
      forall x | x in EnteredAll(pkgs, maxDepth, deps, depth, w)
        ensures depth <= maxDepth && exists d :: d in deps && Reach(pkgs, d, x, maxDepth - depth)
      {
        if x in Entered(pkgs, maxDepth, deps[0], depth, w) {
          assert deps[0] in deps;
        } else {
          assert x in EnteredAll(pkgs, maxDepth, deps[1..], depth, w1);
          var d :| d in deps[1..] && Reach(pkgs, d, x, maxDepth - depth);
          assert d in deps;
        }
      }
    }
  }

  /** The walk from name writes keys only for the names it enters. */
  lemma {:induction false} VisitKeys(pkgs: Packages, maxDepth: int, name: string, depth: int, w: Walk)
    ensures forall k :: k in Keys(Visit(pkgs, maxDepth, name, depth, w).graph) ==>
      k in Keys(w.graph) || k in Entered(pkgs, maxDepth, name, depth, w)
    decreases maxDepth + 1 - depth, 0, 0
  {
    if !(depth > maxDepth || name in w.visited) && name in pkgs.modules {
      var deps := pkgs.modules[name];
      var w1 := Walk(Put(w.graph, name, deps), w.visited + {name});
      PutKeys(w.graph, name, deps);
      VisitAllKeys(pkgs, maxDepth, deps, depth + 1, w1);
    }
  }

  lemma {:induction false} VisitAllKeys(pkgs: Packages, maxDepth: int, deps: seq<string>, depth: int, w: Walk)
    ensures forall k :: k in Keys(VisitAll(pkgs, maxDepth, deps, depth, w).graph) ==>
      k in Keys(w.graph) || k in EnteredAll(pkgs, maxDepth, deps, depth, w)
    decreases maxDepth + 1 - depth, 1, |deps|
  {
    if deps != [] {
      var w1 := Visit(pkgs, maxDepth, deps[0], depth, w);
      VisitKeys(pkgs, maxDepth, deps[0], depth, w);
      VisitAllKeys(pkgs, maxDepth, deps[1..], depth, w1);
    }
  }

  /** The root loop adds only keys within maxDepth - 1 edges of some root dependency. */
  lemma {:induction false} RootsReach(pkgs: Packages, maxDepth: int, deps: seq<string>, graph: Graph)
    ensures forall k :: k in Keys(Roots(pkgs, maxDepth, deps, graph)) ==>
      k in Keys(graph) || (1 <= maxDepth && exists d :: d in deps && Reach(pkgs, d, k, maxDepth - 1))
    decreases |deps|
  {
    if deps != [] {
      var w0 := Walk(graph, {});
      var g1 := Visit(pkgs, maxDepth, deps[0], 1, w0).graph;
      VisitKeys(pkgs, maxDepth, deps[0], 1, w0);
      EnteredReach(pkgs, maxDepth, deps[0], 1, w0);
      RootsReach(pkgs, maxDepth, deps[1..], g1);
      forall k | k in Keys(Roots(pkgs, maxDepth, deps, graph)) && k !in Keys(graph)
        ensures 1 <= maxDepth && exists d :: d in deps && Reach(pkgs, d, k, maxDepth - 1)
      {
        if k in Keys(g1) {
          assert deps[0] in deps;
        } else {
          var d :| d in deps[1..] && Reach(pkgs, d, k, maxDepth - 1);
          assert d in deps;
        }
      }
    }
  }

  /**
   * The depth bound: every key of the graph other than the root's name is
   * an installed package that lies within maxDepth - 1 dependency edges of
   * one of the root's dependencies, that is, at depth at most maxDepth.
   */
  lemma DependenciesWithinDepth(pkgs: Packages, maxDepth: int)
    ensures pkgs.root.Some? ==>
      var m, g := pkgs.root.value, Dependencies(pkgs, maxDepth).value;
      forall k :: k in Keys(g) && k != m.name ==>
        k in pkgs.modules && 1 <= maxDepth && exists d :: d in m.dependencies && Reach(pkgs, d, k, maxDepth - 1)
  {
    if pkgs.root.Some? {
      var m := pkgs.root.value;
      var g0 := Put([], m.name, m.dependencies);
      assert g0 == [(m.name, m.dependencies)];
      DependenciesShape(pkgs, maxDepth);
      RootsReach(pkgs, maxDepth, m.dependencies, g0);
      var g := Dependencies(pkgs, maxDepth).value;
      forall k | k in Keys(g) && k != m.name
        ensures k in pkgs.modules
      {
        var i :| 0 <= i < |g| && Keys(g)[i] == k;
        assert g[i].0 == k;
      }
    }
  }
}
