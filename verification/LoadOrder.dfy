/**
 The order in which the types of configuration objects are loaded: a depth-first search that
 lists every type after the types it depends on. A number stands for a type.
 */
module LoadOrder {

  /** The load dependencies of every type, in any order. */
  type Graph = map<nat, seq<nat>>

  predicate Closed(g: Graph) {
    forall t, d :: t in g && d in g[t] ==> d in g
  }

  /** A path along load dependencies. */
  predicate IsWalk(g: Graph, p: seq<nat>)
    decreases |p|
  {
    p != [] && p[0] in g && (|p| > 1 ==> p[1] in g[p[0]] && IsWalk(g, p[1..]))
  }

  lemma {:induction false} WalkOn(g: Graph, p: seq<nat>, c: nat)
    requires IsWalk(g, p) && p[|p| - 1] in g && c in g && c in g[p[|p| - 1]]
    ensures IsWalk(g, p + [c])
    decreases |p|
  {
    if |p| > 1 {
      assert (p + [c])[1..] == p[1..] + [c];
      WalkOn(g, p[1..], c);
    } else {
      assert (p + [c])[1..] == [c];
    }
  }

  lemma {:induction false} WalkBefore(g: Graph, p: seq<nat>, c: nat)
    requires p != [] && IsWalk(g, p + [c])
    ensures IsWalk(g, p) && p[|p| - 1] in g && c in g[p[|p| - 1]]
    decreases |p|
  {
    assert (p + [c])[1..] == p[1..] + [c];
    if |p| > 1 {
      WalkBefore(g, p[1..], c);
    }
  }

  predicate WalksTo(g: Graph, p: seq<nat>, a: nat, b: nat) {
    IsWalk(g, p) && p[0] == a && p[|p| - 1] == b
  }

  /** `b` is `a` itself or a dependency, direct or not. */
  ghost predicate Reaches(g: Graph, a: nat, b: nat) {
    exists p :: WalksTo(g, p, a, b)
  }

  lemma ReachesItself(g: Graph, a: nat)
    requires a in g
    ensures Reaches(g, a, a)
  {
    assert WalksTo(g, [a], a, a);
  }

  lemma ReachesVia(g: Graph, a: nat, b: nat, c: nat)
    requires a in g && b in g[a] && Reaches(g, b, c)
    ensures Reaches(g, a, c)
  {
    var p :| WalksTo(g, p, b, c);
    assert ([a] + p)[1..] == p;
    assert WalksTo(g, [a] + p, a, c);
  }

  /** Every type on a path reaches the last one. */
  lemma {:induction false} OnTheWay(g: Graph, p: seq<nat>, i: nat)
    requires IsWalk(g, p) && i < |p|
    ensures Reaches(g, p[i], p[|p| - 1])
    decreases |p|
  {
    if i == 0 {
      assert WalksTo(g, p, p[0], p[|p| - 1]);
    } else {
      OnTheWay(g, p[1..], i - 1);
    }
  }

  predicate Distinct(s: seq<nat>) {
    forall i, j :: 0 <= i < j < |s| ==> s[i] != s[j]
  }

  /** Every dependency comes first, unless it depends on its dependant itself. */
  ghost predicate FirstOrCyclic(g: Graph, sorted: seq<nat>) {
    forall i, d :: 0 <= i < |sorted| && sorted[i] in g && d in g[sorted[i]] ==>
      d in sorted[..i] || Reaches(g, d, sorted[i])
  }

  /** The state of the search: `stack` are the types whose dependencies are being visited. */
  ghost predicate SearchInv(g: Graph, visited: set<nat>, sorted: seq<nat>, stack: seq<nat>) {
    && Closed(g) && visited <= g.Keys
    && (forall t :: t in visited <==> t in sorted || t in stack)
    && (forall t :: t in sorted ==> t !in stack)
    && (stack == [] || IsWalk(g, stack)) && Distinct(stack)
    && Distinct(sorted) && FirstOrCyclic(g, sorted)
    && forall t, d :: t in sorted && d in g[t] ==> d in visited
  }

  lemma Push(g: Graph, visited: set<nat>, sorted: seq<nat>, stack: seq<nat>, t: nat)
    requires SearchInv(g, visited, sorted, stack) && t in g && t !in visited
    requires stack != [] ==> stack[|stack| - 1] in g && t in g[stack[|stack| - 1]]
    ensures SearchInv(g, visited + {t}, sorted, stack + [t])
  {
    hide FirstOrCyclic;
    if stack != [] {
      WalkOn(g, stack, t);
    }
  }

  lemma PopOrder(g: Graph, visited: set<nat>, sorted: seq<nat>, stack: seq<nat>, t: nat)
    requires SearchInv(g, visited, sorted, stack + [t])
    requires forall d :: d in g[t] ==> d in visited
    ensures FirstOrCyclic(g, sorted + [t])
  {
    hide IsWalk, Reaches;
    var path, u := stack + [t], sorted + [t];
    forall i, d | 0 <= i < |u| && u[i] in g && d in g[u[i]] ensures d in u[..i] || Reaches(g, d, u[i]) {
      if i < |sorted| {
        assert u[..i] == sorted[..i];
      } else if d in path {
        var k :| 0 <= k < |path| && path[k] == d;
        OnTheWay(g, path, k);
      } else {
        assert u[..i] == sorted;
      }
    }
  }

  lemma PopStack(g: Graph, stack: seq<nat>, t: nat)
    requires IsWalk(g, stack + [t]) && Distinct(stack + [t])
    ensures (stack == [] || IsWalk(g, stack)) && Distinct(stack) && t !in stack
  {
    hide IsWalk;
    var path := stack + [t];
    if stack != [] {
      WalkBefore(g, stack, t);
    }
    forall k | 0 <= k < |stack| ensures stack[k] != t {
      assert path[k] != path[|stack|];
    }
    forall i, j | 0 <= i < j < |stack| ensures stack[i] != stack[j] {
      assert path[i] != path[j];
    }
  }

  lemma Pop(g: Graph, visited: set<nat>, sorted: seq<nat>, stack: seq<nat>, t: nat)
    requires SearchInv(g, visited, sorted, stack + [t])
    requires forall d :: d in g[t] ==> d in visited
    ensures SearchInv(g, visited, sorted + [t], stack)
  {
    hide FirstOrCyclic, IsWalk;
    PopOrder(g, visited, sorted, stack, t);
    PopStack(g, stack, t);
    assert t in stack + [t];
    assert t !in sorted;
    forall i | 0 <= i < |sorted| ensures sorted[i] != t {
      assert sorted[i] in sorted;
    }
  }

  lemma FewerUnvisited(all: set<nat>, before: set<nat>, after: set<nat>, t: nat)
    requires before <= after && t in all && t !in before && t in after
    ensures |all - after| < |all - before|
  {
    assert all - after <= (all - before) - {t};
    Subset(all - after, (all - before) - {t});
  }

  lemma {:induction false} Subset(a: set<nat>, b: set<nat>)
    requires a <= b
    ensures |a| <= |b|
    decreases |a|
  {
    if a != {} {
      var x :| x in a;
      Subset(a - {x}, b - {x});
    }
  }

  /** All that has been visited since is a dependency of `t`, direct or not. */
  ghost predicate NewlyReached(g: Graph, t: nat, before: set<nat>, after: set<nat>) {
    forall u :: u in after && u !in before ==> Reaches(g, t, u)
  }

  lemma NothingReached(g: Graph, t: nat, visited: set<nat>)
    requires t in g
    ensures NewlyReached(g, t, visited, visited) && NewlyReached(g, t, visited, visited + {t})
  {
    ReachesItself(g, t);
  }

  lemma ReachedVia(g: Graph, t: nat, d: nat, start: set<nat>, before: set<nat>, after: set<nat>)
    requires t in g && d in g[t]
    requires NewlyReached(g, t, start, before) && NewlyReached(g, d, before, after)
    ensures NewlyReached(g, t, start, after)
  {
    forall u | u in after && u !in start ensures Reaches(g, t, u) {
      if u !in before {
        ReachesVia(g, t, d, u);
      }
    }
  }

  lemma DependencyIsType(g: Graph, visited: set<nat>, sorted: seq<nat>, stack: seq<nat>, t: nat, d: nat)
    requires SearchInv(g, visited, sorted, stack) && t in g && d in g[t]
    ensures d in g
  {
  }

  class Sorter {
    const graph: Graph
    var visited: set<nat>
    var sorted: seq<nat>

    constructor (graph: Graph)
      requires Closed(graph)
      ensures this.graph == graph && Inv([]) && sorted == []
    {
      this.graph, visited, sorted := graph, {}, [];
    }

    ghost predicate Inv(stack: seq<nat>)
      reads this
    {
      SearchInv(graph, visited, sorted, stack)
    }

    method Visit(t: nat, ghost stack: seq<nat>)
      requires Inv(stack) && t in graph
      requires stack != [] ==> stack[|stack| - 1] in graph && t in graph[stack[|stack| - 1]]
      modifies this
      ensures Inv(stack) && t in visited
      ensures old(visited) <= visited && old(sorted) <= sorted
      ensures NewlyReached(graph, t, old(visited), visited)
      decreases |graph.Keys - visited|
    {
      hide SearchInv, NewlyReached, Closed;
      NothingReached(graph, t, visited);
      if t in visited {
        return;
      }
      Push(graph, visited, sorted, stack, t);
      visited := visited + {t};
      ghost var path := stack + [t];
      var dependencies := graph[t];
      for i := 0 to |dependencies|
        invariant Inv(path) && t in visited
        invariant old(visited) <= visited && old(sorted) <= sorted
        invariant NewlyReached(graph, t, old(visited), visited)
        invariant forall j :: 0 <= j < i ==> dependencies[j] in visited
      {
        var d := dependencies[i];
        DependencyIsType(graph, visited, sorted, path, t, d);
        FewerUnvisited(graph.Keys, old(visited), visited, t);
        ghost var before := visited;
        Visit(d, path);
        ReachedVia(graph, t, d, old(visited), before, visited);
      }
      Pop(graph, visited, sorted, stack, t);
      sorted := sorted + [t];
    }
  }

  /** The types to load, in order: those of the given types that are types of configuration
      objects, and whatever they depend on. */
  method SortByLoadDependencies(graph: Graph, types: seq<nat>, configTypes: set<nat>) returns (sorted: seq<nat>)
    requires Closed(graph) && forall i :: 0 <= i < |types| ==> types[i] in graph
    ensures Distinct(sorted)
    ensures forall t :: t in sorted <==> exists r :: r in types && r in configTypes && Reaches(graph, r, t)
    ensures FirstOrCyclic(graph, sorted)
  {
    hide Reaches, FirstOrCyclic;
    var sorter := new Sorter(graph);
    for i := 0 to |types|
      invariant sorter.Inv([]) && sorter.graph == graph && fresh(sorter)
      invariant forall j :: 0 <= j < i && types[j] in configTypes ==> types[j] in sorter.visited
      invariant forall u :: u in sorter.visited ==> exists r :: r in types && r in configTypes && Reaches(graph, r, u)
    {
      if types[i] in configTypes {
        assert types[i] in types;
        sorter.Visit(types[i], []);
      }
    }
    sorted := sorter.sorted;
    forall r, t | r in types && r in configTypes && Reaches(graph, r, t) ensures t in sorted {
      AllReached(graph, sorter.visited, sorted, r, t);
    }
  }

  lemma AllReached(g: Graph, visited: set<nat>, sorted: seq<nat>, r: nat, t: nat)
    requires SearchInv(g, visited, sorted, []) && r in visited && Reaches(g, r, t)
    ensures t in sorted
  {
    var p :| WalksTo(g, p, r, t);
    ClosedUnderWalks(g, visited, sorted, p);
  }

  lemma {:induction false} ClosedUnderWalks(g: Graph, visited: set<nat>, sorted: seq<nat>, p: seq<nat>)
    requires SearchInv(g, visited, sorted, []) && IsWalk(g, p) && p[0] in visited
    ensures p[|p| - 1] in sorted
    decreases |p|
  {
    hide FirstOrCyclic;
    if |p| > 1 {
      ClosedUnderWalks(g, visited, sorted, p[1..]);
    }
  }

  // ---- topological order ----

  /** Every dependency comes before its dependant. */
  predicate Topological(g: Graph, sorted: seq<nat>) {
    forall i, d :: 0 <= i < |sorted| && sorted[i] in g && d in g[sorted[i]] ==> d in sorted[..i]
  }

  /** No listed type depends on itself, directly or not. */
  ghost predicate NoCycle(g: Graph, sorted: seq<nat>) {
    forall t, d :: t in sorted && t in g && d in g[t] ==> !Reaches(g, d, t)
  }

  /** The order is topological exactly if there is no cycle among the types listed. */
  lemma TopologicalIffNoCycle(g: Graph, sorted: seq<nat>)
    requires Closed(g) && FirstOrCyclic(g, sorted) && Distinct(sorted)
    ensures Topological(g, sorted) <==> NoCycle(g, sorted)
  {
    if Topological(g, sorted) {
      forall t, d | t in sorted && t in g && d in g[t] ensures !Reaches(g, d, t) {
        var i :| 0 <= i < |sorted| && sorted[i] == t;
        assert d in sorted[..i];
        var j :| 0 <= j < i && sorted[j] == d;
        if Reaches(g, d, t) {
          var p :| WalksTo(g, p, d, t);
          WalkDescends(g, sorted, p, j);
          assert false;
        }
      }
    }
    if NoCycle(g, sorted) {
      forall i, d | 0 <= i < |sorted| && sorted[i] in g && d in g[sorted[i]] ensures d in sorted[..i] {
        assert sorted[i] in sorted;
      }
    }
  }

  lemma {:induction false} WalkDescends(g: Graph, sorted: seq<nat>, p: seq<nat>, i: nat)
    requires Topological(g, sorted) && IsWalk(g, p) && i < |sorted| && sorted[i] == p[0]
    ensures p[|p| - 1] in sorted[..i + 1]
    ensures |p| > 1 ==> p[|p| - 1] in sorted[..i]
    decreases |p|
  {
    if |p| == 1 {
      assert sorted[..i + 1][i] == p[0];
    } else {
      assert p[1] in sorted[..i];
      var j :| 0 <= j < i && sorted[j] == p[1];
      WalkDescends(g, sorted, p[1..], j);
      assert forall x :: x in sorted[..j + 1] ==> x in sorted[..i];
    }
  }

  /** In a topological order indirect dependencies come first, too. */
  lemma TransitiveDependenciesFirst(g: Graph, sorted: seq<nat>, i: nat, d: nat)
    requires Topological(g, sorted) && i < |sorted| && sorted[i] != d && Reaches(g, sorted[i], d)
    ensures d in sorted[..i]
  {
    var p :| WalksTo(g, p, sorted[i], d);
    WalkDescends(g, sorted, p, i);
  }
}
