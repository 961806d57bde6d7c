/** Directed graphs: an edge leads from a node to a node it needs. Paths, strict
    reachability, cycles, topological orders and depth-first search bookkeeping,
    shared by the CI policy check and the critical-path analysis. */
module Digraph {

  type Graph<!N> = imap<N, iset<N>>

  /** The graph given by adjacency lists. */
  ghost function Relation<N(!new)>(lists: map<N, seq<N>>): Graph<N> {
    imap n | n in lists :: iset m | m in lists[n]
  }

  /** Every needed name is itself a node. */
  ghost predicate Closed<N>(g: Graph<N>) {
    forall n, m :: n in g && m in g[n] ==> m in g
  }

  /** A non-empty walk along edges, first node first. */
  ghost predicate IsPath<N>(g: Graph<N>, p: seq<N>): (r: bool)
    ensures r ==> forall i :: 0 <= i < |p| ==> p[i] in g
  {
    && |p| > 0
    && p[0] in g
    && (|p| > 1 ==> p[1] in g[p[0]] && IsPath(g, p[1..]))
  }

  /** `p` is a path from `a` to `b` with at least one edge. */
  ghost predicate Connects<N>(g: Graph<N>, p: seq<N>, a: N, b: N) {
    |p| > 1 && IsPath(g, p) && p[0] == a && p[|p| - 1] == b
  }

  /** Strict reachability: one edge or more. */
  ghost predicate Reaches<N(!new)>(g: Graph<N>, a: N, b: N) {
    exists p :: Connects(g, p, a, b)
  }

  ghost predicate HasCycle<N(!new)>(g: Graph<N>) {
    exists n :: Reaches(g, n, n)
  }

  ghost predicate Distinct<N>(s: seq<N>) {
    forall i, j :: 0 <= i < j < |s| ==> s[i] != s[j]
  }

  /** Each node's needs stand before it. */
  ghost predicate NeedsEarlier<N(!new)>(g: Graph<N>, order: seq<N>) {
    forall i, m :: 0 <= i < |order| && order[i] in g && m in g[order[i]] ==> m in order[..i]
  }

  /** A listing of every node exactly once, needs first. */
  ghost predicate TopologicalOrder<N(!new)>(g: Graph<N>, order: seq<N>) {
    Distinct(order) && (forall n :: n in g <==> n in order) && NeedsEarlier(g, order)
  }

  // ----- paths

  lemma {:induction false} PathDrop<N>(g: Graph<N>, p: seq<N>, i: nat)
    requires IsPath(g, p) && i < |p|
    ensures IsPath(g, p[i..])
  {
    if i > 0 {
      PathDrop(g, p[1..], i - 1);
      assert p[1..][i - 1..] == p[i..];
    } else {
      assert p[0..] == p;
    }
  }

  lemma {:induction false} PathJoin<N>(g: Graph<N>, p: seq<N>, q: seq<N>)
    requires IsPath(g, p) && IsPath(g, q) && q[0] in g[p[|p| - 1]]
    ensures IsPath(g, p + q)
  {
    if |p| > 1 {
      PathJoin(g, p[1..], q);
      assert (p + q)[1..] == p[1..] + q;
    } else {
      assert (p + q)[1..] == q;
    }
  }

  lemma {:induction false} PathSnoc<N>(g: Graph<N>, p: seq<N>, n: N)
    requires IsPath(g, p) && n in g && n in g[p[|p| - 1]]
    ensures IsPath(g, p + [n])
  {
    PathJoin(g, p, [n]);
  }

  lemma {:induction false} EdgeReaches<N(!new)>(g: Graph<N>, a: N, b: N)
    requires a in g && b in g && b in g[a]
    ensures Reaches(g, a, b)
  {
    assert IsPath(g, [a, b][1..]);
    assert Connects(g, [a, b], a, b);
  }

  lemma {:induction false} ReachesTransitive<N(!new)>(g: Graph<N>, a: N, b: N, c: N)
    requires Reaches(g, a, b) && Reaches(g, b, c)
    ensures Reaches(g, a, c)
  {
    var p :| Connects(g, p, a, b);
    var q :| Connects(g, q, b, c);
    PathJoin(g, p, q[1..]);
    assert Connects(g, p + q[1..], a, c);
  }

  // ----- topological orders exclude cycles

  function IndexOf<N(==)>(order: seq<N>, n: N): (i: nat)
    requires n in order
    ensures i < |order| && order[i] == n && forall j :: 0 <= j < i ==> order[j] != n
  {
    if order[0] == n then 0 else 1 + IndexOf(order[1..], n)
  }

  lemma {:induction false} NeedIsEarlier<N(!new)>(g: Graph<N>, order: seq<N>, n: N, m: N)
    requires NeedsEarlier(g, order) && n in order && n in g && m in g[n]
    ensures m in order && IndexOf(order, m) < IndexOf(order, n)
  {
    var i := IndexOf(order, n);
    assert order[i] == n;
    assert m in order[..i];
    var j :| 0 <= j < i && order[..i][j] == m;
    assert order[j] == m;
  }

  lemma {:induction false} OrderDescends<N(!new)>(g: Graph<N>, order: seq<N>, p: seq<N>)
    requires NeedsEarlier(g, order) && IsPath(g, p) && |p| > 1 && p[0] in order
    ensures p[|p| - 1] in order && IndexOf(order, p[|p| - 1]) < IndexOf(order, p[0])
  {
    NeedIsEarlier(g, order, p[0], p[1]);
    if |p| > 2 {
      OrderDescends(g, order, p[1..]);
    }
  }

  lemma {:induction false} OrderExcludesCycle<N(!new)>(g: Graph<N>, order: seq<N>)
    requires TopologicalOrder(g, order)
    ensures !HasCycle(g)
  {
    forall n | Reaches(g, n, n) ensures false {
      var p :| Connects(g, p, n, n);
      OrderDescends(g, order, p);
    }
  }

  // ----- acyclic graphs have ends in both directions

  /** A trail that revisits a node closes a cycle. */
  lemma {:induction false} TrailRepeats<N(!new)>(g: Graph<N>, trail: seq<N>, n: N)
    requires IsPath(g, trail) && n in g && n in g[trail[|trail| - 1]] && n in trail
    ensures HasCycle(g)
  {
    var i :| 0 <= i < |trail| && trail[i] == n;
    PathDrop(g, trail, i);
    PathSnoc(g, trail[i..], n);
    assert Connects(g, trail[i..] + [n], n, n);
    assert Reaches(g, n, n);
  }

  ghost function Elements<N>(s: seq<N>): set<N> {
    set x | x in s
  }

  /** Following needs from the end of a trail arrives at a node that needs nothing. */
  lemma {:induction false} SinkBelow<N(!new)>(g: Graph<N>, nodes: set<N>, trail: seq<N>) returns (p: seq<N>)
    requires Closed(g) && !HasCycle(g) && IsPath(g, trail) && forall n :: n in g ==> n in nodes
    ensures IsPath(g, p) && p[0] == trail[|trail| - 1] && g[p[|p| - 1]] == iset{}
    decreases nodes - Elements(trail)
  {
    var n := trail[|trail| - 1];
    if m :| m in g[n] {
      if m in trail {
        TrailRepeats(g, trail, m);
      }
      PathSnoc(g, trail, m);
      assert m in nodes - Elements(trail) && (trail + [m])[|trail|] == m;
      var rest := SinkBelow(g, nodes, trail + [m]);
      p := [n] + rest;
      assert p[1..] == rest;
    } else {
      p := [n];
    }
  }

  /** Some node needed by nobody leads to the head of the trail. */
  lemma {:induction false} SourceAbove<N(!new)>(g: Graph<N>, nodes: set<N>, trail: seq<N>) returns (p: seq<N>)
    requires Closed(g) && !HasCycle(g) && IsPath(g, trail) && forall n :: n in g ==> n in nodes
    ensures IsPath(g, p) && p[|p| - 1] == trail[0] && forall n :: n in g ==> p[0] !in g[n]
    decreases nodes - Elements(trail)
  {
    var m := trail[0];
    if n :| n in g && m in g[n] {
      var longer := [n] + trail;
      assert longer[1..] == trail;
      if n in trail {
        var i :| 0 <= i < |trail| && trail[i] == n;
        PathPrefix(g, longer, i + 2);
        assert Connects(g, longer[..i + 2], n, n);
        assert Reaches(g, n, n);
      }
      assert n in nodes - Elements(trail) && longer[0] == n;
      assert forall x :: x in trail ==> x in longer;
      var rest := SourceAbove(g, nodes, longer);
      p := rest + [m];
      PathSnoc(g, rest, m);
    } else {
      p := [m];
    }
  }

  lemma {:induction false} PathPrefix<N>(g: Graph<N>, p: seq<N>, n: nat)
    requires IsPath(g, p) && 0 < n <= |p|
    ensures IsPath(g, p[..n])
  {
    if n > 1 {
      PathPrefix(g, p[1..], n - 1);
      assert p[..n][1..] == p[1..][..n - 1];
    }
  }

  // ----- depth-first search bookkeeping

  /** What a depth-first search knows between steps: `trail` is the chain of open
      visits, `order` lists the closed ones, needs first. */
  ghost predicate Searching<N(!new)>(g: Graph<N>, active: set<N>, done: set<N>,
                                     trail: seq<N>, order: seq<N>)
  {
    && Closed(g)
    && active == Elements(trail) && (trail == [] || IsPath(g, trail))
    && done == Elements(order) && (forall n :: n in done ==> n in g)
    && Distinct(order) && NeedsEarlier(g, order)
    && active !! done
  }

  lemma {:induction false} OpenVisit<N(!new)>(g: Graph<N>, active: set<N>, done: set<N>, trail: seq<N>, order: seq<N>, key: N)
    requires Searching(g, active, done, trail, order)
    requires key in g && key !in active && key !in done
    requires trail != [] ==> key in g[trail[|trail| - 1]]
    ensures Searching(g, active + {key}, done, trail + [key], order)
  {
    if trail != [] {
      PathSnoc(g, trail, key);
    }
  }

  lemma {:induction false} CloseVisit<N(!new)>(g: Graph<N>, active: set<N>, done: set<N>, trail: seq<N>, order: seq<N>, key: N)
    requires Searching(g, active, done, trail + [key], order)
    requires key in g && key !in trail && (forall m :: m in g[key] ==> m in done)
    ensures Searching(g, active - {key}, done + {key}, trail, order + [key])
  {
    var longer := order + [key];
    if trail != [] {
      PathPrefix(g, trail + [key], |trail|);
      assert (trail + [key])[..|trail|] == trail;
    }
    assert key in active by {
      assert (trail + [key])[|trail|] == key;
    }
    forall i, m | 0 <= i < |longer| && longer[i] in g && m in g[longer[i]] ensures m in longer[..i] {
      if i < |order| {
        assert longer[..i] == order[..i];
      } else {
        assert longer[..i] == order && m in Elements(order);
      }
    }
    assert active - {key} == Elements(trail);
    assert done + {key} == Elements(longer) by {
      assert longer[|order|] == key;
    }
  }

  /** When every node has been closed the order is topological. */
  lemma {:induction false} SearchComplete<N(!new)>(g: Graph<N>, active: set<N>, done: set<N>, trail: seq<N>, order: seq<N>)
    requires Searching(g, active, done, trail, order) && (forall n :: n in g ==> n in done)
    ensures TopologicalOrder(g, order) && !HasCycle(g)
  {
    assert forall n :: n in g <==> n in Elements(order);
    OrderExcludesCycle(g, order);
  }
}
