/** scripts/ci/metrics.py: the memoised longest-path search inside `critical_path`,
    which refuses cyclic dependency graphs. */
module CriticalPath {
  import opened Digraph

  /** A flat node is identified by the job keys from the outermost workflow inwards. */
  type Id = seq<string>
  type Seconds = r: real | r >= 0.0

  datatype Node = Node(name: string, weight: Seconds, needs: seq<Id>)

  /** The value memoised per node: total duration and the names along the path. */
  datatype Measure = Measure(duration: Seconds, names: seq<string>)

  datatype Outcome = DependencyCycle | Path(best: Measure)

  ghost function Needs(nodes: map<Id, Node>): Graph<Id> {
    imap id | id in nodes :: iset m | m in nodes[id].needs
  }

  /** Observed execution time along a dependency path. */
  function Cost(nodes: map<Id, Node>, p: seq<Id>): Seconds
    requires forall i :: 0 <= i < |p| ==> p[i] in nodes
  {
    if p == [] then 0.0 else nodes[p[0]].weight + Cost(nodes, p[1..])
  }

  /** Names of the jobs with observed time, in execution order (needs first). */
  function Names(nodes: map<Id, Node>, p: seq<Id>): seq<string>
    requires forall i :: 0 <= i < |p| ==> p[i] in nodes
  {
    if p == [] then []
    else Names(nodes, p[1..]) + (if nodes[p[0]].weight != 0.0 then [nodes[p[0]].name] else [])
  }

  /** A dependency path; it starts at its last job to run. */
  ghost predicate Route(nodes: map<Id, Node>, p: seq<Id>) {
    IsPath(Needs(nodes), p)
  }

  ghost predicate Attains(nodes: map<Id, Node>, p: seq<Id>, m: Measure) {
    Route(nodes, p) && Cost(nodes, p) == m.duration && Names(nodes, p) == m.names
  }

  /** `m` measures a longest route among those starting at `id`. */
  ghost predicate LongestFrom(nodes: map<Id, Node>, id: Id, m: Measure) {
    && (exists p :: Attains(nodes, p, m) && p[0] == id)
    && (forall p :: Route(nodes, p) && p[0] == id ==> Cost(nodes, p) <= m.duration)
  }

  /** `m` measures a longest route of the whole graph. */
  ghost predicate Longest(nodes: map<Id, Node>, m: Measure) {
    && (exists p :: Attains(nodes, p, m))
    && (forall p :: Route(nodes, p) ==> Cost(nodes, p) <= m.duration)
  }

  /** A node without needs is its own longest route. */
  lemma {:induction false} LongestAlone(nodes: map<Id, Node>, id: Id)
    requires id in nodes && nodes[id].needs == []
    ensures LongestFrom(nodes, id, Extend(nodes[id], Measure(0.0, [])))
  {
    assert Names(nodes, [id][1..]) == [] && Cost(nodes, [id][1..]) == 0.0;
    assert Attains(nodes, [id], Extend(nodes[id], Measure(0.0, [])));
    forall p | Route(nodes, p) && p[0] == id ensures Cost(nodes, p) <= nodes[id].weight {
      assert p == [id];
    }
  }

  function Extend(node: Node, m: Measure): Measure {
    Measure(m.duration + node.weight, m.names + if node.weight != 0.0 then [node.name] else [])
  }

  /** Extending the best of all parents gives the best of the node. */
  lemma {:induction false} LongestExtends(nodes: map<Id, Node>, id: Id, parent: Id, memo: map<Id, Measure>)
    requires id in nodes && parent in nodes[id].needs
    requires forall m :: m in nodes[id].needs ==> m in memo && LongestFrom(nodes, m, memo[m])
    requires forall m :: m in nodes[id].needs ==> memo[m].duration <= memo[parent].duration
    ensures LongestFrom(nodes, id, Extend(nodes[id], memo[parent]))
  {
    var best := Extend(nodes[id], memo[parent]);
    var q :| Attains(nodes, q, memo[parent]) && q[0] == parent;
    var longer := [id] + q;
    assert longer[1..] == q;
    assert Attains(nodes, longer, best);
    forall p | Route(nodes, p) && p[0] == id ensures Cost(nodes, p) <= best.duration {
      if |p| > 1 {
        assert Route(nodes, p[1..]) && p[1..][0] == p[1];
        assert Cost(nodes, p[1..]) <= memo[p[1]].duration;
      } else {
        assert p == [id] && Cost(nodes, p[1..]) == 0.0;
      }
    }
  }

  class Search {
    const nodes: map<Id, Node>
    var memo: map<Id, Measure>
    var active: set<Id>
    ghost var trail: seq<Id>
    ghost var order: seq<Id>

    ghost predicate Valid()
      reads this
    {
      && Searching(Needs(nodes), active, memo.Keys, trail, order)
      && forall id :: id in memo ==> LongestFrom(nodes, id, memo[id])
    }

    constructor (nodes: map<Id, Node>)
      requires Closed(Needs(nodes))
      ensures Valid() && this.nodes == nodes && trail == [] && memo == map[]
    {
      this.nodes := nodes;
      memo, active, trail, order := map[], {}, [], [];
    }

    /** Memoised values are never revised. */
    twostate predicate Remembers()
      reads this
    {
      old(memo).Keys <= memo.Keys && forall k :: k in old(memo) ==> memo[k] == old(memo[k])
    }

    /** A returned value is memoised and longest; a refusal has found a cycle. */
    method Visit(id: Id) returns (ok: bool, m: Measure)
      requires Valid() && id in nodes
      requires trail != [] ==> id in nodes[trail[|trail| - 1]].needs
      modifies this
      ensures ok ==> Valid() && trail == old(trail) && Remembers()
      ensures ok ==> id in memo && memo[id] == m
      ensures !ok ==> HasCycle(Needs(nodes))
      decreases nodes.Keys - active, 0
    {
      m := Measure(0.0, []);
      ghost var g := Needs(nodes);
      if id in active {
        TrailRepeats(g, trail, id);
        return false, m;
      }
      if id in memo {
        return true, memo[id];
      }
      ghost var before := trail;
      OpenVisit(g, active, memo.Keys, trail, order, id);
      active, trail := active + {id}, trail + [id];
      ok, m := VisitNeeds(id);
      if !ok {
        return;
      }
      CloseVisit(g, active, memo.Keys, before, order, id);
      m := Extend(nodes[id], m);
      assert memo[id := m].Keys == memo.Keys + {id};
      memo, active, trail, order := memo[id := m], active - {id}, before, order + [id];
    }

    /** The first longest value among the needs of the node being visited. */
    method VisitNeeds(id: Id) returns (ok: bool, m: Measure)
      requires Valid() && id in nodes && trail != [] && trail[|trail| - 1] == id
      modifies this
      ensures ok ==> Valid() && trail == old(trail) && Remembers()
      ensures ok ==> forall k :: k in nodes[id].needs ==> k in memo
      ensures ok ==> LongestFrom(nodes, id, Extend(nodes[id], m))
      ensures !ok ==> HasCycle(Needs(nodes))
      decreases nodes.Keys - active, 1
    {
      m := Measure(0.0, []);
      var needs := nodes[id].needs;
      ghost var parent := id;
      var i := 0;
      while i < |needs|
        invariant 0 <= i <= |needs|
        invariant Valid() && trail == old(trail) && active == old(active) && Remembers()
        invariant forall j :: 0 <= j < i ==> needs[j] in memo && memo[needs[j]].duration <= m.duration
        invariant if i == 0 then m == Measure(0.0, []) else parent in needs && parent in memo && memo[parent] == m
      {
        assert needs[i] in Needs(nodes)[id] && needs[i] in Needs(nodes);
        var visited, value := Visit(needs[i]);
        if !visited {
          return false, m;
        }
        if i == 0 || value.duration > m.duration {
          m := value;
          parent := needs[i];
        }
        i := i + 1;
      }
      if needs == [] {
        LongestAlone(nodes, id);
      } else {
        LongestExtends(nodes, id, parent, memo);
      }
      ok := true;
    }
  }

  /** Refuses exactly the cyclic graphs; otherwise the duration is the maximum over
      every dependency path and the names are those of a path attaining it. */
  method LongestPath(ids: seq<Id>, nodes: map<Id, Node>) returns (r: Outcome)
    requires Closed(Needs(nodes)) && (forall id :: id in ids <==> id in nodes)
    ensures r.DependencyCycle? <==> HasCycle(Needs(nodes))
    ensures r.Path? && ids == [] ==> r.best == Measure(0.0, [])
    ensures r.Path? && ids != [] ==> Longest(nodes, r.best)
    ensures r.Path? ==> forall p :: IsPath(Needs(nodes), p) ==> Cost(nodes, p) <= r.best.duration
  {
    var search := new Search(nodes);
    var best := Measure(0.0, []);
    ghost var top: Id := [];
    var i := 0;
    while i < |ids|
      invariant 0 <= i <= |ids|
      invariant search.Valid() && search.nodes == nodes && search.trail == [] && fresh(search)
      invariant forall j :: 0 <= j < i ==> ids[j] in search.memo && search.memo[ids[j]].duration <= best.duration
      invariant if i == 0 then best == Measure(0.0, []) else top in search.memo && search.memo[top] == best
    {
      var ok, value := search.Visit(ids[i]);
      if !ok {
        return DependencyCycle;
      }
      if i == 0 || value.duration > best.duration {
        best := value;
        top := ids[i];
      }
      i := i + 1;
    }
    SearchComplete(Needs(nodes), search.active, search.memo.Keys, search.trail, search.order);
    forall p | Route(nodes, p) ensures Cost(nodes, p) <= best.duration {
      assert p[0] in ids;
      assert LongestFrom(nodes, p[0], search.memo[p[0]]);
    }
    return Path(best);
  }
}
