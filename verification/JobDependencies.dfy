/** scripts/ci/policy.py: the `dependencies` check, a depth-first search with an
    `active` and a `done` set that must accept exactly the acyclic job graphs. */
module JobDependencies {
  import opened Options
  import opened Digraph

  type Name = string

  /** The `needs` entry of a job as YAML may spell it. */
  datatype Needs = Absent | Single(name: Name) | Many(names: seq<Name>) | Malformed

  /** A YAML mapping: keys in document order, each with its value. */
  datatype Jobs = Jobs(keys: seq<Name>, needs: map<Name, Needs>) {
    ghost predicate Valid() {
      Distinct(keys) && forall k :: k in keys <==> k in needs
    }
  }

  datatype Verdict = Accepted(graph: map<Name, seq<Name>>) | UnknownDependency | CircularDependency

  function Listed(n: Needs): seq<Name> {
    match n
    case Absent => []
    case Single(name) => [name]
    case Many(names) => names
    case Malformed => []
  }

  /** What the entry of `k` names, however it is spelled. */
  ghost predicate Names(jobs: Jobs, k: Name, m: Name) {
    k in jobs.needs && (jobs.needs[k] == Single(m) || (jobs.needs[k].Many? && m in jobs.needs[k].names))
  }

  /** The jobs of the document and what they name, as a relation. */
  ghost function Needed(jobs: Jobs): Graph<Name> {
    imap k | k in jobs.needs :: iset m | Names(jobs, k, m)
  }

  /** Every entry is a name or a list, and every name is a job of the document. */
  ghost predicate NeedsResolve(jobs: Jobs) {
    && (forall k :: k in jobs.needs ==> !jobs.needs[k].Malformed?)
    && (forall k, m :: Names(jobs, k, m) ==> m in jobs.needs)
  }

  /** Adjacency lists that hold exactly what the document names. */
  ghost predicate Spells(jobs: Jobs, graph: map<Name, seq<Name>>) {
    graph.Keys == jobs.needs.Keys && forall k, m :: k in graph ==> (m in graph[k] <==> Names(jobs, k, m))
  }

  lemma {:induction false} SpelledRelation(jobs: Jobs, graph: map<Name, seq<Name>>)
    requires Spells(jobs, graph)
    ensures Relation(graph) == Needed(jobs)
  {
    var a, b := Relation(graph), Needed(jobs);
    forall k | k in graph ensures a[k] == b[k] {
      assert forall m :: m in a[k] <==> m in b[k];
    }
    assert forall k :: k in a <==> k in b;
  }

  lemma {:induction false} ListedNames(jobs: Jobs, k: Name, m: Name)
    requires k in jobs.needs
    ensures m in Listed(jobs.needs[k]) <==> Names(jobs, k, m)
  {
  }

  class Search {
    const graph: map<Name, seq<Name>>
    var active: set<Name>
    var done: set<Name>
    /** The chain of open visits, and the order in which visits closed. */
    ghost var trail: seq<Name>
    ghost var order: seq<Name>

    ghost predicate Valid()
      reads this
    {
      Searching(Relation(graph), active, done, trail, order)
    }

    constructor (graph: map<Name, seq<Name>>)
      requires Closed(Relation(graph))
      ensures Valid() && this.graph == graph && trail == [] && order == []
    {
      this.graph := graph;
      active, done, trail, order := {}, {}, [], [];
    }

    /** A completed visit appends to the order and leaves the open chain alone;
        a refused one has found a cycle. */
    method Visit(key: Name) returns (ok: bool)
      requires Valid() && key in graph
      requires trail != [] ==> key in graph[trail[|trail| - 1]]
      modifies this
      ensures ok ==> Valid() && key in done && trail == old(trail) && old(order) <= order
      ensures !ok ==> HasCycle(Relation(graph))
      decreases graph.Keys - active
    {
      if key in active {
        TrailRepeats(Relation(graph), trail, key);
        return false;
      }
      if key in done {
        return true;
      }
      ghost var before := trail;
      OpenVisit(Relation(graph), active, done, trail, order, key);
      active, trail := active + {key}, trail + [key];
      var i := 0;
      while i < |graph[key]|
        invariant 0 <= i <= |graph[key]|
        invariant Valid() && trail == before + [key] && old(order) <= order
        invariant active == old(active) + {key}
        invariant forall j :: 0 <= j < i ==> graph[key][j] in done
      {
        var parent := graph[key][i];
        assert parent in Relation(graph)[key] && parent in Relation(graph);
        ok := Visit(parent);
        if !ok {
          return;
        }
        i := i + 1;
      }
      CloseVisit(Relation(graph), active, done, before, order, key);
      active, trail := active - {key}, before;
      done, order := done + {key}, order + [key];
      ok := true;
    }
  }

  /** Accepted exactly when every needed name is a job and a topological order
      exists; which of the two is missing decides the refusal. */
  method Dependencies(jobs: Jobs) returns (v: Verdict)
    requires jobs.Valid()
    ensures v.Accepted? <==> NeedsResolve(jobs) && exists order :: TopologicalOrder(Needed(jobs), order)
    ensures v.Accepted? ==> Spells(jobs, v.graph)
    ensures v.UnknownDependency? <==> !NeedsResolve(jobs)
    ensures v.CircularDependency? ==> HasCycle(Needed(jobs))
  {
    var graph := ReadGraph(jobs);
    if graph.None? {
      return UnknownDependency;
    }
    SpelledRelation(jobs, graph.value);
    var acyclic := SearchAll(jobs.keys, graph.value);
    return if acyclic then Accepted(graph.value) else CircularDependency;
  }

  /** The first loop: every entry is listed, and every listed name looked up. */
  method ReadGraph(jobs: Jobs) returns (r: Option<map<Name, seq<Name>>>)
    requires jobs.Valid()
    ensures r.Some? <==> NeedsResolve(jobs)
    ensures r.Some? ==> Spells(jobs, r.value)
  {
    var graph: map<Name, seq<Name>> := map[];
    for i := 0 to |jobs.keys|
      invariant forall k :: k in graph <==> k in jobs.keys[..i]
      invariant forall k :: k in graph ==> graph[k] == Listed(jobs.needs[k]) && !jobs.needs[k].Malformed?
      invariant forall k, m :: k in graph && Names(jobs, k, m) ==> m in jobs.needs
    {
      var key := jobs.keys[i];
      var needs := jobs.needs[key];
      forall m ensures m in Listed(needs) <==> Names(jobs, key, m) {
        ListedNames(jobs, key, m);
      }
      if needs.Malformed? || exists m :: m in Listed(needs) && m !in jobs.needs {
        assert key in jobs.keys;
        return None;
      }
      graph := graph[key := Listed(needs)];
      assert jobs.keys[..i + 1] == jobs.keys[..i] + [key];
    }
    assert jobs.keys[..|jobs.keys|] == jobs.keys;
    forall k, m | k in graph ensures m in graph[k] <==> Names(jobs, k, m) {
      ListedNames(jobs, k, m);
    }
    return Some(graph);
  }

  /** The second loop: a search from every job. */
  method SearchAll(keys: seq<Name>, graph: map<Name, seq<Name>>) returns (acyclic: bool)
    requires Closed(Relation(graph)) && forall k :: k in keys <==> k in graph
    ensures acyclic <==> exists order :: TopologicalOrder(Relation(graph), order)
    ensures !acyclic ==> HasCycle(Relation(graph))
  {
    var search := new Search(graph);
    for i := 0 to |keys|
      invariant search.Valid() && search.graph == graph && search.trail == []
      invariant fresh(search)
      invariant forall j :: 0 <= j < i ==> keys[j] in search.done
    {
      var ok := search.Visit(keys[i]);
      if !ok {
        forall order | TopologicalOrder(Relation(graph), order) ensures false {
          OrderExcludesCycle(Relation(graph), order);
        }
        return false;
      }
    }
    SearchComplete(Relation(graph), search.active, search.done, search.trail, search.order);
    return true;
  }
}
