/** scripts/ci/metrics.py: `expand` as it runs, filling one shared dictionary of
    flat nodes, proved to build exactly the flat graph of `Workflows`. */
module Flattening {
  import opened Digraph
  import opened Workflows
  import CriticalPath
  import FlatOrder

  type Node = CriticalPath.Node

  /** What the job rows of a run say about one label: the longest matching row. */
  datatype Observation = Observation(name: string, weight: CriticalPath.Seconds)

  /** Entry and exit nodes of one job. */
  datatype Group = Group(roots: seq<Id>, leaves: seq<Id>)

  function Label(t: Topology, f: File, prefix: string, id: Id): string
    requires f in t
    decreases |id|
  {
    if |id| == 0 || id[0] !in t[f].jobs then prefix
    else match t[f].jobs[id[0]].called
      case Steps => prefix + t[f].jobs[id[0]].name
      case Local(sub) => if sub in t then Label(t, sub, prefix + t[f].jobs[id[0]].name + " / ", id[1..]) else prefix
  }

  /** `id` lies below `identity` as a node of workflow `f`. */
  ghost predicate Under(t: Topology, f: File, identity: Id, id: Id)
    requires WellFormed(t) && f in t
  {
    identity <= id && IsNode(t, f, id[|identity|..])
  }

  ghost predicate RootOf(t: Topology, f: File, identity: Id, k: Key, id: Id)
    requires WellFormed(t) && f in t && k in t[f].jobs
  {
    identity <= id && |id| > |identity| && id[|identity|] == k && GroupEntry(t, f, k, id[|identity| + 1..])
  }

  ghost predicate LeafOf(t: Topology, f: File, identity: Id, k: Key, id: Id)
    requires WellFormed(t) && f in t && k in t[f].jobs
  {
    identity <= id && |id| > |identity| && id[|identity|] == k && GroupExit(t, f, k, id[|identity| + 1..])
  }

  ghost predicate GroupAt(t: Topology, f: File, identity: Id, k: Key, group: Group)
    requires WellFormed(t) && f in t
  {
    && k in t[f].jobs
    && (forall id :: id in group.roots <==> RootOf(t, f, identity, k, id))
    && (forall id :: id in group.leaves <==> LeafOf(t, f, identity, k, id))
  }

  /** The groups computed for the jobs `keys` are their entries and exits. */
  ghost predicate GroupsOf(t: Topology, f: File, identity: Id, keys: seq<Key>, groups: map<Key, Group>)
    requires WellFormed(t) && f in t
  {
    && (forall k :: k in groups <==> k in keys)
    && (forall k :: k in groups ==> GroupAt(t, f, identity, k, groups[k]))
  }

  /** The entries and exits of a whole workflow below `identity`. */
  ghost predicate EndsOf(t: Topology, f: File, identity: Id, ends: Group)
    requires WellFormed(t) && f in t
  {
    && (forall id :: id in ends.roots <==> identity <= id && Entry(t, f, id[|identity|..]))
    && (forall id :: id in ends.leaves <==> identity <= id && Exit(t, f, id[|identity|..]))
  }

  /** An edge inside one job, or across one of the pairs (job, needed job) connected so far. */
  ghost predicate Connected(t: Topology, f: File, pairs: set<(Key, Key)>, a: Id, b: Id)
    requires WellFormed(t) && f in t
  {
    Inner(t, f, a, b) || (Across(t, f, a, b) && (a[0], b[0]) in pairs)
  }

  ghost predicate ConnectedAt(t: Topology, f: File, identity: Id, pairs: set<(Key, Key)>, a: Id, needs: seq<Id>)
    requires WellFormed(t) && f in t
  {
    identity <= a && forall b :: b in needs <==> identity <= b && Connected(t, f, pairs, a[|identity|..], b[|identity|..])
  }

  /** The new nodes have exactly the needs connected so far. */
  ghost predicate Wired(t: Topology, f: File, identity: Id, pairs: set<(Key, Key)>, before: map<Id, Node>, after: map<Id, Node>)
    requires WellFormed(t) && f in t
  {
    forall a :: a in after && a !in before ==> ConnectedAt(t, f, identity, pairs, a, after[a].needs)
  }

  /** A node carries what was observed for its label. */
  ghost predicate Measured(t: Topology, f: File, prefix: string, identity: Id, observe: string -> Observation, id: Id, node: Node)
    requires f in t && identity <= id
  {
    Observation(node.name, node.weight) == observe(Label(t, f, prefix, id[|identity|..]))
  }

  ghost predicate AddedIds(t: Topology, f: File, identity: Id, keys: seq<Key>, before: map<Id, Node>, after: map<Id, Node>)
    requires WellFormed(t) && f in t
  {
    forall id :: id in after <==> id in before || (Under(t, f, identity, id) && id[|identity|] in keys)
  }

  ghost predicate Keeps(before: map<Id, Node>, after: map<Id, Node>) {
    forall id :: id in before ==> id in after && after[id] == before[id]
  }

  ghost predicate AllMeasured(t: Topology, f: File, prefix: string, identity: Id, observe: string -> Observation,
                              before: map<Id, Node>, after: map<Id, Node>)
    requires f in t
  {
    forall id :: id in after && id !in before ==>
      identity <= id && Measured(t, f, prefix, identity, observe, id, after[id])
  }

  ghost predicate EdgeNeedsAt(t: Topology, f: File, identity: Id, a: Id, needs: seq<Id>)
    requires WellFormed(t) && f in t
  {
    identity <= a && forall b :: b in needs <==> identity <= b && Edge(t, f, a[|identity|..], b[|identity|..])
  }

  ghost predicate EdgeNeeds(t: Topology, f: File, identity: Id, before: map<Id, Node>, after: map<Id, Node>)
    requires WellFormed(t) && f in t
  {
    forall a :: a in after && a !in before ==> EdgeNeedsAt(t, f, identity, a, after[a].needs)
  }

  /** `after` is `before` with the jobs `keys` of workflow `f` added below `identity`,
      connected to each other along `pairs` only. */
  ghost predicate Added(t: Topology, f: File, prefix: string, identity: Id, observe: string -> Observation,
                        keys: seq<Key>, pairs: set<(Key, Key)>, before: map<Id, Node>, after: map<Id, Node>)
    requires WellFormed(t) && f in t
  {
    && AddedIds(t, f, identity, keys, before, after) && Keeps(before, after)
    && AllMeasured(t, f, prefix, identity, observe, before, after)
    && Wired(t, f, identity, pairs, before, after)
  }

  /** `after` is `before` with the whole flat graph of workflow `f` below `identity`. */
  ghost predicate Flattened(t: Topology, f: File, prefix: string, identity: Id, observe: string -> Observation,
                            before: map<Id, Node>, after: map<Id, Node>)
    requires WellFormed(t) && f in t
  {
    && AddedIds(t, f, identity, t[f].keys, before, after) && Keeps(before, after)
    && AllMeasured(t, f, prefix, identity, observe, before, after)
    && EdgeNeeds(t, f, identity, before, after)
  }

  /** No node lies below `identity` yet. */
  ghost predicate Vacant(identity: Id, nodes: map<Id, Node>) {
    forall id :: id in nodes ==> !(identity <= id)
  }

  lemma {:induction false} SubUnder(t: Topology, f: File, identity: Id, k: Key, id: Id)
    requires WellFormed(t) && f in t && k in t[f].jobs && t[f].jobs[k].called.Local?
    ensures t[f].jobs[k].called.file in t
    ensures Under(t, t[f].jobs[k].called.file, identity + [k], id) <==>
            Under(t, f, identity, id) && id[|identity|] == k
  {
    if identity <= id && |id| > |identity| {
      assert id[|identity|..][1..] == id[|identity| + 1..];
      assert id[|identity|..][0] == id[|identity|];
    }
  }

  lemma {:induction false} StepsUnder(t: Topology, f: File, identity: Id, k: Key, id: Id)
    requires WellFormed(t) && f in t && k in t[f].jobs && t[f].jobs[k].called.Steps?
    ensures Under(t, f, identity, id) && id[|identity|] == k <==> id == identity + [k]
    ensures (identity + [k])[|identity|..] == [k]
  {
    if Under(t, f, identity, id) && id[|identity|] == k {
      assert id[|identity|..][0] == k && |id[|identity|..]| == 1;
    }
  }

  lemma {:induction false} AddStepsIds(t: Topology, f: File, identity: Id, keys: seq<Key>, k: Key,
                                       before: map<Id, Node>, mid: map<Id, Node>, node: Node)
    requires WellFormed(t) && f in t && k in t[f].jobs && t[f].jobs[k].called.Steps?
    requires AddedIds(t, f, identity, keys, before, mid)
    ensures AddedIds(t, f, identity, keys + [k], before, mid[identity + [k] := node])
  {
    var after := mid[identity + [k] := node];
    forall id ensures id in after <==> id in before || (Under(t, f, identity, id) && id[|identity|] in keys + [k]) {
      StepsUnder(t, f, identity, k, id);
    }
  }

  lemma {:induction false} AddStepsNeeds(t: Topology, f: File, identity: Id, k: Key,
                                         before: map<Id, Node>, mid: map<Id, Node>, node: Node)
    requires WellFormed(t) && f in t && k in t[f].jobs && t[f].jobs[k].called.Steps? && node.needs == []
    requires Wired(t, f, identity, {}, before, mid)
    ensures Wired(t, f, identity, {}, before, mid[identity + [k] := node])
  {
    StepsUnder(t, f, identity, k, identity + [k]);
    assert forall b :: !Inner(t, f, [k], b);
    assert ConnectedAt(t, f, identity, {}, identity + [k], []);
  }

  lemma {:induction false} AddSteps(t: Topology, f: File, prefix: string, identity: Id, observe: string -> Observation,
                 keys: seq<Key>, k: Key, before: map<Id, Node>, mid: map<Id, Node>, node: Node)
    requires WellFormed(t) && f in t && k in t[f].jobs && t[f].jobs[k].called.Steps?
    requires Vacant(identity, before) && Added(t, f, prefix, identity, observe, keys, {}, before, mid)
    requires node.needs == [] && Observation(node.name, node.weight) == observe(prefix + t[f].jobs[k].name)
    ensures Added(t, f, prefix, identity, observe, keys + [k], {}, before, mid[identity + [k] := node])
  {
    AddStepsIds(t, f, identity, keys, k, before, mid, node);
    AddStepsNeeds(t, f, identity, k, before, mid, node);
    StepsUnder(t, f, identity, k, identity + [k]);
  }

  lemma {:induction false} AddLocalIds(t: Topology, f: File, identity: Id, keys: seq<Key>, k: Key,
                                       before: map<Id, Node>, mid: map<Id, Node>, after: map<Id, Node>)
    requires WellFormed(t) && f in t && k in t[f].jobs && t[f].jobs[k].called.Local? && t[f].jobs[k].called.file in t
    requires AddedIds(t, f, identity, keys, before, mid)
    requires AddedIds(t, t[f].jobs[k].called.file, identity + [k], t[t[f].jobs[k].called.file].keys, mid, after)
    ensures AddedIds(t, f, identity, keys + [k], before, after)
  {
    var sub := t[f].jobs[k].called.file;
    forall id ensures id in after <==> id in before || (Under(t, f, identity, id) && id[|identity|] in keys + [k]) {
      SubUnder(t, f, identity, k, id);
      assert WellFormedWorkflow(t, t[sub]);
    }
  }

  lemma {:induction false} AddLocalNeeds(t: Topology, f: File, identity: Id, k: Key,
                                         before: map<Id, Node>, mid: map<Id, Node>, after: map<Id, Node>)
    requires WellFormed(t) && f in t && k in t[f].jobs && t[f].jobs[k].called.Local? && t[f].jobs[k].called.file in t
    requires Wired(t, f, identity, {}, before, mid) && Keeps(mid, after)
    requires EdgeNeeds(t, t[f].jobs[k].called.file, identity + [k], mid, after)
    ensures Wired(t, f, identity, {}, before, after)
  {
    var sub := t[f].jobs[k].called.file;
    forall a | a in after && a !in before
      ensures ConnectedAt(t, f, identity, {}, a, after[a].needs)
    {
      if a !in mid {
        assert EdgeNeedsAt(t, sub, identity + [k], a, after[a].needs);
        forall b ensures b in after[a].needs <==> identity <= b && Connected(t, f, {}, a[|identity|..], b[|identity|..]) {
          InnerBelow(t, f, identity, k, a, b);
        }
      }
    }
  }

  lemma {:induction false} InnerBelow(t: Topology, f: File, identity: Id, k: Key, a: Id, b: Id)
    requires WellFormed(t) && f in t && k in t[f].jobs && t[f].jobs[k].called.Local? && t[f].jobs[k].called.file in t
    requires identity + [k] <= a
    ensures identity <= a
    ensures identity <= b && Inner(t, f, a[|identity|..], b[|identity|..]) <==>
            identity + [k] <= b && Edge(t, t[f].jobs[k].called.file, a[|identity| + 1..], b[|identity| + 1..])
  {
    assert a[|identity|..][0] == k && a[|identity|..][1..] == a[|identity| + 1..];
    if identity <= b && |b| > |identity| {
      assert b[|identity|..][0] == b[|identity|] && b[|identity|..][1..] == b[|identity| + 1..];
      assert b[|identity|] == k <==> identity + [k] <= b;
    }
  }

  lemma {:induction false} AddLocal(t: Topology, f: File, prefix: string, identity: Id, observe: string -> Observation,
                                    keys: seq<Key>, k: Key, before: map<Id, Node>, mid: map<Id, Node>, after: map<Id, Node>)
    requires WellFormed(t) && f in t && k in t[f].jobs && t[f].jobs[k].called.Local? && t[f].jobs[k].called.file in t
    requires Added(t, f, prefix, identity, observe, keys, {}, before, mid)
    requires Flattened(t, t[f].jobs[k].called.file, prefix + t[f].jobs[k].name + " / ", identity + [k], observe, mid, after)
    ensures Added(t, f, prefix, identity, observe, keys + [k], {}, before, after)
  {
    AddLocalIds(t, f, identity, keys, k, before, mid, after);
    AddLocalNeeds(t, f, identity, k, before, mid, after);
    forall id | id in after && id !in before
      ensures identity <= id && Measured(t, f, prefix, identity, observe, id, after[id])
    {
      if id !in mid {
        assert identity + [k] <= id && id[|identity|..][0] == k;
        assert id[|identity|..][1..] == id[|identity + [k]|..];
      }
    }
  }

  lemma {:induction false} PrefixSnoc(identity: Id, k: Key, id: Id)
    ensures identity + [k] <= id <==> identity <= id && |id| > |identity| && id[|identity|] == k
  {
  }

  /** The ends of a called workflow are the ends of the calling job. */
  lemma {:induction false} SubEnds(t: Topology, f: File, identity: Id, k: Key, ends: Group)
    requires WellFormed(t) && f in t && k in t[f].jobs && t[f].jobs[k].called.Local? && t[f].jobs[k].called.file in t
    requires EndsOf(t, t[f].jobs[k].called.file, identity + [k], ends)
    ensures GroupAt(t, f, identity, k, ends)
  {
    forall id ensures id in ends.roots <==> RootOf(t, f, identity, k, id) {
      PrefixSnoc(identity, k, id);
    }
    forall id ensures id in ends.leaves <==> LeafOf(t, f, identity, k, id) {
      PrefixSnoc(identity, k, id);
    }
  }

  lemma {:induction false} StepsEnds(t: Topology, f: File, identity: Id, k: Key)
    requires WellFormed(t) && f in t && k in t[f].jobs && t[f].jobs[k].called.Steps?
    ensures GroupAt(t, f, identity, k, Group([identity + [k]], [identity + [k]]))
  {
    forall id ensures RootOf(t, f, identity, k, id) <==> id == identity + [k] {
      PrefixSnoc(identity, k, id);
      assert RootOf(t, f, identity, k, id) ==> |id| == |identity + [k]|;
    }
    forall id ensures LeafOf(t, f, identity, k, id) <==> RootOf(t, f, identity, k, id) {
    }
  }

  /** Connecting one pair of jobs, seen from one node and one candidate need. */
  lemma {:induction false} PairAt(t: Topology, f: File, identity: Id, pairs: set<(Key, Key)>, k: Key, m: Key, a: Id, b: Id)
    requires WellFormed(t) && f in t && k in t[f].jobs && m in t[f].jobs && identity <= a && identity <= b
    ensures Connected(t, f, pairs + {(k, m)}, a[|identity|..], b[|identity|..]) <==>
            Connected(t, f, pairs, a[|identity|..], b[|identity|..]) ||
            (RootOf(t, f, identity, k, a) && LeafOf(t, f, identity, m, b))
  {
    var n := |identity|;
    if |a| > n && |b| > n {
      assert a[n..][0] == a[n] && a[n..][1..] == a[n + 1..] && b[n..][0] == b[n] && b[n..][1..] == b[n + 1..];
    }
  }

  lemma {:induction false} ConnectPair(t: Topology, f: File, prefix: string, identity: Id, observe: string -> Observation,
                                       pairs: set<(Key, Key)>, k: Key, m: Key, from: Group, to: Group,
                                       before: map<Id, Node>, mid: map<Id, Node>, after: map<Id, Node>)
    requires WellFormed(t) && f in t && Vacant(identity, before)
    requires Added(t, f, prefix, identity, observe, t[f].keys, pairs, before, mid)
    requires GroupAt(t, f, identity, k, from) && GroupAt(t, f, identity, m, to)
    requires Extended(mid, after, from.roots, to.leaves)
    ensures Added(t, f, prefix, identity, observe, t[f].keys, pairs + {(k, m)}, before, after)
  {
    ConnectPairNeeds(t, f, identity, pairs, k, m, from, to, before, mid, after);
    forall id | id in before ensures after[id] == before[id] {
      assert id !in from.roots;
    }
  }

  lemma {:induction false} ConnectPairNeeds(t: Topology, f: File, identity: Id,
                                       pairs: set<(Key, Key)>, k: Key, m: Key, from: Group, to: Group,
                                       before: map<Id, Node>, mid: map<Id, Node>, after: map<Id, Node>)
    requires WellFormed(t) && f in t && Wired(t, f, identity, pairs, before, mid)
    requires GroupAt(t, f, identity, k, from) && GroupAt(t, f, identity, m, to)
    requires Extended(mid, after, from.roots, to.leaves)
    ensures Wired(t, f, identity, pairs + {(k, m)}, before, after)
  {
    forall a | a in after && a !in before
      ensures ConnectedAt(t, f, identity, pairs + {(k, m)}, a, after[a].needs)
    {
      PairNeedsAt(t, f, identity, pairs, k, m, from, to, a, mid[a].needs, after[a].needs);
    }
  }

  lemma {:induction false} PairNeedsAt(t: Topology, f: File, identity: Id, pairs: set<(Key, Key)>, k: Key, m: Key,
                                       from: Group, to: Group, a: Id, needs: seq<Id>, wider: seq<Id>)
    requires WellFormed(t) && f in t && ConnectedAt(t, f, identity, pairs, a, needs)
    requires GroupAt(t, f, identity, k, from) && GroupAt(t, f, identity, m, to)
    requires forall b :: b in wider <==> b in needs || (a in from.roots && b in to.leaves)
    ensures ConnectedAt(t, f, identity, pairs + {(k, m)}, a, wider)
  {
    forall b ensures b in wider <==> identity <= b && Connected(t, f, pairs + {(k, m)}, a[|identity|..], b[|identity|..]) {
      assert b in to.leaves <==> LeafOf(t, f, identity, m, b);
      if identity <= b {
        PairAt(t, f, identity, pairs, k, m, a, b);
      }
    }
  }

  /** Every node among `roots` additionally needs `leaves`; nothing else changed. */
  ghost predicate Extended(before: map<Id, Node>, after: map<Id, Node>, roots: seq<Id>, leaves: seq<Id>) {
    && after.Keys == before.Keys
    && (forall id :: id in after ==> after[id].name == before[id].name && after[id].weight == before[id].weight)
    && (forall id :: id in after && id !in roots ==> after[id] == before[id])
    && (forall id, b :: id in after ==>
         (b in after[id].needs <==> b in before[id].needs || (id in roots && b in leaves)))
  }

  class Flattener {
    const topology: Topology
    const observe: string -> Observation
    var ids: seq<Id>
    var nodes: map<Id, Node>

    constructor (topology: Topology, observe: string -> Observation)
      ensures this.topology == topology && this.observe == observe && ids == [] && nodes == map[]
    {
      this.topology, this.observe := topology, observe;
      ids, nodes := [], map[];
    }

    /** Dictionary keys in insertion order. */
    ghost predicate Listed()
      reads this
    {
      forall id :: id in ids <==> id in nodes
    }

    /** `nodes[node]["needs"].extend(...)` for every entry of one job. */
    method Extend(roots: seq<Id>, leaves: seq<Id>)
      requires Listed() && forall id :: id in roots ==> id in nodes
      modifies `nodes
      ensures Listed() && Extended(old(nodes), nodes, roots, leaves)
    {
      var i := 0;
      while i < |roots|
        invariant 0 <= i <= |roots| && Extended(old(nodes), nodes, roots[..i], leaves)
      {
        var node := nodes[roots[i]];
        assert roots[..i + 1] == roots[..i] + [roots[i]];
        nodes := nodes[roots[i] := node.(needs := node.needs + leaves)];
        i := i + 1;
      }
      assert roots[..i] == roots;
    }

    /** One pass over the jobs: nodes for those with steps, recursion for the others. */
    method AddJobs(f: File, prefix: string, identity: Id, ghost rank: map<File, nat>) returns (groups: map<Key, Group>)
      requires WellFormed(topology) && Ranked(topology, rank) && f in topology
      requires Listed() && Vacant(identity, nodes)
      modifies this
      ensures Listed() && GroupsOf(topology, f, identity, topology[f].keys, groups)
      ensures Added(topology, f, prefix, identity, observe, topology[f].keys, {}, old(nodes), nodes)
      decreases rank[f], 0
    {
      groups := map[];
      var w := topology[f];
      assert WellFormedWorkflow(topology, w);
      var i := 0;
      while i < |w.keys|
        invariant 0 <= i <= |w.keys| && Listed()
        invariant GroupsOf(topology, f, identity, w.keys[..i], groups)
        invariant Added(topology, f, prefix, identity, observe, w.keys[..i], {}, old(nodes), nodes)
      {
        var k := w.keys[i];
        assert k in w.jobs && w.keys[..i + 1] == w.keys[..i] + [k];
        var group := AddJob(f, prefix, identity, k, w.keys[..i], old(nodes), rank);
        groups := groups[k := group];
        i := i + 1;
      }
      assert w.keys[..i] == w.keys;
    }

    method AddJob(f: File, prefix: string, identity: Id, k: Key, ghost keys: seq<Key>, ghost before: map<Id, Node>,
                  ghost rank: map<File, nat>) returns (group: Group)
      requires WellFormed(topology) && Ranked(topology, rank) && f in topology && k in topology[f].jobs && k !in keys
      requires Listed() && Vacant(identity, before)
      requires Added(topology, f, prefix, identity, observe, keys, {}, before, nodes)
      modifies this
      ensures Listed() && GroupAt(topology, f, identity, k, group)
      ensures Added(topology, f, prefix, identity, observe, keys + [k], {}, before, nodes)
      decreases rank[f], 0, 0
    {
      var job := topology[f].jobs[k];
      var nodeId, title := identity + [k], prefix + job.name;
      assert WellFormedWorkflow(topology, topology[f]);
      if job.called.Local? {
        ghost var mid := nodes;
        VacantBelow(topology, f, identity, keys, k, before, nodes);
        var roots, leaves := Expand(job.called.file, title + " / ", nodeId, rank);
        group := Group(roots, leaves);
        SubEnds(topology, f, identity, k, group);
        AddLocal(topology, f, prefix, identity, observe, keys, k, before, mid, nodes);
      } else {
        var seen := observe(title);
        var node := CriticalPath.Node(seen.name, seen.weight, []);
        AddSteps(topology, f, prefix, identity, observe, keys, k, before, nodes, node);
        ids := if nodeId in nodes then ids else ids + [nodeId];
        nodes := nodes[nodeId := node];
        group := Group([nodeId], [nodeId]);
        StepsEnds(topology, f, identity, k);
      }
    }

    /** The needs of one job: its entries wait for the exits of each needed job. */
    method ConnectJob(f: File, ghost prefix: string, ghost identity: Id, k: Key, groups: map<Key, Group>,
                      ghost pairs: set<(Key, Key)>, ghost before: map<Id, Node>) returns (parents: set<Key>, ghost wider: set<(Key, Key)>)
      requires WellFormed(topology) && f in topology && k in topology[f].jobs
      requires Listed() && Vacant(identity, before) && GroupsOf(topology, f, identity, topology[f].keys, groups)
      requires Added(topology, f, prefix, identity, observe, topology[f].keys, pairs, before, nodes)
      modifies `nodes
      ensures Listed() && Added(topology, f, prefix, identity, observe, topology[f].keys, wider, before, nodes)
      ensures parents == Elements(topology[f].jobs[k].needs)
      ensures forall x :: x in wider <==> x in pairs || (x.0 == k && x.1 in parents)
    {
      var needs := topology[f].jobs[k].needs;
      parents, wider := {}, pairs;
      var j := 0;
      while j < |needs|
        invariant 0 <= j <= |needs| && Listed()
        invariant Added(topology, f, prefix, identity, observe, topology[f].keys, wider, before, nodes)
        invariant parents == Elements(needs[..j])
        invariant forall x :: x in wider <==> x in pairs || (x.0 == k && x.1 in parents)
      {
        var parent := needs[j];
        assert WellFormedWorkflow(topology, topology[f]) && parent in needs && needs[..j + 1] == needs[..j] + [parent];
        ghost var mid := nodes;
        RootsPresent(topology, f, prefix, identity, observe, wider, k, groups[k], before, nodes);
        Extend(groups[k].roots, groups[parent].leaves);
        ConnectPair(topology, f, prefix, identity, observe, wider, k, parent, groups[k], groups[parent], before, mid, nodes);
        parents, wider := parents + {parent}, wider + {(k, parent)};
        j := j + 1;
      }
      assert needs[..j] == needs;
    }

    method ConnectJobs(f: File, ghost prefix: string, ghost identity: Id, groups: map<Key, Group>,
                       ghost before: map<Id, Node>) returns (dependedOn: set<Key>)
      requires WellFormed(topology) && f in topology
      requires Listed() && Vacant(identity, before) && GroupsOf(topology, f, identity, topology[f].keys, groups)
      requires Added(topology, f, prefix, identity, observe, topology[f].keys, {}, before, nodes)
      modifies `nodes
      ensures Listed() && Flattened(topology, f, prefix, identity, observe, before, nodes)
      ensures forall m :: m in dependedOn <==> DependedOn(topology[f], m)
    {
      var w := topology[f];
      assert WellFormedWorkflow(topology, w);
      dependedOn := {};
      ghost var pairs: set<(Key, Key)> := {};
      var i := 0;
      while i < |w.keys|
        invariant 0 <= i <= |w.keys| && Listed()
        invariant Added(topology, f, prefix, identity, observe, w.keys, pairs, before, nodes)
        invariant forall k, m :: (k, m) in pairs <==> k in w.keys[..i] && m in w.jobs[k].needs
        invariant forall m :: m in dependedOn <==> exists k :: k in w.keys[..i] && m in w.jobs[k].needs
      {
        var k := w.keys[i];
        assert k in w.jobs && w.keys[..i + 1] == w.keys[..i] + [k];
        var parents;
        parents, pairs := ConnectJob(f, prefix, identity, k, groups, pairs, before);
        dependedOn := dependedOn + parents;
        i := i + 1;
      }
      assert w.keys[..i] == w.keys;
      AllPairsWired(topology, f, identity, pairs, before, nodes);
    }

    /** Adds the flat graph of one workflow and returns its entries and exits. */
    method Expand(f: File, prefix: string, identity: Id, ghost rank: map<File, nat>) returns (roots: seq<Id>, leaves: seq<Id>)
      requires WellFormed(topology) && Ranked(topology, rank) && f in topology
      requires Listed() && Vacant(identity, nodes)
      modifies this
      ensures Listed() && EndsOf(topology, f, identity, Group(roots, leaves))
      ensures Flattened(topology, f, prefix, identity, observe, old(nodes), nodes)
      decreases rank[f], 1
    {
      var w := topology[f];
      var groups := AddJobs(f, prefix, identity, rank);
      var dependedOn := ConnectJobs(f, prefix, identity, groups, old(nodes));
      roots := Roots(w, groups, w.keys);
      leaves := Leaves(groups, dependedOn, w.keys);
      CollectedEnds(topology, f, identity, groups, dependedOn);
    }
  }

  function Roots(w: Workflow, groups: map<Key, Group>, keys: seq<Key>): seq<Id>
    requires forall k :: k in keys ==> k in groups && k in w.jobs
  {
    if keys == [] then []
    else (if w.jobs[keys[0]].needs == [] then groups[keys[0]].roots else []) + Roots(w, groups, keys[1..])
  }

  function Leaves(groups: map<Key, Group>, dependedOn: set<Key>, keys: seq<Key>): seq<Id>
    requires forall k :: k in keys ==> k in groups
  {
    if keys == [] then []
    else (if keys[0] !in dependedOn then groups[keys[0]].leaves else []) + Leaves(groups, dependedOn, keys[1..])
  }

  lemma {:induction false} RootsMember(w: Workflow, groups: map<Key, Group>, keys: seq<Key>, id: Id)
    requires forall k :: k in keys ==> k in groups && k in w.jobs
    ensures id in Roots(w, groups, keys) <==> exists k :: k in keys && w.jobs[k].needs == [] && id in groups[k].roots
  {
    if keys != [] {
      RootsMember(w, groups, keys[1..], id);
      assert forall k :: k in keys <==> k == keys[0] || k in keys[1..];
    }
  }

  lemma {:induction false} LeavesMember(groups: map<Key, Group>, dependedOn: set<Key>, keys: seq<Key>, id: Id)
    requires forall k :: k in keys ==> k in groups
    ensures id in Leaves(groups, dependedOn, keys) <==> exists k :: k in keys && k !in dependedOn && id in groups[k].leaves
  {
    if keys != [] {
      LeavesMember(groups, dependedOn, keys[1..], id);
      assert forall k :: k in keys <==> k == keys[0] || k in keys[1..];
    }
  }

  /** Entries of a workflow are the entries of its jobs without needs. */
  lemma {:induction false} EntrySplit(t: Topology, f: File, identity: Id, id: Id)
    requires WellFormed(t) && f in t
    ensures identity <= id && Entry(t, f, id[|identity|..]) <==>
            exists k :: k in t[f].jobs && t[f].jobs[k].needs == [] && RootOf(t, f, identity, k, id)
    ensures identity <= id && Exit(t, f, id[|identity|..]) <==>
            exists k :: k in t[f].jobs && !DependedOn(t[f], k) && LeafOf(t, f, identity, k, id)
  {
    if identity <= id && |id| > |identity| {
      var k := id[|identity|];
      assert id[|identity|..][0] == k && id[|identity|..][1..] == id[|identity| + 1..];
      assert k in t[f].jobs ==> (RootOf(t, f, identity, k, id) <==> GroupEntry(t, f, k, id[|identity|..][1..]));
      assert k in t[f].jobs ==> (LeafOf(t, f, identity, k, id) <==> GroupExit(t, f, k, id[|identity|..][1..]));
    }
  }

  lemma {:induction false} CollectedEnds(t: Topology, f: File, identity: Id, groups: map<Key, Group>, dependedOn: set<Key>)
    requires WellFormed(t) && f in t && GroupsOf(t, f, identity, t[f].keys, groups)
    requires forall k :: k in t[f].keys <==> k in t[f].jobs
    requires forall m :: m in dependedOn <==> DependedOn(t[f], m)
    ensures EndsOf(t, f, identity, Group(Roots(t[f], groups, t[f].keys), Leaves(groups, dependedOn, t[f].keys)))
  {
    forall id ensures id in Roots(t[f], groups, t[f].keys) <==> identity <= id && Entry(t, f, id[|identity|..]) {
      RootsMember(t[f], groups, t[f].keys, id);
      EntrySplit(t, f, identity, id);
    }
    forall id ensures id in Leaves(groups, dependedOn, t[f].keys) <==> identity <= id && Exit(t, f, id[|identity|..]) {
      LeavesMember(groups, dependedOn, t[f].keys, id);
      EntrySplit(t, f, identity, id);
    }
  }

  lemma {:induction false} RootsPresent(t: Topology, f: File, prefix: string, identity: Id, observe: string -> Observation,
                                        pairs: set<(Key, Key)>, k: Key, group: Group, before: map<Id, Node>, nodes: map<Id, Node>)
    requires WellFormed(t) && f in t && GroupAt(t, f, identity, k, group) && k in t[f].keys
    requires Added(t, f, prefix, identity, observe, t[f].keys, pairs, before, nodes)
    ensures forall id :: id in group.roots ==> id in nodes
  {
    forall id | id in group.roots ensures id in nodes {
      assert RootOf(t, f, identity, k, id);
      assert id[|identity|..][0] == k && id[|identity|..][1..] == id[|identity| + 1..];
      if t[f].jobs[k].called.Local? {
        EntryIsNode(t, t[f].jobs[k].called.file, id[|identity| + 1..]);
      }
      assert Under(t, f, identity, id);
    }
  }

  /** With every pair connected the needs are exactly the edges of the flat graph. */
  lemma {:induction false} AllPairsWired(t: Topology, f: File, identity: Id, pairs: set<(Key, Key)>,
                                         before: map<Id, Node>, nodes: map<Id, Node>)
    requires WellFormed(t) && f in t && Wired(t, f, identity, pairs, before, nodes)
    requires forall k, m :: (k, m) in pairs <==> k in t[f].jobs && m in t[f].jobs[k].needs
    ensures EdgeNeeds(t, f, identity, before, nodes)
  {
    forall a | a in nodes && a !in before ensures EdgeNeedsAt(t, f, identity, a, nodes[a].needs) {
      assert ConnectedAt(t, f, identity, pairs, a, nodes[a].needs);
      forall b | identity <= b
        ensures Connected(t, f, pairs, a[|identity|..], b[|identity|..]) <==> Edge(t, f, a[|identity|..], b[|identity|..])
      {
      }
    }
  }

  lemma {:induction false} VacantBelow(t: Topology, f: File, identity: Id, keys: seq<Key>, k: Key,
                                       before: map<Id, Node>, nodes: map<Id, Node>)
    requires WellFormed(t) && f in t && k !in keys && Vacant(identity, before)
    requires AddedIds(t, f, identity, keys, before, nodes)
    ensures Vacant(identity + [k], nodes)
  {
    forall id | id in nodes ensures !(identity + [k] <= id) {
      PrefixSnoc(identity, k, id);
    }
  }

  /** The dictionary holds exactly the flat graph of `f`, each node with what was
      observed for its label. */
  ghost predicate Represents(t: Topology, f: File, observe: string -> Observation, nodes: map<Id, Node>)
    requires WellFormed(t) && f in t
  {
    && CriticalPath.Needs(nodes) == FlatOrder.FlatGraph(t, f)
    && forall id :: id in nodes ==> Observation(nodes[id].name, nodes[id].weight) == observe(Label(t, f, "", id))
  }

  lemma {:induction false} FlattenedRepresents(t: Topology, f: File, observe: string -> Observation, nodes: map<Id, Node>)
    requires WellFormed(t) && f in t && Flattened(t, f, "", [], observe, map[], nodes)
    ensures Represents(t, f, observe, nodes)
  {
    var g := CriticalPath.Needs(nodes);
    assert WellFormedWorkflow(t, t[f]);
    forall id ensures id in nodes <==> IsNode(t, f, id) {
      assert id[0..] == id;
    }
    forall a | a in nodes ensures g[a] == FlatOrder.FlatGraph(t, f)[a] {
      assert EdgeNeedsAt(t, f, [], a, nodes[a].needs) && a[0..] == a;
      forall b ensures b in nodes[a].needs <==> Edge(t, f, a, b) {
        assert b[0..] == b;
      }
    }
    forall id | id in nodes ensures Observation(nodes[id].name, nodes[id].weight) == observe(Label(t, f, "", id)) {
      assert Measured(t, f, "", [], observe, id, nodes[id]) && id[0..] == id;
    }
  }

  /** `critical_path`: for a topology whose call graph was accepted, refuses exactly
      when some workflow it runs has circular needs, and otherwise reports a longest
      path of the flat graph. */
  method CriticalPathOf(t: Topology, f: File, observe: string -> Observation, ghost rank: map<File, nat>)
    returns (r: CriticalPath.Outcome, ghost nodes: map<Id, Node>)
    requires WellFormed(t) && Ranked(t, rank) && f in t
    ensures Represents(t, f, observe, nodes)
    ensures r.DependencyCycle? <==> !FlatOrder.AllAcyclic(t, rank, f)
    ensures r.Path? ==> CriticalPath.Longest(nodes, r.best)
    ensures r.Path? ==> forall p :: IsPath(CriticalPath.Needs(nodes), p) ==> CriticalPath.Cost(nodes, p) <= r.best.duration
  {
    var flattener := new Flattener(t, observe);
    var _, _ := flattener.Expand(f, "", [], rank);
    nodes := flattener.nodes;
    FlattenedRepresents(t, f, observe, nodes);
    FlatOrder.FlatClosed(t, f);
    FlatOrder.FlatCycleIff(t, rank, f);
    assert flattener.ids != [] by {
      assert WellFormedWorkflow(t, t[f]) && t[f].keys[0] in t[f].keys;
      var rest := FlatOrder.NodeExists(t, rank, f, t[f].keys[0]);
      assert [t[f].keys[0]] + rest in CriticalPath.Needs(nodes);
    }
    r := CriticalPath.LongestPath(flattener.ids, flattener.nodes);
  }
}
