/** Flattening preserves order exactly: one flat node is an ancestor of another
    precisely when their jobs are ordered by `needs`, at every nesting depth, and
    the flat graph is cyclic precisely when some reachable workflow is. */
module FlatOrder {
  import opened Digraph
  import opened Workflows

  ghost function FlatGraph(t: Topology, f: File): Graph<Id>
    requires WellFormed(t) && f in t
  {
    imap a | IsNode(t, f, a) :: iset b | Edge(t, f, a, b)
  }

  /** No workflow that `f` runs, at any depth, has circular needs. */
  ghost predicate AllAcyclic(t: Topology, rank: map<File, nat>, f: File)
    requires WellFormed(t) && Ranked(t, rank) && f in t
    decreases rank[f]
  {
    && !HasCycle(JobGraph(t[f]))
    && forall k :: k in t[f].jobs && t[f].jobs[k].called.Local? ==> AllAcyclic(t, rank, t[f].jobs[k].called.file)
  }

  /** The same for the workflows called by `f`, saying nothing about `f` itself. */
  ghost predicate CalleesAcyclic(t: Topology, rank: map<File, nat>, f: File)
    requires WellFormed(t) && Ranked(t, rank) && f in t
  {
    forall k :: k in t[f].jobs && t[f].jobs[k].called.Local? ==> AllAcyclic(t, rank, t[f].jobs[k].called.file)
  }

  lemma {:induction false} JobGraphClosed(t: Topology, f: File)
    requires WellFormed(t) && f in t
    ensures Closed(JobGraph(t[f])) && forall k :: k in JobGraph(t[f]) <==> k in t[f].jobs.Keys
  {
    assert WellFormedWorkflow(t, t[f]);
  }

  lemma {:induction false} FlatClosed(t: Topology, f: File)
    requires WellFormed(t) && f in t
    ensures Closed(FlatGraph(t, f))
  {
    forall a, b | a in FlatGraph(t, f) && b in FlatGraph(t, f)[a] ensures b in FlatGraph(t, f) {
      EdgeJoinsNodes(t, f, a, b);
    }
  }

  // ----- ids as lists

  lemma {:induction false} HeadAndTail(id: Id)
    requires |id| > 0
    ensures id == [id[0]] + id[1..]
  {
  }

  lemma {:induction false} TailOf(k: Key, rest: Id)
    ensures ([k] + rest)[0] == k && ([k] + rest)[1..] == rest
  {
  }

  lemma {:induction false} HeadOfSum(at: Id, a: Id)
    requires |at| > 0
    ensures at + a == [at[0]] + (at[1..] + a)
  {
  }

  // ----- a flat path never climbs: it follows `needs` between jobs

  lemma {:induction false} NeedIsEdge(w: Workflow, k: Key)
    requires k in w.jobs && w.jobs[k].needs != []
    ensures JobGraph(w)[k] != iset{}
  {
    assert w.jobs[k].needs[0] in JobGraph(w)[k];
  }

  lemma {:induction false} EdgeFollowsNeeds(t: Topology, f: File, a: Id, b: Id)
    requires WellFormed(t) && f in t && Edge(t, f, a, b)
    ensures |a| > 0 && |b| > 0 && a[0] in t[f].jobs && b[0] in t[f].jobs
    ensures a[0] == b[0] || b[0] in t[f].jobs[a[0]].needs
  {
    assert Inner(t, f, a, b) || Across(t, f, a, b);
  }

  lemma {:induction false} PathFollowsNeeds(t: Topology, f: File, p: seq<Id>)
    requires WellFormed(t) && f in t && IsPath(FlatGraph(t, f), p)
    ensures p[0][0] == p[|p| - 1][0] || Reaches(JobGraph(t[f]), p[0][0], p[|p| - 1][0])
  {
    if |p| > 1 {
      PathFollowsNeeds(t, f, p[1..]);
      var g, x, y, z := JobGraph(t[f]), p[0][0], p[1][0], p[|p| - 1][0];
      EdgeFollowsNeeds(t, f, p[0], p[1]);
      if x != y {
        EdgeReaches(g, x, y);
        if y != z {
          ReachesTransitive(g, x, y, z);
        }
      }
    }
  }

  /** In an acyclic workflow a path that starts and ends in one job never leaves it. */
  lemma {:induction false} PathStaysInside(t: Topology, f: File, p: seq<Id>, i: nat)
    requires WellFormed(t) && f in t && IsPath(FlatGraph(t, f), p)
    requires !HasCycle(JobGraph(t[f])) && p[0][0] == p[|p| - 1][0] && i < |p|
    ensures p[i][0] == p[0][0]
  {
    PathPrefix(FlatGraph(t, f), p, i + 1);
    PathDrop(FlatGraph(t, f), p, i);
    PathFollowsNeeds(t, f, p[..i + 1]);
    PathFollowsNeeds(t, f, p[i..]);
    if p[i][0] != p[0][0] {
      ReachesTransitive(JobGraph(t[f]), p[0][0], p[i][0], p[0][0]);
    }
  }

  function Tails(p: seq<Id>): seq<Id>
    requires forall i :: 0 <= i < |p| ==> |p[i]| > 0
  {
    seq(|p|, i requires 0 <= i < |p| => p[i][1..])
  }

  function Heads(k: Key, p: seq<Id>): seq<Id> {
    seq(|p|, i requires 0 <= i < |p| => [k] + p[i])
  }

  lemma {:induction false} TailsStep(p: seq<Id>)
    requires |p| > 0 && forall i :: 0 <= i < |p| ==> |p[i]| > 0
    ensures Tails(p)[1..] == Tails(p[1..])
  {
  }

  lemma {:induction false} EdgeLowers(t: Topology, f: File, a: Id, b: Id, k: Key)
    requires WellFormed(t) && f in t && Edge(t, f, a, b) && |a| > 0 && |b| > 0 && a[0] == b[0] == k
    requires k in t[f].jobs && k !in t[f].jobs[k].needs
    ensures t[f].jobs[k].called.Local? && t[f].jobs[k].called.file in t
    ensures Edge(t, t[f].jobs[k].called.file, a[1..], b[1..])
    ensures IsNode(t, t[f].jobs[k].called.file, a[1..]) && IsNode(t, t[f].jobs[k].called.file, b[1..])
  {
    assert Inner(t, f, a, b);
    EdgeJoinsNodes(t, t[f].jobs[k].called.file, a[1..], b[1..]);
  }

  /** A path inside one job is a path of the workflow that job calls. */
  lemma {:induction false} PathLowers(t: Topology, f: File, p: seq<Id>, k: Key)
    requires WellFormed(t) && f in t && IsPath(FlatGraph(t, f), p) && |p| > 1
    requires forall i :: 0 <= i < |p| ==> p[i][0] == k
    requires k in t[f].jobs && k !in t[f].jobs[k].needs
    ensures t[f].jobs[k].called.Local? && t[f].jobs[k].called.file in t
    ensures IsPath(FlatGraph(t, t[f].jobs[k].called.file), Tails(p))
  {
    EdgeLowers(t, f, p[0], p[1], k);
    TailsStep(p);
    if |p| > 2 {
      PathLowers(t, f, p[1..], k);
    } else {
      assert Tails(p[1..]) == [p[1][1..]];
    }
  }

  lemma {:induction false} PathLifts(t: Topology, f: File, p: seq<Id>, k: Key)
    requires WellFormed(t) && f in t && k in t[f].jobs && t[f].jobs[k].called.Local?
    requires t[f].jobs[k].called.file in t && IsPath(FlatGraph(t, t[f].jobs[k].called.file), p)
    ensures IsPath(FlatGraph(t, f), Heads(k, p))
  {
    NodeLifts(t, f, p[0], k);
    HeadsStep(k, p);
    if |p| > 1 {
      EdgeLifts(t, f, p[0], p[1], k);
      PathLifts(t, f, p[1..], k);
    }
  }

  lemma {:induction false} HeadsStep(k: Key, p: seq<Id>)
    requires |p| > 0
    ensures Heads(k, p)[0] == [k] + p[0] && Heads(k, p)[1..] == Heads(k, p[1..])
  {
  }

  lemma {:induction false} NodeLifts(t: Topology, f: File, a: Id, k: Key)
    requires WellFormed(t) && f in t && k in t[f].jobs && t[f].jobs[k].called.Local?
    requires t[f].jobs[k].called.file in t && IsNode(t, t[f].jobs[k].called.file, a)
    ensures IsNode(t, f, [k] + a)
  {
    TailOf(k, a);
  }

  lemma {:induction false} EdgeLifts(t: Topology, f: File, a: Id, b: Id, k: Key)
    requires WellFormed(t) && f in t && k in t[f].jobs && t[f].jobs[k].called.Local?
    requires t[f].jobs[k].called.file in t && Edge(t, t[f].jobs[k].called.file, a, b)
    ensures Edge(t, f, [k] + a, [k] + b)
  {
    TailOf(k, a);
    TailOf(k, b);
    assert Inner(t, f, [k] + a, [k] + b);
  }

  /** `a` is `b`, or needs it transitively. */
  ghost predicate ReachesOrIs<N(!new)>(g: Graph<N>, a: N, b: N) {
    a == b || Reaches(g, a, b)
  }

  lemma {:induction false} Chain<N(!new)>(g: Graph<N>, a: N, b: N, c: N)
    requires ReachesOrIs(g, a, b) && ReachesOrIs(g, b, c)
    ensures ReachesOrIs(g, a, c)
    ensures (a == b && b == c) || Reaches(g, a, c)
  {
    if a != b && b != c {
      ReachesTransitive(g, a, b, c);
    }
  }

  lemma {:induction false} ReachLifts(t: Topology, f: File, k: Key, a: Id, b: Id)
    requires WellFormed(t) && f in t && k in t[f].jobs && t[f].jobs[k].called.Local?
    requires t[f].jobs[k].called.file in t
    requires ReachesOrIs(FlatGraph(t, t[f].jobs[k].called.file), a, b)
    ensures ReachesOrIs(FlatGraph(t, f), [k] + a, [k] + b)
  {
    if a != b {
      var p :| Connects(FlatGraph(t, t[f].jobs[k].called.file), p, a, b);
      PathLifts(t, f, p, k);
      assert Connects(FlatGraph(t, f), Heads(k, p), [k] + a, [k] + b);
    }
  }

  // ----- every node leads to an entry and hangs below an exit

  lemma {:induction false} NodeExists(t: Topology, rank: map<File, nat>, f: File, k: Key) returns (rest: Id)
    requires WellFormed(t) && Ranked(t, rank) && f in t && k in t[f].jobs
    ensures InGroup(t, f, k, rest) && IsNode(t, f, [k] + rest)
    decreases rank[f]
  {
    if t[f].jobs[k].called.Local? {
      var sub := t[f].jobs[k].called.file;
      assert WellFormedWorkflow(t, t[f]) && WellFormedWorkflow(t, t[sub]);
      var k' := t[sub].keys[0];
      assert k' in t[sub].keys;
      var rest' := NodeExists(t, rank, sub, k');
      rest := [k'] + rest';
    } else {
      rest := [];
    }
    TailOf(k, rest);
  }

  /** Inside the group of one job, whose callees are acyclic. */
  lemma {:induction false} GroupToEntry(t: Topology, rank: map<File, nat>, f: File, k: Key, rest: Id) returns (e: Id)
    requires WellFormed(t) && Ranked(t, rank) && f in t && k in t[f].jobs && InGroup(t, f, k, rest)
    requires CalleesAcyclic(t, rank, f)
    ensures GroupEntry(t, f, k, e) && ReachesOrIs(FlatGraph(t, f), [k] + rest, [k] + e)
    decreases rank[f], 0
  {
    if t[f].jobs[k].called.Local? {
      assert WellFormedWorkflow(t, t[f]);
      e := ToEntry(t, rank, t[f].jobs[k].called.file, rest);
      ReachLifts(t, f, k, rest, e);
    } else {
      e := [];
    }
  }

  lemma {:induction false} GroupFromExit(t: Topology, rank: map<File, nat>, f: File, k: Key, rest: Id) returns (e: Id)
    requires WellFormed(t) && Ranked(t, rank) && f in t && k in t[f].jobs && InGroup(t, f, k, rest)
    requires CalleesAcyclic(t, rank, f)
    ensures GroupExit(t, f, k, e) && ReachesOrIs(FlatGraph(t, f), [k] + e, [k] + rest)
    decreases rank[f], 0
  {
    if t[f].jobs[k].called.Local? {
      assert WellFormedWorkflow(t, t[f]);
      e := FromExit(t, rank, t[f].jobs[k].called.file, rest);
      ReachLifts(t, f, k, e, rest);
    } else {
      e := [];
    }
  }

  /** A direct need between two jobs orders all their flat nodes. */
  lemma {:induction false} NeedOrdersGroups(t: Topology, rank: map<File, nat>, f: File, a: Id, b: Id)
    requires WellFormed(t) && Ranked(t, rank) && f in t && CalleesAcyclic(t, rank, f)
    requires IsNode(t, f, a) && IsNode(t, f, b) && b[0] in t[f].jobs[a[0]].needs
    ensures Reaches(FlatGraph(t, f), a, b)
    decreases rank[f], 1
  {
    var g := FlatGraph(t, f);
    var entry := GroupToEntry(t, rank, f, a[0], a[1..]);
    var exit := GroupFromExit(t, rank, f, b[0], b[1..]);
    var x, y := [a[0]] + entry, [b[0]] + exit;
    HeadAndTail(a);
    HeadAndTail(b);
    TailOf(a[0], entry);
    TailOf(b[0], exit);
    assert Edge(t, f, x, y);
    EdgeJoinsNodes(t, f, x, y);
    EdgeReaches(g, x, y);
    Chain(g, a, x, y);
    Chain(g, a, y, b);
  }

  /** A chain of needs between two jobs orders all their flat nodes. */
  lemma {:induction false} NeedsOrderGroups(t: Topology, rank: map<File, nat>, f: File, jobs: seq<Key>, a: Id, b: Id)
    requires WellFormed(t) && Ranked(t, rank) && f in t && CalleesAcyclic(t, rank, f)
    requires IsPath(JobGraph(t[f]), jobs) && |jobs| > 1
    requires IsNode(t, f, a) && IsNode(t, f, b) && a[0] == jobs[0] && b[0] == jobs[|jobs| - 1]
    ensures Reaches(FlatGraph(t, f), a, b)
    decreases rank[f], 2, |jobs|
  {
    if |jobs| == 2 {
      NeedOrdersGroups(t, rank, f, a, b);
    } else {
      var rest := NodeExists(t, rank, f, jobs[1]);
      var mid := [jobs[1]] + rest;
      NeedOrdersGroups(t, rank, f, a, mid);
      NeedsOrderGroups(t, rank, f, jobs[1..], mid, b);
      ReachesTransitive(FlatGraph(t, f), a, mid, b);
    }
  }

  lemma {:induction false} ToEntry(t: Topology, rank: map<File, nat>, f: File, a: Id) returns (e: Id)
    requires WellFormed(t) && Ranked(t, rank) && f in t && AllAcyclic(t, rank, f) && IsNode(t, f, a)
    ensures Entry(t, f, e) && ReachesOrIs(FlatGraph(t, f), a, e)
    decreases rank[f], 3
  {
    JobGraphClosed(t, f);
    var jobs := SinkBelow(JobGraph(t[f]), t[f].jobs.Keys, [a[0]]);
    var k := jobs[|jobs| - 1];
    if t[f].jobs[k].needs != [] {
      NeedIsEdge(t[f], k);
    }
    var rest := a[1..];
    if |jobs| > 1 {
      rest := NodeExists(t, rank, f, k);
    }
    var entry := GroupToEntry(t, rank, f, k, rest);
    e := [k] + entry;
    TailOf(k, entry);
    if |jobs| > 1 {
      TailOf(k, rest);
      NeedsOrderGroups(t, rank, f, jobs, a, [k] + rest);
    } else {
      HeadAndTail(a);
    }
    Chain(FlatGraph(t, f), a, [k] + rest, e);
  }

  lemma {:induction false} FromExit(t: Topology, rank: map<File, nat>, f: File, b: Id) returns (e: Id)
    requires WellFormed(t) && Ranked(t, rank) && f in t && AllAcyclic(t, rank, f) && IsNode(t, f, b)
    ensures Exit(t, f, e) && ReachesOrIs(FlatGraph(t, f), e, b)
    decreases rank[f], 3
  {
    JobGraphClosed(t, f);
    var jobs := SourceAbove(JobGraph(t[f]), t[f].jobs.Keys, [b[0]]);
    var k := jobs[0];
    assert !DependedOn(t[f], k) by {
      if j :| j in t[f].jobs && k in t[f].jobs[j].needs {
        assert k in JobGraph(t[f])[j];
      }
    }
    var rest := b[1..];
    if |jobs| > 1 {
      rest := NodeExists(t, rank, f, k);
    }
    var exit := GroupFromExit(t, rank, f, k, rest);
    e := [k] + exit;
    TailOf(k, exit);
    if |jobs| > 1 {
      TailOf(k, rest);
      NeedsOrderGroups(t, rank, f, jobs, [k] + rest, b);
    } else {
      HeadAndTail(b);
    }
    Chain(FlatGraph(t, f), e, [k] + rest, b);
  }

  // ----- main results

  /** The calls `at` lead from workflow `f` to workflow `w`. */
  ghost predicate RunsAt(t: Topology, f: File, at: Id, w: File)
    requires WellFormed(t) && f in t
    decreases |at|
  {
    if at == [] then w == f
    else at[0] in t[f].jobs && t[f].jobs[at[0]].called.Local? && RunsAt(t, t[f].jobs[at[0]].called.file, at[1..], w)
  }

  /** Two distinct jobs of one workflow, flattened directly. */
  lemma {:induction false} OrderPreservedHere(t: Topology, rank: map<File, nat>, f: File, a: Id, b: Id)
    requires WellFormed(t) && Ranked(t, rank) && f in t && AllAcyclic(t, rank, f)
    requires IsNode(t, f, a) && IsNode(t, f, b) && a[0] != b[0]
    ensures Reaches(FlatGraph(t, f), a, b) <==> Reaches(JobGraph(t[f]), a[0], b[0])
  {
    if Reaches(FlatGraph(t, f), a, b) {
      var p :| Connects(FlatGraph(t, f), p, a, b);
      PathFollowsNeeds(t, f, p);
    }
    if Reaches(JobGraph(t[f]), a[0], b[0]) {
      var jobs :| Connects(JobGraph(t[f]), jobs, a[0], b[0]);
      NeedsOrderGroups(t, rank, f, jobs, a, b);
    }
  }

  /** Reachability inside one called workflow is the same before and after the call. */
  lemma {:induction false} CallKeepsOrder(t: Topology, rank: map<File, nat>, f: File, k: Key, a: Id, b: Id)
    requires WellFormed(t) && Ranked(t, rank) && f in t && AllAcyclic(t, rank, f)
    requires k in t[f].jobs && t[f].jobs[k].called.Local? && t[f].jobs[k].called.file in t
    ensures Reaches(FlatGraph(t, f), [k] + a, [k] + b) <==> Reaches(FlatGraph(t, t[f].jobs[k].called.file), a, b)
  {
    var g, sub := FlatGraph(t, f), t[f].jobs[k].called.file;
    if Reaches(FlatGraph(t, sub), a, b) {
      var p :| Connects(FlatGraph(t, sub), p, a, b);
      PathLifts(t, f, p, k);
      assert Connects(g, Heads(k, p), [k] + a, [k] + b);
    }
    if Reaches(g, [k] + a, [k] + b) {
      var p :| Connects(g, p, [k] + a, [k] + b);
      forall i | 0 <= i < |p| ensures p[i][0] == k {
        PathStaysInside(t, f, p, i);
      }
      NoSelfNeed(t, f, k);
      PathLowers(t, f, p, k);
      TailOf(k, a);
      TailOf(k, b);
      assert Connects(FlatGraph(t, sub), Tails(p), a, b);
    }
  }

  lemma {:induction false} NoSelfNeed(t: Topology, f: File, k: Key)
    requires WellFormed(t) && f in t && k in t[f].jobs && !HasCycle(JobGraph(t[f]))
    ensures k !in t[f].jobs[k].needs
  {
    if k in t[f].jobs[k].needs {
      EdgeReaches(JobGraph(t[f]), k, k);
    }
  }

  lemma {:induction false} RunsAcyclic(t: Topology, rank: map<File, nat>, f: File, at: Id, w: File)
    requires WellFormed(t) && Ranked(t, rank) && f in t && AllAcyclic(t, rank, f) && RunsAt(t, f, at, w)
    ensures w in t && AllAcyclic(t, rank, w)
    decreases |at|
  {
    if at != [] {
      RunsAcyclic(t, rank, t[f].jobs[at[0]].called.file, at[1..], w);
    }
  }

  /** The same through any number of nested calls. */
  lemma {:induction false} CallsKeepOrder(t: Topology, rank: map<File, nat>, f: File, at: Id, w: File, a: Id, b: Id)
    requires WellFormed(t) && Ranked(t, rank) && f in t && AllAcyclic(t, rank, f)
    requires RunsAt(t, f, at, w) && w in t
    ensures Reaches(FlatGraph(t, f), at + a, at + b) <==> Reaches(FlatGraph(t, w), a, b)
    decreases |at|
  {
    if at == [] {
      assert at + a == a && at + b == b;
    } else {
      var a', b' := at[1..] + a, at[1..] + b;
      HeadOfSum(at, a);
      HeadOfSum(at, b);
      CallsKeepOrder(t, rank, t[f].jobs[at[0]].called.file, at[1..], w, a, b);
      CallKeepsOrder(t, rank, f, at[0], a', b');
    }
  }

  /** Flattening preserves order exactly, at any nesting depth: a flat node of job
      `B` is an ancestor of a flat node of job `A` if and only if `A` transitively
      needs `B` in their common workflow. */
  lemma {:induction false} OrderPreserved(t: Topology, rank: map<File, nat>, f: File, at: Id, w: File, a: Id, b: Id)
    requires WellFormed(t) && Ranked(t, rank) && f in t && AllAcyclic(t, rank, f)
    requires RunsAt(t, f, at, w) && w in t
    requires IsNode(t, w, a) && IsNode(t, w, b) && a[0] != b[0]
    ensures Reaches(FlatGraph(t, f), at + a, at + b) <==> Reaches(JobGraph(t[w]), a[0], b[0])
  {
    RunsAcyclic(t, rank, f, at, w);
    CallsKeepOrder(t, rank, f, at, w, a, b);
    OrderPreservedHere(t, rank, w, a, b);
  }

  lemma {:induction false} AcyclicFlattens(t: Topology, rank: map<File, nat>, f: File, a: Id)
    requires WellFormed(t) && Ranked(t, rank) && f in t && AllAcyclic(t, rank, f)
    ensures !Reaches(FlatGraph(t, f), a, a)
    decreases rank[f]
  {
    if p :| Connects(FlatGraph(t, f), p, a, a) {
      var k := a[0];
      forall i | 0 <= i < |p| ensures p[i][0] == k {
        PathStaysInside(t, f, p, i);
      }
      NoSelfNeed(t, f, k);
      PathLowers(t, f, p, k);
      AcyclicFlattens(t, rank, t[f].jobs[k].called.file, a[1..]);
      HeadAndTail(a);
      CallKeepsOrder(t, rank, f, k, a[1..], a[1..]);
    }
  }

  lemma {:induction false} CyclicFlattens(t: Topology, rank: map<File, nat>, f: File) returns (a: Id)
    requires WellFormed(t) && Ranked(t, rank) && f in t && !AllAcyclic(t, rank, f)
    ensures Reaches(FlatGraph(t, f), a, a)
    decreases rank[f]
  {
    assert WellFormedWorkflow(t, t[f]);
    if k :| k in t[f].jobs && t[f].jobs[k].called.Local? && !AllAcyclic(t, rank, t[f].jobs[k].called.file) {
      var sub := t[f].jobs[k].called.file;
      var inner := CyclicFlattens(t, rank, sub);
      var p :| Connects(FlatGraph(t, sub), p, inner, inner);
      PathLifts(t, f, p, k);
      a := [k] + inner;
      assert Connects(FlatGraph(t, f), Heads(k, p), a, a);
    } else {
      var k :| Reaches(JobGraph(t[f]), k, k);
      var jobs :| Connects(JobGraph(t[f]), jobs, k, k);
      var rest := NodeExists(t, rank, f, k);
      a := [k] + rest;
      NeedsOrderGroups(t, rank, f, jobs, a, a);
    }
  }

  /** The flat graph is cyclic exactly when a workflow it runs has circular needs. */
  lemma {:induction false} FlatCycleIff(t: Topology, rank: map<File, nat>, f: File)
    requires WellFormed(t) && Ranked(t, rank) && f in t
    ensures HasCycle(FlatGraph(t, f)) <==> !AllAcyclic(t, rank, f)
  {
    if AllAcyclic(t, rank, f) {
      forall a ensures !Reaches(FlatGraph(t, f), a, a) {
        AcyclicFlattens(t, rank, f, a);
      }
    } else {
      var a := CyclicFlattens(t, rank, f);
    }
  }
}
