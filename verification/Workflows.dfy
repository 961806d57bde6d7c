/** scripts/ci/metrics.py: `expand`, which flattens nested reusable workflows into
    one dependency graph. This module says what the flat graph is: which ids are
    nodes, entries and exits, and which flat node needs which. */
module Workflows {
  import opened Digraph
  import JobDependencies
  import Slashes

  type Key = string
  type File = string
  type Id = seq<Key>

  /** `called` is the local reusable workflow a job runs instead of steps. */
  datatype Job = Job(name: string, needs: seq<Key>, called: Called)
  datatype Called = Steps | Local(file: File)

  /** The `jobs` mapping of one workflow, keys in document order. */
  datatype Workflow = Workflow(keys: seq<Key>, jobs: map<Key, Job>)

  type Topology = map<File, Workflow>

  ghost predicate WellFormedWorkflow(t: Topology, w: Workflow) {
    && w.keys != [] && Distinct(w.keys)
    && (forall k :: k in w.keys <==> k in w.jobs)
    && (forall k, m :: k in w.jobs && m in w.jobs[k].needs ==> m in w.jobs)
    && (forall k :: k in w.jobs && w.jobs[k].called.Local? ==> w.jobs[k].called.file in t)
  }

  /** No empty workflow, every need is a job of its workflow, every called file exists. */
  ghost predicate WellFormed(t: Topology) {
    forall f :: f in t ==> WellFormedWorkflow(t, t[f])
  }

  ghost function JobGraph(w: Workflow): Graph<Key> {
    imap k | k in w.jobs :: iset m | m in w.jobs[k].needs
  }

  /** A calling order of the files: callees rank below their callers. */
  ghost predicate Ranked(t: Topology, rank: map<File, nat>) {
    && t.Keys <= rank.Keys
    && forall f, k :: f in t && k in t[f].jobs && t[f].jobs[k].called.Local?
                      ==> t[f].jobs[k].called.file in rank && rank[t[f].jobs[k].called.file] < rank[f]
  }

  // ----- the flat graph, relative to one workflow

  /** `id` names a job with steps, through zero or more calls. */
  ghost predicate IsNode(t: Topology, f: File, id: Id)
    requires WellFormed(t) && f in t
    decreases |id|
  {
    && |id| > 0 && id[0] in t[f].jobs
    && match t[f].jobs[id[0]].called
       case Steps => |id| == 1
       case Local(sub) => IsNode(t, sub, id[1..])
  }

  /** The rest of an id that starts with job `k`. */
  ghost predicate InGroup(t: Topology, f: File, k: Key, rest: Id)
    requires WellFormed(t) && f in t && k in t[f].jobs
  {
    match t[f].jobs[k].called
    case Steps => rest == []
    case Local(sub) => IsNode(t, sub, rest)
  }

  ghost predicate DependedOn(w: Workflow, k: Key) {
    exists j :: j in w.jobs && k in w.jobs[j].needs
  }

  /** A node that waits for nothing inside this workflow. */
  ghost predicate Entry(t: Topology, f: File, id: Id)
    requires WellFormed(t) && f in t
    decreases |id|
  {
    && |id| > 0 && id[0] in t[f].jobs && t[f].jobs[id[0]].needs == []
    && match t[f].jobs[id[0]].called
       case Steps => |id| == 1
       case Local(sub) => Entry(t, sub, id[1..])
  }

  /** A node nothing inside this workflow waits for. */
  ghost predicate Exit(t: Topology, f: File, id: Id)
    requires WellFormed(t) && f in t
    decreases |id|
  {
    && |id| > 0 && id[0] in t[f].jobs && !DependedOn(t[f], id[0])
    && match t[f].jobs[id[0]].called
       case Steps => |id| == 1
       case Local(sub) => Exit(t, sub, id[1..])
  }

  ghost predicate GroupEntry(t: Topology, f: File, k: Key, rest: Id)
    requires WellFormed(t) && f in t && k in t[f].jobs
  {
    match t[f].jobs[k].called
    case Steps => rest == []
    case Local(sub) => Entry(t, sub, rest)
  }

  ghost predicate GroupExit(t: Topology, f: File, k: Key, rest: Id)
    requires WellFormed(t) && f in t && k in t[f].jobs
  {
    match t[f].jobs[k].called
    case Steps => rest == []
    case Local(sub) => Exit(t, sub, rest)
  }

  /** An edge inside the group of one job. */
  ghost predicate Inner(t: Topology, f: File, a: Id, b: Id)
    requires WellFormed(t) && f in t
    decreases |a|, 0
  {
    && |a| > 0 && |b| > 0 && a[0] == b[0] && a[0] in t[f].jobs
    && t[f].jobs[a[0]].called.Local?
    && Edge(t, t[f].jobs[a[0]].called.file, a[1..], b[1..])
  }

  /** An edge from the entries of one job to the exits of another. */
  ghost predicate Across(t: Topology, f: File, a: Id, b: Id)
    requires WellFormed(t) && f in t
  {
    && |a| > 0 && |b| > 0 && a[0] in t[f].jobs && b[0] in t[f].jobs
    && GroupEntry(t, f, a[0], a[1..]) && GroupExit(t, f, b[0], b[1..])
  }

  /** Flat node `a` needs flat node `b`. */
  ghost predicate Edge(t: Topology, f: File, a: Id, b: Id)
    requires WellFormed(t) && f in t
    decreases |a|, 1
  {
    || Inner(t, f, a, b)
    || (Across(t, f, a, b) && b[0] in t[f].jobs[a[0]].needs)
  }

  lemma {:induction false} EntryIsNode(t: Topology, f: File, id: Id)
    requires WellFormed(t) && f in t && Entry(t, f, id)
    ensures IsNode(t, f, id)
    decreases |id|
  {
    if t[f].jobs[id[0]].called.Local? {
      EntryIsNode(t, t[f].jobs[id[0]].called.file, id[1..]);
    }
  }

  lemma {:induction false} ExitIsNode(t: Topology, f: File, id: Id)
    requires WellFormed(t) && f in t && Exit(t, f, id)
    ensures IsNode(t, f, id)
    decreases |id|
  {
    if t[f].jobs[id[0]].called.Local? {
      ExitIsNode(t, t[f].jobs[id[0]].called.file, id[1..]);
    }
  }

  lemma {:induction false} EdgeJoinsNodes(t: Topology, f: File, a: Id, b: Id)
    requires WellFormed(t) && f in t && Edge(t, f, a, b)
    ensures IsNode(t, f, a) && IsNode(t, f, b)
    decreases |a|
  {
    if Inner(t, f, a, b) {
      EdgeJoinsNodes(t, t[f].jobs[a[0]].called.file, a[1..], b[1..]);
    } else {
      if t[f].jobs[a[0]].called.Local? {
        EntryIsNode(t, t[f].jobs[a[0]].called.file, a[1..]);
      }
      if t[f].jobs[b[0]].called.Local? {
        ExitIsNode(t, t[f].jobs[b[0]].called.file, b[1..]);
      }
    }
  }

  // ----- the call graph checked by scripts/ci/policy.py

  function Calls(w: Workflow, keys: seq<Key>): seq<File>
    requires forall k :: k in keys ==> k in w.jobs
  {
    if keys == [] then []
    else (match w.jobs[keys[0]].called
          case Steps => []
          case Local(sub) => [sub]) + Calls(w, keys[1..])
  }

  lemma {:induction false} CallsListed(w: Workflow, keys: seq<Key>, k: Key)
    requires forall j :: j in keys ==> j in w.jobs
    requires k in keys && w.jobs[k].called.Local?
    ensures w.jobs[k].called.file in Calls(w, keys)
  {
    if keys[0] != k {
      CallsListed(w, keys[1..], k);
    }
  }

  /** The reusable-workflow graph handed to `dependencies`, files in sorted order. */
  function CallGraph(t: Topology, files: seq<File>): JobDependencies.Jobs
    requires forall f, k :: f in t && k in t[f].keys ==> k in t[f].jobs
  {
    JobDependencies.Jobs(files, map f | f in t :: JobDependencies.Many(Calls(t[f], t[f].keys)))
  }

  lemma {:induction false} OnlyCallsListed(w: Workflow, keys: seq<Key>, g: File) returns (k: Key)
    requires forall j :: j in keys ==> j in w.jobs
    requires g in Calls(w, keys)
    ensures k in keys && w.jobs[k].called == Local(g)
  {
    k := keys[0];
    if w.jobs[k].called != Local(g) {
      k := OnlyCallsListed(w, keys[1..], g);
    }
  }

  /** A file names another in the call graph exactly when one of its jobs calls it. */
  lemma {:induction false} CallGraphNames(t: Topology, files: seq<File>, f: File, g: File)
    requires forall f :: f in t ==> forall k :: k in t[f].keys <==> k in t[f].jobs
    ensures JobDependencies.Names(CallGraph(t, files), f, g) <==> f in t && exists k :: k in t[f].jobs && t[f].jobs[k].called == Local(g)
  {
    if f in t {
      if k :| k in t[f].jobs && t[f].jobs[k].called == Local(g) {
        CallsListed(t[f], t[f].keys, k);
      }
      if g in Calls(t[f], t[f].keys) {
        var k := OnlyCallsListed(t[f], t[f].keys, g);
      }
    }
  }

  /** Acceptance of the call graph bounds the recursion of `expand`: ranks exist
      that fall at every call. */
  lemma {:induction false} AcceptanceRanksCalls(t: Topology, files: seq<File>, order: seq<File>) returns (rank: map<File, nat>)
    requires forall f :: f in t ==> forall k :: k in t[f].keys <==> k in t[f].jobs
    requires TopologicalOrder(JobDependencies.Needed(CallGraph(t, files)), order)
    ensures Ranked(t, rank)
  {
    var g := JobDependencies.Needed(CallGraph(t, files));
    rank := map f | f in t :: IndexOf(order, f);
    forall f, k | f in t && k in t[f].jobs && t[f].jobs[k].called.Local?
      ensures t[f].jobs[k].called.file in rank && rank[t[f].jobs[k].called.file] < rank[f]
    {
      CallGraphNames(t, files, f, t[f].jobs[k].called.file);
      NeedIsEarlier(g, order, f, t[f].jobs[k].called.file);
    }
  }

  // ----- node ids as the source spells them

  /** A flat id is kept in the source as `identity + key`, with "/" after every
      calling job. Keys without "/" make that spelling unambiguous, so no two flat
      nodes share a dictionary key. */
  lemma {:induction false} RenderedIdsDistinct(t: Topology, f: File, a: Id, b: Id)
    requires WellFormed(t) && f in t && IsNode(t, f, a) && IsNode(t, f, b)
    requires forall g, k :: g in t && k in t[g].jobs ==> '/' !in k
    requires Slashes.Join(a) == Slashes.Join(b)
    ensures a == b
  {
    KeysSlashFree(t, f, a);
    KeysSlashFree(t, f, b);
    Slashes.JoinInjective(a, b);
  }

  lemma {:induction false} KeysSlashFree(t: Topology, f: File, id: Id)
    requires WellFormed(t) && f in t && IsNode(t, f, id)
    requires forall g, k :: g in t && k in t[g].jobs ==> '/' !in k
    ensures Slashes.SlashFree(id)
    decreases |id|
  {
    if t[f].jobs[id[0]].called.Local? {
      KeysSlashFree(t, t[f].jobs[id[0]].called.file, id[1..]);
    }
    assert forall k :: k in id ==> k == id[0] || k in id[1..];
  }
}
