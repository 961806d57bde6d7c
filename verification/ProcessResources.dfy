/** scripts/profile/collect-macos-resources.py: which processes are sampled (`family`),
    and what the sampled counters add up to (`summarize`). */
module ProcessResources {
  import opened Options

  // ----- family

  /** A row of the process table: its parent, and whether its path is in the bundle. */
  datatype Entry = Entry(parent: int, inBundle: bool)
  type Table = map<int, Entry>

  ghost predicate HoldsBundle(t: Table, s: set<int>) {
    forall pid :: pid in t && t[pid].inBundle ==> pid in s
  }

  ghost predicate ClosedUnderChildren(t: Table, s: set<int>) {
    forall pid :: pid in t && t[pid].parent in s ==> pid in s
  }

  /** A line of descent: each process is the parent of the next one. */
  ghost predicate Lineage(t: Table, line: seq<int>) {
    && |line| > 0 && (forall i :: 0 <= i < |line| ==> line[i] in t)
    && t[line[0]].inBundle && forall i :: 0 < i < |line| ==> t[line[i]].parent == line[i - 1]
  }

  /** Every selected process descends from a bundle process. */
  ghost predicate AllDescend(t: Table, s: set<int>) {
    forall pid :: pid in s ==> Descends(t, pid)
  }

  ghost predicate Descends(t: Table, pid: int) {
    exists line :: Lineage(t, line) && line[|line| - 1] == pid
  }

  lemma {:induction false} ChildDescends(t: Table, pid: int)
    requires pid in t && (t[pid].inBundle || Descends(t, t[pid].parent))
    ensures Descends(t, pid)
  {
    if t[pid].inBundle {
      assert Lineage(t, [pid]);
    } else {
      var line :| Lineage(t, line) && line[|line| - 1] == t[pid].parent;
      var longer := line + [pid];
      assert Lineage(t, longer) && longer[|longer| - 1] == pid;
    }
  }

  /** Closure makes a set hold everything that descends from the bundle. */
  lemma {:induction false} DescendantsHeld(t: Table, s: set<int>, line: seq<int>, i: nat)
    requires HoldsBundle(t, s) && ClosedUnderChildren(t, s) && Lineage(t, line) && i < |line|
    ensures line[i] in s
    decreases i
  {
    var pid := line[i];
    if i > 0 {
      DescendantsHeld(t, s, line, i - 1);
      var parent := line[i - 1];
      assert t[pid].parent == parent && parent in s;
    }
    assert pid in s;
  }

  /** The least set that holds the bundle's processes and is closed under children: it
      is exactly the processes with a line of descent from the bundle. */
  method Family(t: Table, root: int) returns (r: Option<set<int>>)
    ensures r.Some? <==> root in t && t[root].inBundle
    ensures r.Some? ==> HoldsBundle(t, r.value) && ClosedUnderChildren(t, r.value)
    ensures r.Some? ==> forall s :: HoldsBundle(t, s) && ClosedUnderChildren(t, s) ==> r.value <= s
    ensures r.Some? ==> forall pid :: pid in r.value <==> Descends(t, pid)
  {
    if root !in t || !t[root].inBundle {
      return None;
    }
    var selected := set pid | pid in t && t[pid].inBundle;
    forall pid | pid in selected ensures Descends(t, pid) {
      ChildDescends(t, pid);
    }
    while true
      invariant selected <= t.Keys && HoldsBundle(t, selected) && AllDescend(t, selected)
      decreases t.Keys - selected
    {
      var children := set pid | pid in t && t[pid].parent in selected;
      if children <= selected {
        FamilyIsLeast(t, selected);
        return Some(selected);
      }
      forall pid | pid in children ensures Descends(t, pid) {
        ChildDescends(t, pid);
      }
      selected := selected + children;
    }
  }

  lemma {:induction false} FamilyIsLeast(t: Table, r: set<int>)
    requires HoldsBundle(t, r) && ClosedUnderChildren(t, r) && AllDescend(t, r)
    ensures forall pid :: pid in r <==> Descends(t, pid)
    ensures forall s :: HoldsBundle(t, s) && ClosedUnderChildren(t, s) ==> r <= s
  {
    forall s | HoldsBundle(t, s) && ClosedUnderChildren(t, s)
      ensures r <= s && forall pid :: Descends(t, pid) ==> pid in s
    {
      forall pid | Descends(t, pid) ensures pid in s {
        var line :| Lineage(t, line) && line[|line| - 1] == pid;
        DescendantsHeld(t, s, line, |line| - 1);
      }
      forall pid | pid in r ensures pid in s {
        assert Descends(t, pid);
      }
    }
  }

  // ----- summarize

  datatype Counter = UserTime | SystemTime | IdleWakeups | InterruptWakeups | BytesRead | BytesWritten

  /** A process keeps its identity across gaps; a reused pid gets another one. */
  datatype Identity = Identity(pid: int, started: int)
  datatype Process = Process(identity: Identity, counter: Counter -> int)

  function Positive(x: int): nat {
    if x > 0 then x else 0
  }

  /** The last and the first of the first `n` observations of an identity. */
  ghost function Last(obs: seq<Process>, n: nat, id: Identity): Option<Process>
    requires n <= |obs|
  {
    if n == 0 then None else if obs[n - 1].identity == id then Some(obs[n - 1]) else Last(obs, n - 1, id)
  }

  ghost function First(obs: seq<Process>, n: nat, id: Identity): Option<Process>
    requires n <= |obs|
  {
    if n == 0 then None
    else if First(obs, n - 1, id).Some? then First(obs, n - 1, id)
    else if obs[n - 1].identity == id then Some(obs[n - 1])
    else None
  }

  /** By how much the `i`th observation changes the counter of its identity. */
  ghost function Change(obs: seq<Process>, i: nat, c: Counter): int
    requires i < |obs|
  {
    var before := Last(obs, i, obs[i].identity);
    if before.None? then 0 else obs[i].counter(c) - before.value.counter(c)
  }

  /** All increases, and all decreases, between successive observations. */
  ghost function Gained(obs: seq<Process>, n: nat, c: Counter): nat
    requires n <= |obs|
  {
    if n == 0 then 0 else Gained(obs, n - 1, c) + Positive(Change(obs, n - 1, c))
  }

  ghost function Lost(obs: seq<Process>, n: nat, c: Counter): nat
    requires n <= |obs|
  {
    if n == 0 then 0 else Lost(obs, n - 1, c) + Positive(-Change(obs, n - 1, c))
  }

  /** The identities observed, each once. */
  ghost function Identities(obs: seq<Process>, n: nat): seq<Identity>
    requires n <= |obs|
  {
    if n == 0 then []
    else if Last(obs, n - 1, obs[n - 1].identity).Some? then Identities(obs, n - 1)
    else Identities(obs, n - 1) + [obs[n - 1].identity]
  }

  /** Last minus first observation of one identity. */
  ghost function Net(obs: seq<Process>, n: nat, id: Identity, c: Counter): int
    requires n <= |obs|
  {
    if First(obs, n, id).None? || Last(obs, n, id).None? then 0
    else Last(obs, n, id).value.counter(c) - First(obs, n, id).value.counter(c)
  }

  ghost function NetSum(obs: seq<Process>, n: nat, ids: seq<Identity>, k: nat, c: Counter): int
    requires n <= |obs| && k <= |ids|
  {
    if k == 0 then 0 else NetSum(obs, n, ids, k - 1, c) + Net(obs, n, ids[k - 1], c)
  }

  ghost predicate AllDistinct(ids: seq<Identity>) {
    forall i, j :: 0 <= i < j < |ids| ==> ids[i] != ids[j]
  }

  lemma {:induction false} FirstIffLast(obs: seq<Process>, n: nat, id: Identity)
    requires n <= |obs|
    ensures First(obs, n, id).Some? <==> Last(obs, n, id).Some?
  {
    if n > 0 {
      FirstIffLast(obs, n - 1, id);
    }
  }

  lemma {:induction false} IdentitiesOnce(obs: seq<Process>, n: nat)
    requires n <= |obs|
    ensures AllDistinct(Identities(obs, n))
    ensures forall id :: id in Identities(obs, n) <==> Last(obs, n, id).Some?
  {
    if n > 0 {
      IdentitiesOnce(obs, n - 1);
    }
  }

  /** One more observation changes the net of its own identity only. */
  lemma {:induction false} NetStep(obs: seq<Process>, n: nat, id: Identity, c: Counter)
    requires n < |obs|
    ensures Net(obs, n + 1, id, c) == Net(obs, n, id, c) + if obs[n].identity == id then Change(obs, n, c) else 0
  {
    FirstIffLast(obs, n, id);
  }

  lemma {:induction false} NetSumStep(obs: seq<Process>, n: nat, ids: seq<Identity>, k: nat, c: Counter)
    requires n < |obs| && k <= |ids| && AllDistinct(ids)
    ensures NetSum(obs, n + 1, ids, k, c) == NetSum(obs, n, ids, k, c) + if obs[n].identity in ids[..k] then Change(obs, n, c) else 0
    decreases k
  {
    if k > 0 {
      NetSumStep(obs, n, ids, k - 1, c);
      NetStep(obs, n, ids[k - 1], c);
      assert ids[..k] == ids[..k - 1] + [ids[k - 1]];
    }
  }

  lemma {:induction false} NetSumPrefix(obs: seq<Process>, n: nat, ids: seq<Identity>, id: Identity, k: nat, c: Counter)
    requires n <= |obs| && k <= |ids|
    ensures NetSum(obs, n, ids + [id], k, c) == NetSum(obs, n, ids, k, c)
    decreases k
  {
    if k > 0 {
      NetSumPrefix(obs, n, ids, id, k - 1, c);
    }
  }

  /** For any appearance pattern: what was gained less what was lost is the sum over
      the identities of last minus first. */
  lemma {:induction false} GainsTelescope(obs: seq<Process>, n: nat, c: Counter)
    requires n <= |obs|
    ensures Gained(obs, n, c) - Lost(obs, n, c) == NetSum(obs, n, Identities(obs, n), |Identities(obs, n)|, c)
  {
    if n > 0 {
      var m := n - 1;
      var ids, id := Identities(obs, m), obs[m].identity;
      GainsTelescope(obs, m, c);
      IdentitiesOnce(obs, m);
      NetSumStep(obs, m, ids, |ids|, c);
      assert ids[..|ids|] == ids;
      if Last(obs, m, id).None? {
        NetSumPrefix(obs, n, ids, id, |ids|, c);
        NetStep(obs, m, id, c);
        FirstIffLast(obs, m, id);
      }
    }
  }

  /** No counter of any identity ever falls. */
  ghost predicate NeverFalls(obs: seq<Process>, n: nat, c: Counter)
    requires n <= |obs|
  {
    forall i :: 0 <= i < n ==> Change(obs, i, c) >= 0
  }

  lemma {:induction false} NothingLost(obs: seq<Process>, n: nat, c: Counter)
    requires n <= |obs|
    ensures Lost(obs, n, c) == 0 <==> NeverFalls(obs, n, c)
  {
    if n > 0 {
      NothingLost(obs, n - 1, c);
    }
  }

  // ----- the loops of summarize

  ghost function Flattened(samples: seq<seq<Process>>, n: nat): seq<Process>
    requires n <= |samples|
  {
    if n == 0 then [] else Flattened(samples, n - 1) + samples[n - 1]
  }

  ghost predicate Remembers(previous: map<Identity, Process>, obs: seq<Process>) {
    forall id :: Last(obs, |obs|, id) == if id in previous then Some(previous[id]) else None
  }

  lemma {:induction false} LastKept(obs: seq<Process>, p: Process, n: nat, id: Identity)
    requires n <= |obs|
    ensures Last(obs + [p], n, id) == Last(obs, n, id)
  {
    if n > 0 {
      LastKept(obs, p, n - 1, id);
    }
  }

  lemma {:induction false} GainedNext(obs: seq<Process>, p: Process, n: nat, c: Counter)
    requires n <= |obs|
    ensures Gained(obs + [p], n, c) == Gained(obs, n, c)
  {
    if n > 0 {
      GainedNext(obs, p, n - 1, c);
      LastKept(obs, p, n - 1, obs[n - 1].identity);
    }
  }

  ghost predicate Tallies(totals: map<Counter, int>, obs: seq<Process>) {
    forall c :: c in totals && totals[c] == Gained(obs, |obs|, c)
  }

  lemma {:induction false} Observed(totals: map<Counter, int>, previous: map<Identity, Process>, obs: seq<Process>, p: Process, after: map<Counter, int>)
    requires Tallies(totals, obs) && Remembers(previous, obs)
    requires forall c :: c in after && after[c] == totals[c] + if p.identity in previous then Positive(p.counter(c) - previous[p.identity].counter(c)) else 0
    ensures Tallies(after, obs + [p]) && Remembers(previous[p.identity := p], obs + [p])
  {
    var longer := obs + [p];
    forall id: Identity ensures Last(longer, |obs|, id) == Last(obs, |obs|, id) {
      LastKept(obs, p, |obs|, id);
    }
    forall c: Counter ensures after[c] == Gained(longer, |longer|, c) {
      GainedNext(obs, p, |obs|, c);
    }
  }

  /** The step for one sampled process. */
  method Observe(totals: map<Counter, int>, previous: map<Identity, Process>, ghost obs: seq<Process>, process: Process)
      returns (after: map<Counter, int>, latest: map<Identity, Process>)
    requires Tallies(totals, obs) && Remembers(previous, obs)
    ensures Tallies(after, obs + [process]) && Remembers(latest, obs + [process])
  {
    after := totals;
    if process.identity in previous {
      var before := previous[process.identity];
      after := map c: Counter :: totals[c] + Positive(process.counter(c) - before.counter(c));
    }
    latest := previous[process.identity := process];
    Observed(totals, previous, obs, process, after);
  }

  lemma {:induction false} FlattenedRow(samples: seq<seq<Process>>, r: nat, k: nat)
    requires r < |samples| && k <= |samples[r]|
    ensures k == 0 ==> Flattened(samples, r) + samples[r][..k] == Flattened(samples, r)
    ensures k < |samples[r]| ==> Flattened(samples, r) + samples[r][..k] + [samples[r][k]] == Flattened(samples, r) + samples[r][..k + 1]
    ensures k == |samples[r]| ==> Flattened(samples, r) + samples[r][..k] == Flattened(samples, r + 1)
  {
    assert samples[r][..|samples[r]|] == samples[r];
  }

  /** The deltas are the increases between successive observations of one identity;
      they equal the sum over identities of last minus first exactly when no counter
      ever falls. */
  method Summarize(samples: seq<seq<Process>>) returns (totals: map<Counter, int>)
    ensures Tallies(totals, Flattened(samples, |samples|))
    ensures var obs := Flattened(samples, |samples|);
            forall c :: NeverFalls(obs, |obs|, c) <==> totals[c] == NetSum(obs, |obs|, Identities(obs, |obs|), |Identities(obs, |obs|)|, c)
  {
    totals := map[UserTime := 0, SystemTime := 0, IdleWakeups := 0, InterruptWakeups := 0, BytesRead := 0, BytesWritten := 0];
    var previous: map<Identity, Process> := map[];
    forall c: Counter ensures c in totals && totals[c] == 0 {
      assert c == UserTime || c == SystemTime || c == IdleWakeups || c == InterruptWakeups || c == BytesRead || c == BytesWritten;
    }
    for r := 0 to |samples|
      invariant Tallies(totals, Flattened(samples, r)) && Remembers(previous, Flattened(samples, r))
    {
      FlattenedRow(samples, r, 0);
      for k := 0 to |samples[r]|
        invariant Tallies(totals, Flattened(samples, r) + samples[r][..k]) && Remembers(previous, Flattened(samples, r) + samples[r][..k])
      {
        totals, previous := Observe(totals, previous, Flattened(samples, r) + samples[r][..k], samples[r][k]);
        FlattenedRow(samples, r, k);
      }
      FlattenedRow(samples, r, |samples[r]|);
    }
    ghost var obs := Flattened(samples, |samples|);
    forall c: Counter ensures NeverFalls(obs, |obs|, c) <==> totals[c] == NetSum(obs, |obs|, Identities(obs, |obs|), |Identities(obs, |obs|)|, c) {
      GainsTelescope(obs, |obs|, c);
      NothingLost(obs, |obs|, c);
    }
  }
}
