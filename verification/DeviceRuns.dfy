/** scripts/release/provision-linux-v4l2loopback.py: what is unloaded, recorded and exported
    in a run was read before from the genuine device. */
module DeviceRuns {
  import opened Options
  import opened LoopbackDevice

  /** At the `j`th event the job read this identity from a character device with the
      expected label, capabilities and numbers. */
  ghost predicate ReadAt(start: World, log: seq<Event>, j: nat, live: Live) {
    j < |log| && log[j].action == Observe(live) && Before(start, log, j).device == Some(Device(live, true, true))
  }

  ghost predicate ReadBefore(start: World, log: seq<Event>, i: nat, live: Live) {
    exists j :: 0 <= j < i && ReadAt(start, log, j, live)
  }

  /** The identity was read, and none was read between then and the `i`th event. */
  ghost predicate ReadLast(start: World, log: seq<Event>, i: nat, live: Live) {
    exists j :: 0 <= j < i && ReadAt(start, log, j, live) && forall k :: j < k < i && k < |log| ==> !log[k].action.Observe?
  }

  ghost predicate ReadTwiceBefore(start: World, log: seq<Event>, i: nat, live: Live) {
    exists j, k :: 0 <= j < k < i && ReadAt(start, log, j, live) && ReadAt(start, log, k, live)
  }

  /** Every identity observed so far was read, the last of them last. */
  ghost predicate ObservedRead(start: World, log: seq<Event>, i: nat)
    requires i <= |log|
  {
    var seen := Before(start, log, i).observed;
    && (forall k :: 0 <= k < |seen| ==> ReadBefore(start, log, i, seen[k]))
    && (seen != [] ==> ReadLast(start, log, i, seen[|seen| - 1]))
  }

  ghost predicate RecordRead(start: World, log: seq<Event>, i: nat, record: Option<Record>) {
    record.Some? && record.value.live.Some? ==> ReadBefore(start, log, i, record.value.live.value)
  }

  /** The identities in the state file and in the file staged beside it were read. */
  ghost predicate FilesRead(start: World, log: seq<Event>, i: nat)
    requires i <= |log|
  {
    RecordRead(start, log, i, Before(start, log, i).state) && RecordRead(start, log, i, Before(start, log, i).next)
  }

  /** Nothing was read, recorded, staged or exported yet. */
  ghost predicate Untouched(start: World) {
    start.observed == [] && start.state.None? && start.next.None? && !start.exported
  }

  lemma {:induction false} StillRead(start: World, log: seq<Event>, i: nat, live: Live)
    requires i < |log|
    ensures ReadBefore(start, log, i, live) ==> ReadBefore(start, log, i + 1, live)
    ensures ReadLast(start, log, i, live) && !log[i].action.Observe? ==> ReadLast(start, log, i + 1, live)
  {
  }

  lemma {:induction false} ReadNow(start: World, log: seq<Event>, i: nat, live: Live)
    requires i < |log| && LegalAt(start, log, i) && log[i].action == Observe(live)
    ensures ReadBefore(start, log, i + 1, live) && ReadLast(start, log, i + 1, live)
  {
    assert ReadAt(start, log, i, live);
  }

  lemma {:induction false} ObservedGrows(start: World, log: seq<Event>, i: nat)
    requires i < |log| && LegalAt(start, log, i)
    ensures Before(start, log, i + 1).observed ==
            Before(start, log, i).observed + if log[i].action.Observe? then [log[i].action.live] else []
  {
    var w, after := Before(start, log, i), log[i].after;
    assert Legal(w, log[i].action, after);
    assert w.observed + [] == w.observed;
  }

  lemma {:induction false} ObservedNext(start: World, log: seq<Event>, i: nat)
    requires i < |log| && LegalAt(start, log, i) && ObservedRead(start, log, i)
    ensures ObservedRead(start, log, i + 1)
  {
    var seen, after := Before(start, log, i).observed, Before(start, log, i + 1).observed;
    ObservedGrows(start, log, i);
    if log[i].action.Observe? {
      ReadNow(start, log, i, log[i].action.live);
    }
    forall k | 0 <= k < |seen| ensures ReadBefore(start, log, i + 1, seen[k]) {
      StillRead(start, log, i, seen[k]);
    }
    if seen != [] {
      StillRead(start, log, i, seen[|seen| - 1]);
    }
  }

  lemma {:induction false} RecordStays(start: World, log: seq<Event>, i: nat, record: Option<Record>)
    requires i < |log| && RecordRead(start, log, i, record)
    ensures RecordRead(start, log, i + 1, record)
  {
  }

  lemma {:induction false} FilesNext(start: World, log: seq<Event>, i: nat)
    requires i < |log| && LegalAt(start, log, i) && ObservedRead(start, log, i) && FilesRead(start, log, i)
    ensures FilesRead(start, log, i + 1)
  {
    var w, after := Before(start, log, i), Before(start, log, i + 1);
    var a := log[i].action;
    assert Legal(w, a, after);
    RecordStays(start, log, i, w.state);
    RecordStays(start, log, i, w.next);
    if a.Stage? {
      RecordStays(start, log, i, Some(a.record));
    }
  }

  lemma {:induction false} AlwaysRead(start: World, log: seq<Event>, i: nat)
    requires Untouched(start) && Legible(start, log) && i <= |log|
    ensures ObservedRead(start, log, i) && FilesRead(start, log, i)
  {
    if i > 0 {
      AlwaysRead(start, log, i - 1);
      assert LegalAt(start, log, i - 1);
      ObservedNext(start, log, i - 1);
      FilesNext(start, log, i - 1);
    }
  }

  /** Whatever identity the state file holds was read from the genuine device. */
  lemma {:induction false} RecordsWereRead(start: World, log: seq<Event>, i: nat)
    requires Untouched(start) && Legible(start, log) && i <= |log|
    requires Before(start, log, i).state.Some? && Before(start, log, i).state.value.live.Some?
    ensures ReadBefore(start, log, i, Before(start, log, i).state.value.live.value)
  {
    AlwaysRead(start, log, i);
  }

  /** The module is unloaded only on the identity read last, which is the recorded one, or
      before the record is active one that was read twice. */
  lemma {:induction false} UnloadsWereRead(start: World, log: seq<Event>, i: nat)
    requires Untouched(start) && Legible(start, log) && i < |log| && log[i].action.Unload?
    ensures ReadLast(start, log, i, log[i].action.live)
    ensures Before(start, log, i).state.Some?
    ensures var record := Before(start, log, i).state.value;
            record.live == Some(log[i].action.live) || (!record.phase.Active? && ReadTwiceBefore(start, log, i, log[i].action.live))
    ensures log[i].after.kernel.Absent? && log[i].after.device.None? && log[i].after.state == Before(start, log, i).state
  {
    AlwaysRead(start, log, i);
    assert LegalAt(start, log, i);
    var w, live := Before(start, log, i), log[i].action.live;
    if w.state.value.live != Some(live) {
      var k :| 0 <= k < |w.observed| - 1 && w.observed[k] == live;
      TwoReads(start, log, i, k, |w.observed| - 1);
    }
  }

  /** Two identities observed one after the other are two reads. */
  lemma {:induction false} TwoReads(start: World, log: seq<Event>, i: nat, a: nat, b: nat)
    requires start.observed == [] && Legible(start, log) && i <= |log|
    requires a < b < |Before(start, log, i).observed| && Before(start, log, i).observed[a] == Before(start, log, i).observed[b]
    ensures ReadTwiceBefore(start, log, i, Before(start, log, i).observed[a])
  {
    var j := ReadOf(start, log, i, a);
    var k := ReadOf(start, log, i, b);
    assert j < k;
  }

  /** The event that observed the `a`th identity, before which as many had been. */
  lemma {:induction false} ReadOf(start: World, log: seq<Event>, i: nat, a: nat) returns (j: nat)
    requires start.observed == [] && Legible(start, log) && i <= |log| && a < |Before(start, log, i).observed|
    ensures j < i && ReadAt(start, log, j, Before(start, log, i).observed[a])
    ensures |Before(start, log, j).observed| == a && forall m :: j < m <= i ==> |Before(start, log, m).observed| > a
  {
    assert LegalAt(start, log, i - 1);
    if |Before(start, log, i - 1).observed| > a {
      j := ReadOf(start, log, i - 1, a);
    } else {
      j := i - 1;
    }
  }

  /** The location is exported only with an active record of the identity read last. */
  lemma {:induction false} ExportsWereActive(start: World, log: seq<Event>, n: nat) returns (i: nat)
    requires Untouched(start) && Legible(start, log) && n <= |log| && Before(start, log, n).exported
    ensures i < n && log[i].action.Export? && Before(start, log, i).state.Some?
    ensures var record := Before(start, log, i).state.value;
            record.phase.Active? && record.live.Some? && ReadLast(start, log, i, record.live.value)
  {
    assert LegalAt(start, log, n - 1);
    if Before(start, log, n - 1).exported {
      i := ExportsWereActive(start, log, n - 1);
    } else {
      i := n - 1;
      AlwaysRead(start, log, i);
    }
  }
}
