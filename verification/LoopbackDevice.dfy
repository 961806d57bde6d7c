/** scripts/release/provision-linux-v4l2loopback.py: one owned loopback device, with
    failure possible at every step and other actors touching the device in between.
    Every effect is logged, so that claims range over whole runs and over every point
    at which a run may be killed. */
module LoopbackDevice {
  import opened Options

  /** Identity of the live device: numbers, ownership and permission bits. */
  datatype Live = Live(major: nat, minor: nat, uid: nat, gid: nat, mode: nat)

  /** `genuine`: the label, capabilities and numbers are the expected ones. */
  datatype Device = Device(live: Live, character: bool, genuine: bool)

  datatype Phase = Prepared | Loaded | Active

  datatype Record = Record(uid: nat, gid: nat, phase: Phase, live: Option<Live>)

  /** The kernel module: absent, loaded by someone else, loaded by this job, or loaded
      by a command of this job that reported failure. */
  datatype Kernel = Absent | Foreign | Ours | Unreported

  /** `state` is the state file and `next` the temporary file of a transition;
      `observed` are the identities this job has read, in order. */
  datatype World = World(kernel: Kernel, device: Option<Device>, state: Option<Record>, next: Option<Record>,
                         observed: seq<Live>, exported: bool)

  datatype Action =
    | Meddle
    | Prepare(record: Record)
    | Stage(record: Record)
    | Discard
    | Commit
    | Load(created: Option<Device>, reported: bool)
    | ChangeOwner(uid: nat, gid: nat)
    | ChangeMode(mode: nat)
    | Observe(live: Live)
    | Unload(live: Live)
    | Forget
    | Export

  const OWNER_ONLY: nat := 0x180 // 0600

  function Rank(p: Phase): nat {
    match p
    case Prepared => 0
    case Loaded => 1
    case Active => 2
  }

  ghost predicate LastObserved(w: World, live: Live) {
    |w.observed| > 0 && w.observed[|w.observed| - 1] == live
  }

  /** The identity read last is one read before it too. */
  ghost predicate SeenBefore(w: World, live: Live) {
    exists i :: 0 <= i < |w.observed| - 1 && w.observed[i] == live
  }

  ghost predicate Recorded(w: World, live: Live) {
    w.state.Some? && w.state.value.live == Some(live)
  }

  /** The module in the kernel was loaded by this job, whether or not it was told so. */
  ghost predicate ByJob(w: World) {
    w.kernel.Ours? || w.kernel.Unreported?
  }

  /** What each action does and when the design allows it. Others may reload, remove
      or replace the device, but cannot load it on behalf of this job. */
  ghost predicate Legal(before: World, a: Action, after: World) {
    match a
    case Meddle =>
      after == before.(kernel := after.kernel, device := after.device) && (ByJob(after) ==> after.kernel == before.kernel)
    case Prepare(record) =>
      before.state.None? && record.phase.Prepared? && record.live.None? && after == before.(state := Some(record))
    case Stage(record) =>
      before.next.None? && record.live.Some? && LastObserved(before, record.live.value) && after == before.(next := Some(record))
    case Discard =>
      after == before.(next := None)
    case Commit =>
      && before.state.Some? && before.next.Some? && after == before.(state := before.next, next := None)
      && Rank(before.next.value.phase) == Rank(before.state.value.phase) + 1
    case Load(created, reported) =>
      && before.state.Some? && before.state.value.phase.Prepared?
      && after == if before.kernel.Absent? then before.(kernel := if reported then Ours else Unreported, device := created) else before
    case ChangeOwner(uid, gid) =>
      before.device.Some? && after == before.(device := Some(before.device.value.(live := before.device.value.live.(uid := uid, gid := gid))))
    case ChangeMode(mode) =>
      before.device.Some? && after == before.(device := Some(before.device.value.(live := before.device.value.live.(mode := mode))))
    case Observe(live) =>
      before.device == Some(Device(live, true, true)) && after == before.(observed := before.observed + [live])
    case Unload(live) =>
      && before.state.Some? && after == before.(kernel := Absent, device := None)
      && LastObserved(before, live) && (Recorded(before, live) || (!before.state.value.phase.Active? && SeenBefore(before, live)))
    case Forget =>
      !before.kernel.Ours? && after == before.(state := None)
    case Export =>
      && before.state.Some? && before.state.value.phase.Active? && before.state.value.live.Some?
      && LastObserved(before, before.state.value.live.value) && after == before.(exported := true)
  }

  datatype Event = Event(action: Action, after: World)

  ghost function Before(start: World, log: seq<Event>, i: nat): World
    requires i <= |log|
  {
    if i == 0 then start else log[i - 1].after
  }

  ghost predicate Legible(start: World, log: seq<Event>) {
    forall i {:trigger LegalAt(start, log, i)} :: 0 <= i < |log| ==> LegalAt(start, log, i)
  }

  ghost predicate LegalAt(start: World, log: seq<Event>, i: nat)
    requires i < |log|
  {
    Legal(Before(start, log, i), log[i].action, log[i].after)
  }

  lemma {:induction false} LegibleExtends(start: World, log: seq<Event>, a: Action, after: World)
    requires Legible(start, log) && Legal(Before(start, log, |log|), a, after)
    ensures Legible(start, log + [Event(a, after)])
  {
    var longer := log + [Event(a, after)];
    forall i | 0 <= i < |longer|
      ensures LegalAt(start, longer, i)
    {
      assert Before(start, longer, i) == Before(start, log, i);
      if i < |log| {
        assert LegalAt(start, log, i);
      }
    }
  }

  /** A module this job loaded has a state file, unless loading it reported failure. */
  ghost predicate Safe(w: World) {
    ByJob(w) ==> w.state.Some? || w.kernel.Unreported?
  }

  ghost predicate Advances(before: World, after: World) {
    before.state.Some? && after.state.Some? ==>
      after.state == before.state || Rank(after.state.value.phase) == Rank(before.state.value.phase) + 1
  }

  lemma {:induction false} LegalKeepsSafe(before: World, a: Action, after: World)
    requires Safe(before) && Legal(before, a, after)
    ensures Safe(after) && Advances(before, after)
  {
  }

  /** At every point where the run may be cut off, a module it loaded is recorded; and
      phases only advance, one at a time. */
  lemma {:induction false} RunsStaySafe(start: World, log: seq<Event>, i: nat)
    requires Safe(start) && Legible(start, log) && i <= |log|
    ensures Safe(Before(start, log, i))
    ensures i < |log| ==> Advances(Before(start, log, i), log[i].after)
    decreases i
  {
    if i > 0 {
      RunsStaySafe(start, log, i - 1);
      assert LegalAt(start, log, i - 1);
      LegalKeepsSafe(Before(start, log, i - 1), log[i - 1].action, log[i - 1].after);
    }
    if i < |log| {
      assert LegalAt(start, log, i);
      LegalKeepsSafe(Before(start, log, i), log[i].action, log[i].after);
    }
  }

  /** A state is forgotten while the module it belongs to is loaded unreported. */
  ghost predicate Abandons(start: World, log: seq<Event>, i: nat)
    requires i < |log|
  {
    log[i].action.Forget? && Before(start, log, i).kernel.Unreported?
  }

  /** Every module this job loaded is recorded, at this point. */
  ghost predicate AllRecorded(w: World) {
    ByJob(w) ==> w.state.Some?
  }

  lemma {:induction false} RecordedStep(before: World, a: Action, after: World)
    requires Safe(before) && Legal(before, a, after) && AllRecorded(before)
    ensures AllRecorded(after) <==> !(a.Forget? && before.kernel.Unreported?)
  {
  }

  ghost predicate RecordedUpTo(start: World, log: seq<Event>, n: nat)
    requires n <= |log|
  {
    forall i :: 0 <= i <= n ==> AllRecorded(Before(start, log, i))
  }

  ghost predicate NoneAbandoned(start: World, log: seq<Event>, n: nat)
    requires n <= |log|
  {
    forall i :: 0 <= i < n ==> !Abandons(start, log, i)
  }

  /** The first `n` events leave every module of this job recorded throughout if and only
      if none of them forgets the state of one that was loaded unreported. */
  lemma {:induction false} RecordedIff(start: World, log: seq<Event>, n: nat)
    requires Safe(start) && !start.kernel.Unreported? && Legible(start, log) && n <= |log|
    ensures RecordedUpTo(start, log, n) <==> NoneAbandoned(start, log, n)
  {
    if n > 0 {
      var m := n - 1;
      RecordedIff(start, log, m);
      assert LegalAt(start, log, m);
      RunsStaySafe(start, log, m);
      assert RecordedUpTo(start, log, n) <==> RecordedUpTo(start, log, m) && AllRecorded(Before(start, log, n));
      assert NoneAbandoned(start, log, n) <==> NoneAbandoned(start, log, m) && !Abandons(start, log, m);
      if RecordedUpTo(start, log, m) {
        assert AllRecorded(Before(start, log, m));
        RecordedStep(Before(start, log, m), log[m].action, log[m].after);
      }
    }
  }

  /** No load reported failure and left the module loaded. */
  ghost predicate Truthful(log: seq<Event>) {
    forall i :: 0 <= i < |log| ==> !log[i].after.kernel.Unreported?
  }

  /** With loads that report truthfully, a module of this job is recorded at every point. */
  lemma {:induction false} TruthfulRunsRecorded(start: World, log: seq<Event>, i: nat)
    requires Safe(start) && !start.kernel.Unreported? && Legible(start, log) && Truthful(log) && i <= |log|
    ensures ByJob(Before(start, log, i)) ==> Before(start, log, i).state.Some?
  {
    forall k | 0 <= k < |log| ensures !Abandons(start, log, k) {
      assert k > 0 ==> !log[k - 1].after.kernel.Unreported?;
    }
    RecordedIff(start, log, |log|);
    assert AllRecorded(Before(start, log, i));
  }

  /** Between two points with the same state file present throughout, the phase never
      falls. */
  lemma {:induction false} PhasesNeverFall(start: World, log: seq<Event>, i: nat, j: nat)
    requires Safe(start) && Legible(start, log) && i <= j <= |log|
    requires forall k :: i <= k <= j ==> Before(start, log, k).state.Some?
    ensures Rank(Before(start, log, i).state.value.phase) <= Rank(Before(start, log, j).state.value.phase)
    decreases j
  {
    if i < j {
      PhasesNeverFall(start, log, i, j - 1);
      RunsStaySafe(start, log, j - 1);
      assert Before(start, log, j) == log[j - 1].after;
    }
  }

  /** Number of times the module was unloaded. */
  ghost function Unloads(log: seq<Event>): nat {
    if log == [] then 0 else Unloads(log[..|log| - 1]) + if log[|log| - 1].action.Unload? then 1 else 0
  }

  /** Number of times it was unloaded on an identity other than the recorded one. */
  ghost function Strays(start: World, log: seq<Event>): nat {
    if log == [] then 0
    else Strays(start, log[..|log| - 1]) + if Stray(Before(start, log, |log| - 1), log[|log| - 1].action) then 1 else 0
  }

  ghost predicate Stray(before: World, a: Action) {
    a.Unload? && !Recorded(before, a.live)
  }

  lemma {:induction false} CountsExtend(start: World, log: seq<Event>, e: Event)
    ensures Unloads(log + [e]) == Unloads(log) + if e.action.Unload? then 1 else 0
    ensures Strays(start, log + [e]) == Strays(start, log) + if Stray(Before(start, log, |log|), e.action) then 1 else 0
  {
    assert (log + [e])[..|log|] == log;
  }

  datatype Outcome = Done | Refused | Unwound | Stuck

  /** Read acceptance of a state file: this job's own record, complete for its phase. */
  predicate Readable(record: Record, uid: nat, gid: nat) {
    record.uid == uid && record.gid == gid && (record.phase.Prepared? <==> record.live.None?)
  }

  class Host {
    const uid: nat
    const gid: nat
    var world: World
    ghost const start: World
    ghost var log: seq<Event>

    ghost predicate Valid()
      reads this
    {
      && Safe(start) && Legible(start, log)
      && world == Before(start, log, |log|)
      && Safe(world)
    }

    constructor (uid: nat, gid: nat, found: World)
      requires Safe(found)
      ensures Valid() && world == found && start == found && log == [] && this.uid == uid && this.gid == gid
    {
      this.uid, this.gid := uid, gid;
      this.world, this.start, this.log := found, found, [];
    }

    /** Unloads so far, and those among them on an unrecorded identity. */
    ghost function Tally(): (nat, nat)
      reads this
    {
      (Unloads(log), Strays(start, log))
    }

    /** Carries out one legal action. */
    method Do(ghost a: Action, after: World)
      requires Valid() && Legal(world, a, after)
      modifies this
      ensures Valid() && world == after && log == old(log) + [Event(a, after)]
      ensures Tally().0 == old(Tally()).0 + if a.Unload? then 1 else 0
      ensures Tally().1 == old(Tally()).1 + if Stray(old(world), a) then 1 else 0
    {
      LegalKeepsSafe(world, a, after);
      CountsExtend(start, log, Event(a, after));
      LegibleExtends(start, log, a, after);
      log := log + [Event(a, after)];
      world := after;
    }

    /** Anyone else may reload, remove or replace the device. */
    method Others()
      requires Valid()
      modifies this
      ensures Valid() && Tally() == old(Tally())
      ensures world == old(world).(kernel := world.kernel, device := world.device)
      ensures ByJob(world) ==> world.kernel == old(world).kernel
    {
      var kernel: Kernel := *;
      var device: Option<Device> := *;
      Do(Meddle, world.(kernel := if kernel.Ours? || kernel.Unreported? then world.kernel else kernel, device := device));
    }

    method ReadLive() returns (live: Option<Live>)
      requires Valid()
      modifies this
      ensures Valid() && Tally() == old(Tally())
      ensures world == old(world).(kernel := world.kernel, device := world.device, observed := world.observed)
      ensures world.observed == old(world).observed + if live.Some? then [live.value] else []
      ensures ByJob(world) ==> world.kernel == old(world).kernel
    {
      Others();
      var readable: bool := *;
      if !readable || world.device.None? || !world.device.value.character || !world.device.value.genuine {
        return None;
      }
      live := Some(world.device.value.live);
      Do(Observe(live.value), world.(observed := world.observed + [live.value]));
    }

    /** A transition through a temporary file: the new record in full, or the old one. */
    method ReplaceState(record: Record) returns (ok: bool)
      requires Valid() && world.state.Some? && Rank(record.phase) == Rank(world.state.value.phase) + 1
      requires record.live.Some? && LastObserved(world, record.live.value)
      modifies this
      ensures Valid() && Tally() == old(Tally())
      ensures world == old(world).(kernel := world.kernel, device := world.device, state := world.state, next := world.next)
      ensures world.state == if ok then Some(record) else old(world).state
      ensures ByJob(world) ==> world.kernel == old(world).kernel
    {
      var written: bool, replaced: bool, removed: bool := *, *, *;
      if world.next.Some? || !written {
        return false;
      }
      Do(Stage(record), world.(next := Some(record)));
      Others();
      if replaced {
        Do(Commit, world.(state := world.next, next := None));
      } else if removed {
        Do(Discard, world.(next := None));
      }
      return replaced;
    }

    /** Unloads the module on an identity match only: against the identity in hand, or
        else the recorded one. Off the record exactly when those two differ. */
    method UnloadModule(expected: Option<Live>) returns (ok: bool)
      requires Valid() && world.state.Some?
      requires expected.Some? ==> LastObserved(world, expected.value)
      requires expected.Some? && world.state.value.phase.Active? ==> Recorded(world, expected.value)
      modifies this
      ensures Valid() && world == old(world).(kernel := world.kernel, device := world.device, observed := world.observed)
      ensures ByJob(world) ==> world.kernel == old(world).kernel
      ensures ok ==> world.kernel.Absent? && world.device.None? && Tally().0 == old(Tally()).0 + 1
      ensures old(Tally()).0 <= Tally().0 <= old(Tally()).0 + 1
      ensures Tally().1 - old(Tally()).1 ==
              if expected.Some? && !Recorded(old(world), expected.value) then Tally().0 - old(Tally()).0 else 0
    {
      Others();
      if world.kernel.Absent? {
        return false;
      }
      ghost var earlier := world.observed;
      var removed: bool := *;
      var live := ReadLive();
      var expectation := if expected.Some? then expected else world.state.value.live;
      if live.None? || live != expectation || !removed {
        return false;
      }
      ReadTwice(earlier, live.value, world, expected);
      Do(Unload(live.value), world.(kernel := Absent, device := None));
      Others();
      return world.device.None? && world.kernel.Absent?;
    }

    /** Takes back what was provisioned, and only then forgets the state. */
    method Unwind(created: bool, expected: Option<Live>) returns (ok: bool)
      requires Valid() && (!created ==> !world.kernel.Ours?)
      requires expected.Some? ==> LastObserved(world, expected.value)
      requires expected.Some? && world.state.Some? && world.state.value.phase.Active? ==> Recorded(world, expected.value)
      modifies this
      ensures Valid() && world.next == old(world).next && world.exported == old(world).exported
      ensures world.state == if ok then None else old(world).state
      ensures ByJob(world) ==> world.kernel == old(world).kernel
      ensures ok ==> old(world).state.Some? && old(world).state.value.uid == uid && old(world).state.value.gid == gid
      ensures ok ==> !world.kernel.Ours? && Tally().0 == old(Tally()).0 + if created then 1 else 0
      ensures !created ==> Tally() == old(Tally())
      ensures old(Tally()).0 <= Tally().0 <= old(Tally()).0 + 1
      ensures Tally().1 - old(Tally()).1 ==
              if expected.Some? && !Recorded(old(world), expected.value) then Tally().0 - old(Tally()).0 else 0
    {
      var readable: bool, unlinked: bool := *, *;
      if !readable || world.state.None? || !Readable(world.state.value, uid, gid) {
        return false;
      }
      if created {
        ok := UnloadModule(expected);
        if !ok {
          return;
        }
      }
      if !unlinked {
        return false;
      }
      Do(Forget, world.(state := None));
      return true;
    }

    /** Loads the module and records the device it created. */
    method LoadModule() returns (created: bool, live: Option<Live>, ok: bool)
      requires Valid() && !ByJob(world) && world.state == Some(Record(uid, gid, Prepared, None))
      modifies this
      ensures Valid() && Tally() == old(Tally())
      ensures Tracked(world, uid, gid, live) && (created ==> !world.kernel.Unreported?) && (!created ==> !world.kernel.Ours? && live.None?)
      ensures world.state.value.phase == if ok then Loaded else Prepared
      ensures ok ==> created && live.Some? && Recorded(world, live.value)
    {
      created, live, ok := false, None, false;
      Others();
      var loads: bool, settles: bool := *, *;
      var device: Option<Device> := *;
      if !loads {
        var loadedAnyway: bool := *;
        if loadedAnyway {
          Do(Load(device, false), if world.kernel.Absent? then world.(kernel := Unreported, device := device) else world);
        }
        return;
      }
      Do(Load(device, true), if world.kernel.Absent? then world.(kernel := Ours, device := device) else world);
      created := true;
      Others();
      if world.device.None? || !world.device.value.character || !settles {
        return;
      }
      live := ReadLive();
      if live.Some? {
        ok := ReplaceState(Record(uid, gid, Loaded, live));
      }
    }

    /** Hands the device over to the job user, reading it back after each change. */
    method Grant(recorded: Option<Live>) returns (live: Option<Live>, ok: bool)
      requires Valid() && Tracked(world, uid, gid, recorded) && recorded.Some? && world.state.value.phase.Loaded?
      modifies this
      ensures Valid() && Tally() == old(Tally()) && world.state == old(world).state
      ensures Tracked(world, uid, gid, live) && live.Some? && (ByJob(world) ==> world.kernel == old(world).kernel)
      ensures ok ==> live.value.uid == uid && live.value.gid == gid && live.value.mode == OWNER_ONLY
    {
      live, ok := recorded, false;
      var owns: bool, limits: bool := *, *;
      Others();
      if !owns || world.device.None? {
        return;
      }
      Do(ChangeOwner(uid, gid), world.(device := Some(world.device.value.(live := world.device.value.live.(uid := uid, gid := gid)))));
      var again := ReadLive();
      if again.None? {
        return;
      }
      live := again;
      Others();
      if !limits || world.device.None? {
        return;
      }
      Do(ChangeMode(OWNER_ONLY), world.(device := Some(world.device.value.(live := world.device.value.live.(mode := OWNER_ONLY)))));
      again := ReadLive();
      if again.None? {
        return;
      }
      live := again;
      ok := live.value.uid == uid && live.value.gid == gid && live.value.mode == OWNER_ONLY;
    }

    /** The guarded part of `provision`: load, record, grant, record, export. */
    method Establish() returns (created: bool, live: Option<Live>, ok: bool)
      requires Valid() && !ByJob(world) && world.state == Some(Record(uid, gid, Prepared, None))
      modifies this
      ensures Valid() && Tally() == old(Tally())
      ensures Tracked(world, uid, gid, live) && (created ==> !world.kernel.Unreported?) && (!created ==> !world.kernel.Ours? && live.None?)
      ensures ok ==> Established(world, uid, gid)
    {
      created, live, ok := LoadModule();
      if !ok {
        return;
      }
      live, ok := Grant(live);
      if !ok {
        return;
      }
      ok := ReplaceState(Record(uid, gid, Active, live));
      if !ok {
        return;
      }
      Others();
      var written: bool, synced: bool := *, *;
      if written {
        Do(Export, world.(exported := true));
      }
      ok := written && synced;
    }

    /** Success means an active record of a device last seen job-owned and 0600, with
        its location exported. A handled failure unwinds to no state and no module of
        ours, or keeps the record that describes what is left; `inHand` is the identity
        read last and `left` the record when unwinding began. */
    method Provision() returns (outcome: Outcome, ghost inHand: Option<Live>, ghost left: Option<Record>)
      requires Valid()
      modifies this
      ensures Valid()
      ensures old(world).state.Some? ==> outcome.Refused?
      ensures outcome.Refused? ==> world.state == old(world).state && Tally() == old(Tally())
      ensures outcome.Done? ==> Established(world, uid, gid) && Tally() == old(Tally())
      ensures outcome.Unwound? ==> world.state.None? && !world.kernel.Ours?
      // A module of this job is left behind only by a load that reported failure.
      ensures outcome.Unwound? && ByJob(world) ==> world.kernel.Unreported? && inHand.None? && Tally() == old(Tally())
      ensures outcome.Stuck? ==> world.state == left
      ensures outcome.Unwound? || outcome.Stuck? ==>
                left.Some? && left.value.uid == uid && left.value.gid == gid && (left.value.phase.Prepared? <==> left.value.live.None?)
      ensures outcome.Unwound? || outcome.Stuck? ==> OffTheRecord(inHand, left, old(Tally()), Tally())
    {
      var ready: bool, installed: bool, written: bool := *, *, *;
      if !ready || world.state.Some? {
        return Refused, None, None;
      }
      Others();
      if world.device.Some? || !world.kernel.Absent? || !installed {
        return Refused, None, None;
      }
      Others();
      if !written {
        return Refused, None, None;
      }
      Do(Prepare(Record(uid, gid, Prepared, None)), world.(state := Some(Record(uid, gid, Prepared, None))));
      var created, live, ok := Establish();
      inHand, left := live, world.state;
      if ok {
        return Done, inHand, left;
      }
      var unwound := Unwind(created, live);
      outcome := if unwound then Unwound else Stuck;
    }

    /** Only an active record is cleaned up, and only against the recorded identity. */
    method Cleanup(missingOk: bool) returns (outcome: Outcome)
      requires Valid()
      modifies this
      ensures Valid() && outcome in {Done, Refused, Stuck} && Tally().1 == old(Tally()).1
      ensures outcome.Done? ==> world.state.None? && !world.kernel.Ours?
      ensures outcome.Done? ==> if old(world).state.None? then missingOk && Tally() == old(Tally())
                                else old(world).state.value.phase.Active? && Tally().0 == old(Tally()).0 + 1
      ensures outcome.Done? && old(world).state.Some? ==>
                var record := old(world).state.value; record.uid == uid && record.gid == gid && record.live.Some?
      ensures !outcome.Done? ==> world.state == old(world).state
      ensures outcome.Refused? ==> world == old(world)
      ensures old(world).state.None? && !missingOk ==> outcome.Refused?
    {
      if world.state.None? {
        return if missingOk then Done else Refused;
      }
      var readable: bool := *;
      if !readable || !Readable(world.state.value, uid, gid) || !world.state.value.phase.Active? {
        return Refused;
      }
      var ok := Unwind(true, None);
      return if ok then Done else Stuck;
    }

    /** A fresh session: the old device is cleaned up first, against its record. */
    method Reset() returns (outcome: Outcome, ghost inHand: Option<Live>, ghost left: Option<Record>)
      requires Valid()
      modifies this
      ensures Valid()
      ensures outcome.Done? ==> Established(world, uid, gid) && Tally() == (old(Tally()).0 + 1, old(Tally()).1)
      ensures outcome.Done? ==> old(world).state.Some? && old(world).state.value.phase.Active?
      ensures outcome.Unwound? ==> world.state.None? && !world.kernel.Ours?
      ensures outcome.Unwound? ==> OffTheRecord(inHand, left, (old(Tally()).0 + 1, old(Tally()).1), Tally())
    {
      inHand, left := None, None;
      outcome := Cleanup(false);
      if outcome.Done? {
        outcome, inHand, left := Provision();
      }
    }
  }

  /** A device of this job in full: recorded active as last read, owned by the job
      user and closed to everyone else, and exported. */
  ghost predicate Established(w: World, uid: nat, gid: nat) {
    && w.state.Some? && w.state.value.phase.Active? && w.state.value.live.Some? && w.exported
    && LastObserved(w, w.state.value.live.value)
    && w.state.value.live.value.uid == uid && w.state.value.live.value.gid == gid && w.state.value.live.value.mode == 6 * 64 // 0600
    && w.state.value.uid == uid && w.state.value.gid == gid && Readable(w.state.value, uid, gid)
  }

  // ----- runs that show what the design does not exclude

  const START: World := World(Absent, None, None, None, [], false)
  const FIRST: Live := Live(81, 42, 0, 44, 0x1b0)
  const OWNED: Live := Live(81, 42, 1001, 44, 0x1b0)

  /** A run from an untouched host, with its end and the unloads off the record in it. */
  ghost predicate Runs(log: seq<Event>, end: World, strays: nat) {
    Legible(START, log) && Before(START, log, |log|) == end && Strays(START, log) == strays
  }

  lemma {:induction false} Then(log: seq<Event>, now: World, strays: nat, a: Action, after: World) returns (longer: seq<Event>)
    requires Runs(log, now, strays) && Legal(now, a, after)
    ensures Runs(longer, after, strays + if Stray(now, a) then 1 else 0)
  {
    longer := log + [Event(a, after)];
    LegibleExtends(START, log, a, after);
    CountsExtend(START, log, Event(a, after));
  }

  /** Prepared, loaded, and the device read for the first time. */
  lemma {:induction false} LoadedRun() returns (log: seq<Event>, w: World)
    ensures w == World(Ours, Some(Device(FIRST, true, true)), Some(Record(1001, 44, Prepared, None)), None, [FIRST], false)
    ensures Runs(log, w, 0)
  {
    var record := Record(1001, 44, Prepared, None);
    var prepared := START.(state := Some(record));
    log := Then([], START, 0, Prepare(record), prepared);
    var loaded := prepared.(kernel := Ours, device := Some(Device(FIRST, true, true)));
    log := Then(log, prepared, 0, Load(Some(Device(FIRST, true, true)), true), loaded);
    w := loaded.(observed := [FIRST]);
    log := Then(log, loaded, 0, Observe(FIRST), w);
  }

  /** Reading back the identity in hand, unloading on it, and forgetting the state. */
  lemma {:induction false} UnwoundRun(log: seq<Event>, w: World, live: Live) returns (longer: seq<Event>, end: World)
    requires Runs(log, w, 0) && w.device == Some(Device(live, true, true)) && LastObserved(w, live)
    requires w.state.Some? && !w.state.value.phase.Active? && w.state.value.live != Some(live)
    ensures end.kernel.Absent? && end.state.None? && Runs(longer, end, 1)
  {
    var again := w.(observed := w.observed + [live]);
    longer := Then(log, w, 0, Observe(live), again);
    ReadTwice(w.observed, live, again, Some(live));
    var gone := again.(kernel := Absent, device := None);
    longer := Then(longer, again, 0, Unload(live), gone);
    end := gone.(state := None);
    longer := Then(longer, gone, 1, Forget, end);
  }

  /** The first record could not be written: nothing is recorded, and the module is
      unloaded on the identity read before. */
  lemma {:induction false} UnloadBeforeRecord() returns (log: seq<Event>, end: World)
    ensures end.kernel.Absent? && end.state.None? && Runs(log, end, 1)
  {
    var w;
    log, w := LoadedRun();
    log, end := UnwoundRun(log, w, FIRST);
  }

  /** A failure after the owner change: the record still holds the first identity, and
      the module is unloaded on the one read back since. */
  lemma {:induction false} UnloadOffTheRecord() returns (log: seq<Event>, end: World)
    ensures end.kernel.Absent? && end.state.None? && Runs(log, end, 1)
  {
    var w;
    log, w := LoadedRun();
    var record := Record(1001, 44, Loaded, Some(FIRST));
    var staged := w.(next := Some(record));
    log := Then(log, w, 0, Stage(record), staged);
    var recorded := w.(state := Some(record));
    log := Then(log, staged, 0, Commit, recorded);
    var owned := recorded.(device := Some(Device(OWNED, true, true)));
    log := Then(log, recorded, 0, ChangeOwner(1001, 44), owned);
    var seen := owned.(observed := [FIRST, OWNED]);
    log := Then(log, owned, 0, Observe(OWNED), seen);
    log, end := UnwoundRun(log, seen, OWNED);
  }

  /** A load that reports failure and yet leaves the module loaded: the state is
      forgotten, and a module of this job stays behind unrecorded. */
  lemma {:induction false} MisreportedLoadForgotten() returns (log: seq<Event>, end: World)
    ensures ByJob(end) && end.state.None? && Runs(log, end, 0)
  {
    var record := Record(1001, 44, Prepared, None);
    var prepared := START.(state := Some(record));
    log := Then([], START, 0, Prepare(record), prepared);
    var loaded := prepared.(kernel := Unreported, device := Some(Device(FIRST, true, true)));
    log := Then(log, prepared, 0, Load(Some(Device(FIRST, true, true)), false), loaded);
    end := loaded.(state := None);
    log := Then(log, loaded, 0, Forget, end);
  }

  /** What the job holds on to while provisioning: its own complete record, and the
      identity it read last, which an active record repeats. */
  ghost predicate Tracked(w: World, uid: nat, gid: nat, live: Option<Live>) {
    && w.state.Some? && Readable(w.state.value, uid, gid)
    && (live.Some? ==> LastObserved(w, live.value))
    && (w.state.value.phase.Active? ==> live.Some? && Recorded(w, live.value))
  }

  /** How many of the unloads between two tallies were off the record: all of them when
      the identity in hand is not the recorded one, which an active record excludes, and
      none otherwise. */
  ghost predicate OffTheRecord(inHand: Option<Live>, left: Option<Record>, before: (nat, nat), after: (nat, nat)) {
    var differs := left.Some? && inHand.Some? && left.value.live != inHand;
    && before.0 <= after.0 <= before.0 + 1 && (differs ==> !left.value.phase.Active?)
    && after.1 - before.1 == if differs then after.0 - before.0 else 0
  }

  lemma {:induction false} ReadTwice(earlier: seq<Live>, live: Live, w: World, expected: Option<Live>)
    requires w.observed == earlier + [live]
    requires expected.Some? ==> |earlier| > 0 && earlier[|earlier| - 1] == live
    ensures LastObserved(w, live) && (expected.Some? ==> SeenBefore(w, live))
  {
    if expected.Some? {
      assert w.observed[|earlier| - 1] == live;
    }
  }
}
