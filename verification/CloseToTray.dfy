/** scripts/release/linux-desktop-acceptance.py, `WaylandQualificationObserver` and
    `verify_wayland_close_to_tray`: an observation protocol on asynchronous signals, some
    of which arrive before the transaction they belong to is known. */
module CloseToTray {
  import opened Options

  /** The body of a signal. `Odd` unpacks to something else than the four fields;
      `Unreadable` does not unpack. */
  datatype Body =
    | Values(transaction: string, pid: int, role: string, mapped: bool)
    | Odd
    | Unreadable

  /** A delivered signal and the bus owner found when rechecking credentials on its
      delivery (none when the check itself fails). */
  datatype Signal = Signal(sender: string, owner: Option<string>, body: Body)

  datatype Failure = ForeignSender | OwnerUnproven | OwnerChanged | NotReadable | Early | Stale | NotMain | OutOfOrder | TimedOut

  /** A signal as it was processed: with the mapping then expected, if any. */
  datatype Heard = Heard(signal: Signal, expected: Option<bool>)

  /** The signal is from the GUI itself, about its main surface and this transaction,
      and says what is expected of it. */
  predicate Authentic(s: Signal, owner: string, pid: int, transaction: string, mapped: bool) {
    s.sender == owner && s.owner == Some(owner) && s.body == Values(transaction, pid, "main", mapped)
  }

  ghost predicate Good(h: Heard, owner: string, pid: int, transaction: string) {
    h.expected.Some? && Authentic(h.signal, owner, pid, transaction, h.expected.value)
  }

  ghost predicate AllGood(heard: seq<Heard>, owner: string, pid: int, transaction: string) {
    forall i :: 0 <= i < |heard| ==> Good(heard[i], owner, pid, transaction)
  }

  /** Passed the checks that do not need the transaction, while unmapping is awaited. */
  ghost predicate Parked(h: Heard, owner: string) {
    h.expected == Some(false) && h.signal.sender == owner && h.signal.owner == Some(owner) && !h.signal.body.Unreadable?
  }

  ghost predicate AllParked(heard: seq<Heard>, owner: string) {
    forall i :: 0 <= i < |heard| ==> Parked(heard[i], owner)
  }

  ghost predicate Aligned(heard: seq<Heard>, pending: seq<Signal>) {
    |heard| == |pending| && forall i :: 0 <= i < |pending| ==> pending[i] == heard[i].signal
  }

  class Observer {
    const guiOwner: string
    const guiPid: int
    var transaction: string
    var expectedMapped: Option<bool>
    var observation: Option<Body>
    var failure: Option<Failure>
    var pending: seq<Signal>
    var looping: bool
    var stopped: bool
    /** Every signal processed, in order. */
    ghost var heard: seq<Heard>
    ghost var timedOut: bool

    constructor (guiOwner: string, guiPid: int)
      ensures Valid() && this.guiOwner == guiOwner && this.guiPid == guiPid
      ensures transaction == "" && expectedMapped.None? && heard == [] && failure.None? && !timedOut && !looping
    {
      this.guiOwner, this.guiPid := guiOwner, guiPid;
      transaction, expectedMapped, observation, failure, pending := "", None, None, None, [];
      looping, stopped, heard, timedOut := false, false, [], false;
    }

    /** Before the transaction is known, signals are parked unless already refused. */
    ghost predicate Waiting()
      reads this
    {
      && observation.None? && !timedOut && expectedMapped != Some(true)
      && (forall i :: 0 <= i < |heard| ==> heard[i].expected != Some(true))
      && (forall i :: 0 <= i < |pending| ==> pending[i].owner == Some(guiOwner) && !pending[i].body.Unreadable?)
      && (failure.None? <==> AllParked(heard, guiOwner))
      && (failure.None? ==> Aligned(heard, pending))
    }

    /** Afterwards, no failure means exactly that every signal so far was good. */
    ghost predicate Judged()
      reads this
    {
      && (failure.None? <==> !timedOut && AllGood(heard, guiOwner, guiPid, transaction))
      && (failure.None? && observation.Some? ==> |heard| > 0 && observation == Some(heard[|heard| - 1].signal.body))
      && (observation.Some? ==> observation.value.Values?)
    }

    ghost predicate Valid()
      reads this
    {
      if transaction == "" then Waiting() else Judged()
    }

    method Fail(reason: Failure)
      modifies this`failure, this`stopped
      ensures failure == Some(reason) && (looping ==> stopped) && (!looping ==> stopped == old(stopped))
    {
      failure := Some(reason);
      if looping {
        stopped := true;
      }
    }

    /** Accepts exactly the signals that are authentic and in order. */
    method Accept(s: Signal)
      requires transaction != "" && s.owner == Some(guiOwner) && !s.body.Unreadable?
      modifies this`failure, this`stopped, this`observation
      ensures Good(Heard(s, expectedMapped), guiOwner, guiPid, transaction) ==> failure == old(failure) && observation == Some(s.body)
      ensures !Good(Heard(s, expectedMapped), guiOwner, guiPid, transaction) ==> failure.Some? && observation == old(observation)
      ensures (looping ==> stopped) && (!looping ==> stopped == old(stopped))
    {
      if s.sender != guiOwner {
        Fail(ForeignSender);
        return;
      }
      if !s.body.Values? {
        Fail(NotReadable);
        return;
      }
      if s.body.transaction != transaction {
        Fail(Stale);
        return;
      }
      if s.body.pid != guiPid || s.body.role != "main" {
        Fail(NotMain);
        return;
      }
      if expectedMapped.None? || s.body.mapped != expectedMapped.value {
        Fail(OutOfOrder);
        return;
      }
      observation := Some(s.body);
      if looping {
        stopped := true;
      }
    }

    /** Delivery of one signal, at any time after subscription. */
    method OnObservation(s: Signal)
      requires Valid()
      modifies this`failure, this`stopped, this`observation, this`pending, this`heard
      ensures Valid() && heard == old(heard) + [Heard(s, expectedMapped)]
      ensures old(failure).Some? ==> failure.Some?
      ensures !looping ==> stopped == old(stopped)
      ensures transaction != "" ==> (looping ==> stopped) && (failure.None? ==> observation.Some?)
    {
      heard := heard + [Heard(s, expectedMapped)];
      AllGoodExtends(old(heard), Heard(s, expectedMapped), guiOwner, guiPid, transaction);
      AllParkedExtends(old(heard), Heard(s, expectedMapped), guiOwner);
      if s.sender != guiOwner {
        Fail(ForeignSender);
        return;
      }
      if s.owner.None? {
        Fail(OwnerUnproven);
        return;
      }
      if s.owner.value != guiOwner {
        Fail(OwnerChanged);
        return;
      }
      if s.body.Unreadable? {
        Fail(NotReadable);
        return;
      }
      if transaction == "" {
        if expectedMapped.None? {
          Fail(Early);
          return;
        }
        assert expectedMapped.value == false;
        pending := pending + [s];
        return;
      }
      Accept(s);
    }

    /** Signals dispatched outside the observer's own loop. */
    method Deliver(signals: seq<Signal>)
      requires Valid() && !looping
      modifies this`failure, this`stopped, this`observation, this`pending, this`heard
      ensures Valid() && stopped == old(stopped)
      ensures Continues(old(heard), heard, signals, expectedMapped) && |heard| == |old(heard)| + |signals|
      ensures old(failure).Some? ==> failure.Some?
    {
      for i := 0 to |signals|
        invariant Valid() && stopped == old(stopped)
        invariant Continues(old(heard), heard, signals, expectedMapped) && |heard| == |old(heard)| + i
        invariant old(failure).Some? ==> failure.Some?
      {
        OnObservation(signals[i]);
      }
    }

    /** Arms the first phase, asks for a transaction and judges what came in meanwhile. */
    method Start(meanwhile: seq<Signal>, reply: string) returns (ok: bool)
      requires Valid() && !looping && transaction == ""
      modifies this`failure, this`stopped, this`observation, this`pending, this`heard, this`expectedMapped, this`transaction
      ensures Valid() && stopped == old(stopped) && expectedMapped == Some(false)
      ensures ok <==> reply != ""
      ensures transaction == reply
      ensures Continues(old(heard), heard, meanwhile, Some(false)) && |heard| == |old(heard)| + |meanwhile|
      ensures timedOut == old(timedOut) && (ok && failure.None? && heard != [] ==> observation.Some?)
    {
      expectedMapped := Some(false);
      Deliver(meanwhile);
      if reply == "" {
        return false;
      }
      transaction := reply;
      Replay();
      return true;
    }

    method Replay()
      requires Waiting() && !looping && transaction != "" && expectedMapped == Some(false)
      modifies this`failure, this`stopped, this`observation, this`pending
      ensures Judged() && pending == [] && stopped == old(stopped)
      ensures failure.None? && heard != [] ==> observation.Some?
    {
      for k := 0 to |pending|
        invariant pending == old(pending) && stopped == old(stopped)
        invariant failure.None? <==> old(failure).None? && forall j :: 0 <= j < k ==> Good(Heard(pending[j], Some(false)), guiOwner, guiPid, transaction)
        invariant k == 0 ==> observation.None?
        invariant failure.None? && k > 0 ==> observation == Some(pending[k - 1].body)
        invariant observation.Some? ==> observation.value.Values?
      {
        Accept(pending[k]);
      }
      ParkedJudged(heard, pending, guiOwner, guiPid, transaction);
      pending := [];
    }

    /** One run of the loop: signals are dispatched until one stops it (more may still
        be dispatched in the same turn), or else time runs out. */
    method RunLoop(signals: seq<Signal>)
      requires Valid() && transaction != "" && observation.None? && failure.None?
      modifies this
      ensures Valid() && transaction == old(transaction) && expectedMapped == old(expectedMapped) && !looping
      ensures Continues(old(heard), heard, signals, expectedMapped)
      ensures failure.None? ==> observation.Some? && |heard| > |old(heard)|
      ensures signals != [] ==> timedOut == old(timedOut)
    {
      looping, stopped := true, false;
      var i, lingering := 0, true;
      while i < |signals| && (!stopped || lingering)
        invariant Valid() && transaction == old(transaction) && expectedMapped == old(expectedMapped) && looping
        invariant 0 <= i <= |signals| && |heard| == |old(heard)| + i
        invariant Continues(old(heard), heard, signals, expectedMapped)
        invariant timedOut == old(timedOut)
        invariant stopped <==> i > 0
        invariant stopped ==> (failure.Some? || observation.Some?)
        invariant !stopped ==> failure.None? && observation.None?
      {
        OnObservation(signals[i]);
        i := i + 1;
        lingering := *;
      }
      if !stopped {
        timedOut := true;
        Fail(TimedOut);
      }
      looping := false;
    }

    /** Returns only an observation of the expected mapping, with nothing wrong before. */
    method AwaitMapped(mapped: bool, signals: seq<Signal>) returns (r: Option<Body>)
      requires Valid() && transaction != "" && !looping
      modifies this
      ensures Valid() && transaction == old(transaction) && expectedMapped == Some(mapped) && !looping
      ensures Continues(old(heard), heard, signals, Some(mapped))
      ensures r.None? <==> failure.Some?
      ensures signals != [] || (old(observation).Some? && old(observation).value.mapped == mapped) ==> timedOut == old(timedOut)
      ensures r.Some? ==> |heard| > 0 && r == Some(heard[|heard| - 1].signal.body)
                          && r == Some(Values(transaction, guiPid, "main", mapped))
    {
      expectedMapped := Some(mapped);
      if failure.Some? {
        return None;
      }
      if observation.Some? && observation.value.mapped == mapped {
        return observation;
      }
      observation := None;
      RunLoop(signals);
      if failure.Some? {
        return None;
      }
      return observation;
    }
  }

  /** The record of a run only grows, here by the first of `signals`, all of them judged
      under `expected`. */
  ghost predicate Continues(earlier: seq<Heard>, heard: seq<Heard>, signals: seq<Signal>, expected: Option<bool>) {
    && |earlier| <= |heard| <= |earlier| + |signals|
    && (forall i :: 0 <= i < |earlier| ==> heard[i] == earlier[i])
    && (forall i :: |earlier| <= i < |heard| ==> heard[i] == Heard(signals[i - |earlier|], expected))
  }

  ghost predicate AllAuthentic(signals: seq<Signal>, owner: string, pid: int, transaction: string, mapped: bool) {
    forall i :: 0 <= i < |signals| ==> Authentic(signals[i], owner, pid, transaction, mapped)
  }

  lemma {:induction false} AuthenticIsGood(earlier: seq<Heard>, heard: seq<Heard>, signals: seq<Signal>, owner: string, pid: int,
                                           transaction: string, mapped: bool)
    requires Continues(earlier, heard, signals, Some(mapped)) && AllAuthentic(signals, owner, pid, transaction, mapped)
    ensures AllGood(earlier, owner, pid, transaction) ==> AllGood(heard, owner, pid, transaction)
  {
  }

  /** `heard` is a close-to-tray run: every signal is the GUI's own, unmapped up to
      `flip` and mapped from there on; at least one unmapped before the menu action,
      which came after `menu` signals, and at least one mapped after it. */
  ghost predicate CloseToTrayRun(heard: seq<Heard>, owner: string, pid: int, transaction: string, menu: nat, flip: nat) {
    && 0 < menu <= flip < |heard|
    && (forall i :: 0 <= i < |heard| ==> Authentic(heard[i].signal, owner, pid, transaction, i >= flip))
  }

  lemma {:induction false} PhasesInOrder(first: seq<Heard>, middle: seq<Heard>, heard: seq<Heard>, closing: seq<Signal>, invoking: seq<Signal>,
                                         opening: seq<Signal>, owner: string, pid: int, transaction: string)
    requires Continues([], first, closing, Some(false)) && Continues(first, middle, invoking, Some(false))
    requires Continues(middle, heard, opening, Some(true))
    requires AllGood(heard, owner, pid, transaction) && |first| > 0
    requires |heard| > 0 && heard[|heard| - 1].signal.body == Values(transaction, pid, "main", true)
    ensures CloseToTrayRun(heard, owner, pid, transaction, |first|, |middle|)
  {
    forall i | 0 <= i < |heard|
      ensures heard[i].expected == Some(i >= |middle|) && Authentic(heard[i].signal, owner, pid, transaction, i >= |middle|)
    {
      if i < |middle| {
        assert heard[i] == middle[i];
        if i < |first| {
          assert middle[i] == first[i];
        }
      }
      assert Good(heard[i], owner, pid, transaction);
    }
  }

  /** What the bus delivers over one verification: before the request, before its reply,
      while waiting for the close, while invoking the menu, and while waiting for the
      reopening. */
  datatype Traffic = Traffic(early: seq<Signal>, meanwhile: seq<Signal>, closing: seq<Signal>, invoking: seq<Signal>, opening: seq<Signal>)

  ghost predicate Flawless(t: Traffic, owner: string, pid: int, transaction: string) {
    && t.early == [] && t.meanwhile + t.closing != [] && t.opening != []
    && AllAuthentic(t.meanwhile, owner, pid, transaction, false) && AllAuthentic(t.closing, owner, pid, transaction, false)
    && AllAuthentic(t.invoking, owner, pid, transaction, false) && AllAuthentic(t.opening, owner, pid, transaction, true)
  }

  /** Requests a transaction and waits for the main surface to be gone. */
  method AwaitClose(owner: string, pid: int, t: Traffic, reply: string) returns (ok: bool, observer: Observer, ghost armed: seq<Heard>)
    ensures fresh(observer) && observer.guiOwner == owner && observer.guiPid == pid && !observer.looping
    ensures ok ==> observer.Valid() && reply != "" && observer.transaction == reply && observer.expectedMapped == Some(false)
    ensures ok ==> t.early == [] && observer.failure.None? && |observer.heard| > 0
    ensures ok ==> Continues([], armed, t.meanwhile, Some(false)) && |armed| == |t.meanwhile|
    ensures ok ==> Continues(armed, observer.heard, t.closing, Some(false))
    ensures reply != "" && Flawless(t, owner, pid, reply) ==> ok
  {
    observer := new Observer(owner, pid);
    armed, ok := [], false;
    observer.Deliver(t.early);
    ghost var unarmed := observer.heard;
    var started := observer.Start(t.meanwhile, reply);
    if !started {
      return;
    }
    ghost var flawless := Flawless(t, owner, pid, reply);
    armed := observer.heard;
    if flawless {
      AuthenticIsGood([], armed, t.meanwhile, owner, pid, reply, false);
    }
    var unmapped := observer.AwaitMapped(false, t.closing);
    if flawless {
      AuthenticIsGood(armed, observer.heard, t.closing, owner, pid, reply, false);
    }
    if unmapped.Some? {
      NothingEarly(unarmed, armed, observer.heard, t, owner, pid, reply);
      ok := true;
    }
  }

  /** A normal return proves the whole run, whatever came in and whenever; and nothing
      but a flaw in the traffic prevents it. */
  method VerifyCloseToTray(owner: string, pid: int, t: Traffic, reply: string, invoked: bool)
      returns (ok: bool, observer: Observer, ghost menu: nat, ghost flip: nat)
    ensures fresh(observer) && observer.guiOwner == owner && observer.guiPid == pid
    ensures ok ==> reply != "" && invoked && t.early == []
    ensures ok ==> CloseToTrayRun(observer.heard, owner, pid, reply, menu, flip)
    ensures ok ==> AllAuthentic(t.meanwhile, owner, pid, reply, false) && AllAuthentic(t.invoking, owner, pid, reply, false)
    ensures ok ==> flip == menu + |t.invoking| && Continues(observer.heard[..flip], observer.heard, t.opening, Some(true))
    ensures reply != "" && invoked && Flawless(t, owner, pid, reply) ==> ok
  {
    ghost var armed;
    menu, flip := 0, 0;
    ok, observer, armed := AwaitClose(owner, pid, t, reply);
    if !ok {
      return;
    }
    ghost var flawless := Flawless(t, owner, pid, reply);
    ghost var first := observer.heard;
    observer.Deliver(t.invoking);
    ghost var middle := observer.heard;
    menu, flip := |first|, |middle|;
    if !invoked {
      return false, observer, menu, flip;
    }
    var mapped := observer.AwaitMapped(true, t.opening);
    if flawless {
      AuthenticIsGood(first, middle, t.invoking, owner, pid, reply, false);
      AuthenticIsGood(middle, observer.heard, t.opening, owner, pid, reply, true);
    }
    ok := mapped.Some?;
    if ok {
      HeardInFull(armed, first, middle, observer.heard, t, owner, pid, reply);
      PhasesInOrder(first, middle, observer.heard, t.meanwhile + t.closing, t.invoking, t.opening, owner, pid, reply);
    }
  }

  /** A good run heard nothing before the first phase was armed. */
  lemma {:induction false} NothingEarly(unarmed: seq<Heard>, armed: seq<Heard>, first: seq<Heard>, t: Traffic, owner: string, pid: int, transaction: string)
    requires Continues([], unarmed, t.early, None) && |unarmed| == |t.early| && AllGood(first, owner, pid, transaction)
    requires Continues(unarmed, armed, t.meanwhile, Some(false)) && |armed| == |unarmed| + |t.meanwhile|
    requires Continues(armed, first, t.closing, Some(false))
    ensures t.early == [] && Continues([], first, t.meanwhile + t.closing, Some(false))
  {
    if t.early != [] {
      FirstUnarmed(unarmed, armed, first, t, owner, pid, transaction);
    }
  }

  lemma {:induction false} FirstUnarmed(unarmed: seq<Heard>, armed: seq<Heard>, first: seq<Heard>, t: Traffic, owner: string, pid: int, transaction: string)
    requires Continues([], unarmed, t.early, None) && unarmed != []
    requires Continues(unarmed, armed, t.meanwhile, Some(false)) && Continues(armed, first, t.closing, Some(false))
    ensures !AllGood(first, owner, pid, transaction)
  {
    assert first[0] == armed[0] && armed[0] == unarmed[0];
    assert !Good(first[0], owner, pid, transaction);
  }

  /** Everything that arrived outside the waiting loops was processed, so all of it was
      authentic. */
  lemma {:induction false} HeardInFull(armed: seq<Heard>, first: seq<Heard>, middle: seq<Heard>, heard: seq<Heard>, t: Traffic,
                                       owner: string, pid: int, transaction: string)
    requires Continues([], armed, t.meanwhile, Some(false)) && |armed| == |t.meanwhile|
    requires Continues(armed, first, t.closing, Some(false))
    requires Continues(first, middle, t.invoking, Some(false)) && |middle| == |first| + |t.invoking|
    requires Continues(middle, heard, t.opening, Some(true)) && AllGood(heard, owner, pid, transaction)
    ensures AllAuthentic(t.meanwhile, owner, pid, transaction, false) && AllAuthentic(t.invoking, owner, pid, transaction, false)
    ensures heard[..|middle|] == middle
  {
    forall i | 0 <= i < |t.meanwhile|
      ensures Authentic(t.meanwhile[i], owner, pid, transaction, false)
    {
      assert armed[i] == first[i] && first[i] == middle[i] && middle[i] == heard[i];
      assert Good(heard[i], owner, pid, transaction);
    }
    forall i | 0 <= i < |t.invoking|
      ensures Authentic(t.invoking[i], owner, pid, transaction, false)
    {
      assert middle[|first| + i] == Heard(t.invoking[i], Some(false)) && middle[|first| + i] == heard[|first| + i];
      assert Good(heard[|first| + i], owner, pid, transaction);
    }
  }

  lemma {:induction false} AllParkedExtends(heard: seq<Heard>, h: Heard, owner: string)
    ensures AllParked(heard + [h], owner) <==> AllParked(heard, owner) && Parked(h, owner)
  {
    var longer := heard + [h];
    if AllParked(longer, owner) {
      assert longer[|heard|] == h;
      forall i | 0 <= i < |heard|
        ensures Parked(heard[i], owner)
      {
        assert longer[i] == heard[i];
      }
    }
  }

  /** Judging the parked signals against the transaction, once it is known, is judging
      everything heard so far; and what was refused unseen could not have been good. */
  lemma {:induction false} ParkedJudged(heard: seq<Heard>, pending: seq<Signal>, owner: string, pid: int, transaction: string)
    requires forall i :: 0 <= i < |heard| ==> heard[i].expected != Some(true)
    requires AllParked(heard, owner) ==> Aligned(heard, pending)
    ensures AllGood(heard, owner, pid, transaction) <==>
            AllParked(heard, owner) && forall j :: 0 <= j < |pending| ==> Good(Heard(pending[j], Some(false)), owner, pid, transaction)
  {
    if AllGood(heard, owner, pid, transaction) {
      assert AllParked(heard, owner);
      forall j | 0 <= j < |pending|
        ensures Good(Heard(pending[j], Some(false)), owner, pid, transaction)
      {
        assert Good(heard[j], owner, pid, transaction) && heard[j] == Heard(pending[j], Some(false));
      }
    }
    if AllParked(heard, owner) && forall j :: 0 <= j < |pending| ==> Good(Heard(pending[j], Some(false)), owner, pid, transaction) {
      forall i | 0 <= i < |heard|
        ensures Good(heard[i], owner, pid, transaction)
      {
        assert Parked(heard[i], owner) && heard[i] == Heard(pending[i], Some(false));
      }
    }
  }

  lemma {:induction false} AllGoodExtends(heard: seq<Heard>, h: Heard, owner: string, pid: int, transaction: string)
    ensures AllGood(heard + [h], owner, pid, transaction) <==> AllGood(heard, owner, pid, transaction) && Good(h, owner, pid, transaction)
  {
    var longer := heard + [h];
    if AllGood(longer, owner, pid, transaction) {
      assert longer[|heard|] == h;
      forall i | 0 <= i < |heard|
        ensures Good(heard[i], owner, pid, transaction)
      {
        assert longer[i] == heard[i];
      }
    }
  }
}
