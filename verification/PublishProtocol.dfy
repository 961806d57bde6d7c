/** The two publishers as transition systems over one remote release: every remote
    effect is a step of its own, a run may be interrupted between any two, and a
    later run starts again from what it finds. */
module PublishProtocol {
  import opened Options
  import opened Publication

  /** `Application` is publish-release.py, `Module` is publish-qualified-release.py. */
  datatype Publisher = Application | Module

  /** What is being published, fixed across runs. */
  datatype Job = Job(publisher: Publisher, files: seq<File>, tag: string, commit: string)

  datatype Phase = Idle | Uploading(rest: seq<File>) | Confirming | Promoting | Verifying | Finished | Failed

  datatype State = State(remote: Option<Release>, phase: Phase)

  const ABSENT: State := State(None, Idle)

  /** Identity checks made on a release that was read back. */
  predicate Identified(job: Job, r: Release) {
    && r.id > 0 && r.tag == job.tag
    && (job.publisher.Module? ==> r.commit == job.commit && !r.prerelease)
  }

  predicate Passes(job: Job, r: Release, allowDraft: bool) {
    Identified(job, r) && Stable(r, allowDraft) && job.files != [] && Agrees(job.files, r.assets)
  }

  function Without(files: seq<File>, i: nat): seq<File>
    requires i < |files|
  {
    files[..i] + files[i + 1..]
  }

  /** An existing release is resumed, or refused. */
  ghost predicate Resume(job: Job, r: Release, s: State, s': State) {
    var missing := Missing(job.files, r.assets);
    && s'.remote == s.remote
    && if job.publisher.Application? then
         s'.phase == (if Stable(r, true) && job.files != [] && Agrees(job.files, r.assets) then Uploading(missing) else Failed)
       else
         s'.phase == (if Passes(job, r, true) && (missing == [] || r.draft) then Uploading(missing) else Failed)
  }

  /** One asset is uploaded; an asset of that name is never overwritten. The
      application's client uploads in any order, the module publisher in order. */
  ghost predicate Upload(job: Job, r: Release, rest: seq<File>, i: nat, s: State, s': State)
    requires i < |rest|
  {
    && (job.publisher.Module? ==> i == 0)
    && if HasName(r.assets, rest[i].name) then s' == State(s.remote, Failed)
       else
         var grown := r.(assets := r.assets + [rest[i]]);
         && s'.remote == Some(grown)
         && s'.phase == if job.publisher.Module? && !Passes(job, grown, true) then Failed else Uploading(Without(rest, i))
  }

  /** A step of a run that is not interrupted. */
  ghost predicate Step(job: Job, s: State, s': State) {
    match s.phase
    case Idle =>
      (match s.remote
       case None =>
         if job.files == [] then s' == State(None, Failed)
         else exists id :: id > 0 && s' == Drafted(job, id)
       case Some(r) => Resume(job, r, s, s'))
    case Uploading(rest) =>
      s.remote.Some? &&
      (if rest == [] then s' == State(s.remote, Confirming)
       else exists i :: 0 <= i < |rest| && Upload(job, s.remote.value, rest, i, s, s'))
    case Confirming =>
      s.remote.Some? && var r := s.remote.value;
      s' == State(s.remote, if !Passes(job, r, true) || Missing(job.files, r.assets) != [] then Failed
                            else if r.draft then Promoting else Finished)
    case Promoting =>
      s.remote.Some? && s' == State(Some(s.remote.value.(draft := false)), Verifying)
    case Verifying =>
      s.remote.Some? && var r := s.remote.value;
      s' == State(s.remote, if Passes(job, r, false) && Missing(job.files, r.assets) == [] then Finished else Failed)
    case Finished => false
    case Failed => false
  }

  function Drafted(job: Job, id: int): State {
    State(Some(Release(id, job.tag, job.commit, true, false, [])), Uploading(job.files))
  }

  /** Interruption, failure of a command, or a new run: local progress is lost. */
  ghost predicate Restart(s: State, s': State) {
    s' == State(s.remote, Idle)
  }

  ghost predicate Next(job: Job, s: State, s': State) {
    Step(job, s, s') || Restart(s, s')
  }

  /** Any number of interrupted and retried runs, from an absent release. */
  ghost predicate History(job: Job, h: seq<State>) {
    |h| > 0 && h[0] == ABSENT && forall i :: 0 < i < |h| ==> Next(job, h[i - 1], h[i])
  }

  // ----- what every step keeps

  ghost predicate RemoteOk(job: Job, r: Release) {
    && r.id > 0 && r.tag == job.tag && r.commit == job.commit && !r.prerelease && job.files != []
    && Partial(job.files, r.assets)
    && (!r.draft ==> Exact(job.files, r.assets))
  }

  /** The files still to upload are exactly those without an asset. */
  ghost predicate Remaining(files: seq<File>, assets: seq<File>, rest: seq<File>) {
    && DistinctNames(rest)
    && forall f :: f in rest <==> f in files && f !in assets
  }

  ghost predicate Inv(job: Job, s: State) {
    && DistinctNames(job.files)
    && (s.remote.Some? ==> RemoteOk(job, s.remote.value))
    && match s.phase
       case Idle => true
       case Uploading(rest) => s.remote.Some? && Remaining(job.files, s.remote.value.assets, rest)
       case Confirming => s.remote.Some? && Exact(job.files, s.remote.value.assets)
       case Promoting => s.remote.Some? && s.remote.value.draft && Exact(job.files, s.remote.value.assets)
       case Verifying => s.remote.Some? && !s.remote.value.draft
       case Finished => s.remote.Some? && !s.remote.value.draft
       case Failed => s.remote.None? && job.files == []
  }

  lemma {:induction false} PartialHasName(files: seq<File>, assets: seq<File>, f: File)
    requires DistinctNames(files) && Partial(files, assets) && f in files
    ensures HasName(assets, f.name) <==> f in assets
  {
    if a :| a in assets && a.name == f.name {
      assert a in files;
    }
  }

  lemma {:induction false} MissingRemaining(files: seq<File>, assets: seq<File>)
    requires DistinctNames(files) && Partial(files, assets)
    ensures Remaining(files, assets, Missing(files, assets))
  {
    MissingMember(files, assets);
    forall f | f in files ensures HasName(assets, f.name) <==> f in assets {
      PartialHasName(files, assets, f);
    }
    MissingDistinct(files, assets, |files|);
  }

  lemma {:induction false} MissingDistinct(files: seq<File>, assets: seq<File>, n: nat)
    requires DistinctNames(files) && n <= |files|
    ensures DistinctNames(MissingFirst(files, assets, n))
  {
    if n > 0 {
      MissingDistinct(files, assets, n - 1);
      MissingFirstMember(files, assets, n - 1);
      var shorter := MissingFirst(files, assets, n - 1);
      forall i | 0 <= i < |shorter| ensures shorter[i].name != files[n - 1].name {
        assert shorter[i] in shorter && shorter[i] in files[..n - 1];
      }
    }
  }

  lemma {:induction false} ResumeKeeps(job: Job, s: State, s': State)
    requires Inv(job, s) && s.phase.Idle? && s.remote.Some? && Resume(job, s.remote.value, s, s')
    ensures Inv(job, s') && s'.phase.Uploading?
  {
    var r := s.remote.value;
    AgreementMeansPartial(job.files, r.assets);
    MissingRemaining(job.files, r.assets);
  }

  lemma {:induction false} WithoutRemaining(files: seq<File>, assets: seq<File>, rest: seq<File>, i: nat)
    requires Remaining(files, assets, rest) && i < |rest|
    ensures Remaining(files, assets + [rest[i]], Without(rest, i))
  {
    var less := Without(rest, i);
    forall f ensures f in less <==> f in rest && f != rest[i] {
      if f in rest && f != rest[i] {
        var j :| 0 <= j < |rest| && rest[j] == f;
        assert less[if j < i then j else j - 1] == f;
      }
      if f in less {
        var j :| 0 <= j < |less| && less[j] == f;
        assert rest[if j < i then j else j + 1] == f;
      }
    }
  }

  lemma {:induction false} UploadKeeps(job: Job, s: State, s': State, i: nat)
    requires Inv(job, s) && s.phase.Uploading? && i < |s.phase.rest|
    requires Upload(job, s.remote.value, s.phase.rest, i, s, s')
    ensures Inv(job, s') && s'.phase.Uploading?
    ensures s'.remote == Some(s.remote.value.(assets := s.remote.value.assets + [s.phase.rest[i]]))
  {
    var r, rest := s.remote.value, s.phase.rest;
    var f := rest[i];
    assert f in rest && f in job.files && f !in r.assets;
    PartialHasName(job.files, r.assets, f);
    var grown := r.assets + [f];
    WithoutRemaining(job.files, r.assets, rest, i);
    assert Partial(job.files, grown) by {
      forall j | 0 <= j < |r.assets| ensures r.assets[j].name != f.name {
        assert r.assets[j] in r.assets;
      }
    }
    AgreementMeansPartial(job.files, grown);
  }

  /** The invariant holds of every step, and only a job without files can fail. */
  lemma {:induction false} StepKeeps(job: Job, s: State, s': State)
    requires Inv(job, s) && Step(job, s, s')
    ensures Inv(job, s')
  {
    match s.phase
    case Idle =>
      if s.remote.Some? {
        ResumeKeeps(job, s, s');
      }
    case Uploading(rest) =>
      if rest != [] {
        var i :| 0 <= i < |rest| && Upload(job, s.remote.value, rest, i, s, s');
        UploadKeeps(job, s, s', i);
      }
    case Confirming =>
      AgreementMeansPartial(job.files, s.remote.value.assets);
    case Promoting =>
    case Verifying =>
      AgreementMeansPartial(job.files, s.remote.value.assets);
    case Finished =>
    case Failed =>
  }

  lemma {:induction false} HistoryKeeps(job: Job, h: seq<State>, i: nat)
    requires DistinctNames(job.files) && History(job, h) && i < |h|
    ensures Inv(job, h[i])
  {
    if i > 0 {
      HistoryKeeps(job, h, i - 1);
      assert Next(job, h[i - 1], h[i]);
      if Step(job, h[i - 1], h[i]) {
        StepKeeps(job, h[i - 1], h[i]);
      }
    }
  }

  // ----- safety over every history

  /** Assets are only ever appended: none is removed or replaced. */
  ghost predicate Extends(before: Option<Release>, after: Option<Release>) {
    before.Some? ==> after.Some? && before.value.id == after.value.id && before.value.assets <= after.value.assets
  }

  /** A published release stays exactly as it is. */
  ghost predicate Settled(before: Option<Release>, after: Option<Release>) {
    before.Some? && !before.value.draft ==> after == before
  }

  lemma {:induction false} NextSafe(job: Job, s: State, s': State)
    requires Inv(job, s) && Next(job, s, s')
    ensures Extends(s.remote, s'.remote) && Settled(s.remote, s'.remote)
  {
    if s.phase.Uploading? && Step(job, s, s') && s.phase.rest != [] {
      var rest := s.phase.rest;
      var i :| 0 <= i < |rest| && Upload(job, s.remote.value, rest, i, s, s');
      UploadKeeps(job, s, s', i);
      assert rest[i] in rest;
    }
  }

  /** Over every sequence of interrupted and retried runs no uploaded asset is ever
      replaced, and once published the release never changes. */
  lemma {:induction false} NothingReplaced(job: Job, h: seq<State>, i: nat, j: nat)
    requires DistinctNames(job.files) && History(job, h) && i <= j < |h|
    ensures Extends(h[i].remote, h[j].remote) && Settled(h[i].remote, h[j].remote)
    decreases j
  {
    if i < j {
      NothingReplaced(job, h, i, j - 1);
      HistoryKeeps(job, h, j - 1);
      assert Next(job, h[j - 1], h[j]);
      NextSafe(job, h[j - 1], h[j]);
    }
  }

  /** The release is visible as published only with exactly the qualified assets, under
      the tag and at the commit that were asked for. */
  lemma {:induction false} PublishedIsExact(job: Job, h: seq<State>, i: nat)
    requires DistinctNames(job.files) && History(job, h) && i < |h|
    requires h[i].remote.Some? && !h[i].remote.value.draft
    ensures Exact(job.files, h[i].remote.value.assets) && !h[i].remote.value.prerelease
    ensures h[i].remote.value.id > 0 && h[i].remote.value.tag == job.tag && h[i].remote.value.commit == job.commit
  {
    HistoryKeeps(job, h, i);
  }

  // ----- one uninterrupted run completes the publication

  /** Steps left at most. */
  function Left(job: Job, s: State): nat {
    match s.phase
    case Idle => |job.files| + 5
    case Uploading(rest) => |rest| + 4
    case Confirming => 3
    case Promoting => 2
    case Verifying => 1
    case _ => 0
  }

  lemma {:induction false} MissingShort(files: seq<File>, assets: seq<File>, n: nat)
    requires n <= |files|
    ensures |MissingFirst(files, assets, n)| <= n
  {
    if n > 0 {
      MissingShort(files, assets, n - 1);
    }
  }

  lemma {:induction false} StepAdvances(job: Job, s: State, s': State)
    requires Inv(job, s) && Step(job, s, s')
    ensures Left(job, s') < Left(job, s)
  {
    StepKeeps(job, s, s');
    if s.phase.Idle? && s.remote.Some? {
      MissingShort(job.files, s.remote.value.assets, |job.files|);
    } else if s.phase.Uploading? && s.phase.rest != [] {
      var rest := s.phase.rest;
      var i :| 0 <= i < |rest| && Upload(job, s.remote.value, rest, i, s, s');
      UploadKeeps(job, s, s', i);
    }
  }

  /** A run is never stuck before it is finished. */
  lemma {:induction false} StepExists(job: Job, s: State) returns (s': State)
    requires Inv(job, s) && !s.phase.Finished? && !s.phase.Failed?
    ensures Step(job, s, s')
  {
    match s.phase
    case Idle =>
      if s.remote.None? {
        s' := if job.files == [] then State(None, Failed) else Drafted(job, 1);
      } else {
        var r := s.remote.value;
        AgreementMeansPartial(job.files, r.assets);
        s' := State(s.remote, if job.publisher.Module? && !(Passes(job, r, true) && (Missing(job.files, r.assets) == [] || r.draft))
                              then Failed else Uploading(Missing(job.files, r.assets)));
      }
    case Uploading(rest) =>
      if rest == [] {
        s' := State(s.remote, Confirming);
      } else {
        var r := s.remote.value;
        var grown := r.(assets := r.assets + [rest[0]]);
        s' := if HasName(r.assets, rest[0].name) then State(s.remote, Failed)
              else if job.publisher.Module? && !Passes(job, grown, true) then State(Some(grown), Failed)
              else State(Some(grown), Uploading(Without(rest, 0)));
        assert Upload(job, r, rest, 0, s, s');
      }
    case Confirming =>
      var r := s.remote.value;
      s' := State(s.remote, if !Passes(job, r, true) || Missing(job.files, r.assets) != [] then Failed
                            else if r.draft then Promoting else Finished);
    case Promoting =>
      s' := State(Some(s.remote.value.(draft := false)), Verifying);
    case Verifying =>
      var r := s.remote.value;
      s' := State(s.remote, if Passes(job, r, false) && Missing(job.files, r.assets) == [] then Finished else Failed);
  }

  /** A run from `s` that is not interrupted. */
  ghost predicate Uninterrupted(job: Job, run: seq<State>, s: State) {
    |run| > 0 && run[0] == s && forall i :: 0 < i < |run| ==> Step(job, run[i - 1], run[i])
  }

  ghost predicate Stopped(job: Job, s: State) {
    forall s' :: !Step(job, s, s')
  }

  lemma {:induction false} RunKeeps(job: Job, run: seq<State>, s: State, i: nat)
    requires Inv(job, s) && Uninterrupted(job, run, s) && i < |run|
    ensures Inv(job, run[i]) && Left(job, run[i]) + i <= Left(job, s)
  {
    if i > 0 {
      RunKeeps(job, run, s, i - 1);
      assert Step(job, run[i - 1], run[i]);
      StepKeeps(job, run[i - 1], run[i]);
      StepAdvances(job, run[i - 1], run[i]);
    }
  }

  /** Whatever happened before, a run that is not interrupted takes at most
      |files| + 5 steps, and where it stops the release is published and exact. */
  lemma {:induction false} UninterruptedRunPublishes(job: Job, h: seq<State>, run: seq<State>)
    requires DistinctNames(job.files) && job.files != [] && History(job, h)
    requires Uninterrupted(job, run, State(h[|h| - 1].remote, Idle))
    ensures |run| <= |job.files| + 6
    ensures Stopped(job, run[|run| - 1]) ==>
              run[|run| - 1].phase.Finished? && run[|run| - 1].remote.Some?
              && !run[|run| - 1].remote.value.draft && Exact(job.files, run[|run| - 1].remote.value.assets)
  {
    HistoryKeeps(job, h, |h| - 1);
    var s := State(h[|h| - 1].remote, Idle);
    var last := run[|run| - 1];
    RunKeeps(job, run, s, |run| - 1);
    if !last.phase.Finished? && !last.phase.Failed? {
      var s' := StepExists(job, last);
    }
  }
}
