/** One uninterrupted run of either publisher against whatever release it finds. */
module PublishRun {
  import opened Options
  import opened Publication
  import opened PublishProtocol

  /** The release a tag names on the remote, changed by `gh release` commands only. */
  class Remote {
    var release: Option<Release>

    constructor (release: Option<Release>)
      ensures this.release == release
    {
      this.release := release;
    }

    method CreateDraft(job: Job)
      requires release.None?
      modifies this
      ensures release == Some(Release(1, job.tag, job.commit, true, false, []))
    {
      release := Some(Release(1, job.tag, job.commit, true, false, []));
    }

    /** Uploading never overwrites: an asset of that name makes the command fail. */
    method Upload(f: File) returns (ok: bool)
      requires release.Some?
      modifies this
      ensures ok <==> !HasName(old(release).value.assets, f.name)
      ensures ok ==> release == Some(old(release).value.(assets := old(release).value.assets + [f]))
      ensures !ok ==> release == old(release)
    {
      ok := !HasName(release.value.assets, f.name);
      if ok {
        release := Some(release.value.(assets := release.value.assets + [f]));
      }
    }

    method Promote()
      requires release.Some?
      modifies this
      ensures release == Some(old(release).value.(draft := false))
    {
      release := Some(release.value.(draft := false));
    }
  }

  /** A run can succeed from this release. */
  predicate Publishable(job: Job, found: Option<Release>) {
    && job.files != []
    && (found.Some? ==>
          && Passes(job, found.value, true)
          && (job.publisher.Module? ==> Missing(job.files, found.value.assets) == [] || found.value.draft))
  }

  /** A run followed by one more step. */
  lemma {:induction false} StepOn(job: Job, run: seq<State>, s: State, next: State)
    requires Uninterrupted(job, run, s) && Step(job, run[|run| - 1], next)
    ensures Uninterrupted(job, run + [next], s)
  {
    var longer := run + [next];
    forall i | 0 < i < |longer| ensures Step(job, longer[i - 1], longer[i]) {
      assert i < |run| ==> longer[i - 1] == run[i - 1] && longer[i] == run[i];
    }
  }

  /** Without an asset every file is missing. */
  lemma {:induction false} AllMissing(files: seq<File>, n: nat)
    requires n <= |files|
    ensures MissingFirst(files, [], n) == files[..n]
  {
    if n > 0 {
      AllMissing(files, n - 1);
      assert files[..n] == files[..n - 1] + [files[n - 1]];
    }
  }

  /** The step taken by uploading the first of the files that are left. */
  lemma {:induction false} UploadStep(job: Job, r: Release, rest: seq<File>)
    requires DistinctNames(job.files) && Partial(job.files, r.assets) && rest != []
    requires Remaining(job.files, r.assets, rest) && Stable(r, true) && (job.publisher.Module? ==> Identified(job, r)) && job.files != []
    ensures Step(job, State(Some(r), Uploading(rest)), State(Some(r.(assets := r.assets + [rest[0]])), Uploading(rest[1..])))
  {
    UploadOne(job, r, rest);
    assert Without(rest, 0) == rest[1..];
    assert Upload(job, r, rest, 0, State(Some(r), Uploading(rest)), State(Some(r.(assets := r.assets + [rest[0]])), Uploading(rest[1..])));
  }

  /** Uploads the missing files one by one. `run` goes on from a run that has come to
      uploading them. */
  method UploadAll(job: Job, remote: Remote, missing: seq<File>, ghost before: seq<State>, ghost s: State)
      returns (ok: bool, ghost run: seq<State>)
    requires remote.release.Some? && DistinctNames(job.files) && Partial(job.files, remote.release.value.assets)
    requires Remaining(job.files, remote.release.value.assets, missing)
    requires Stable(remote.release.value, true) && job.files != []
    requires job.publisher.Module? ==> Identified(job, remote.release.value)
    requires Uninterrupted(job, before, s) && before[|before| - 1] == State(remote.release, Uploading(missing))
    modifies remote
    ensures ok && remote.release.Some? && Exact(job.files, remote.release.value.assets)
    ensures remote.release == Some(old(remote.release).value.(assets := remote.release.value.assets))
    ensures old(remote.release).value.assets <= remote.release.value.assets
    ensures missing == [] ==> remote.release == old(remote.release)
    ensures Uninterrupted(job, run, s) && run[|run| - 1] == State(remote.release, Uploading([]))
  {
    var rest := missing;
    ghost var start := remote.release.value;
    run := before;
    while rest != []
      invariant remote.release.Some? && Partial(job.files, remote.release.value.assets)
      invariant remote.release.value == start.(assets := remote.release.value.assets)
      invariant start.assets <= remote.release.value.assets
      invariant Remaining(job.files, remote.release.value.assets, rest)
      invariant missing == [] ==> remote.release == Some(start) && rest == []
      invariant Uninterrupted(job, run, s) && run[|run| - 1] == State(remote.release, Uploading(rest))
      decreases |rest|
    {
      ghost var found := remote.release.value;
      UploadOne(job, found, rest);
      UploadStep(job, found, rest);
      StepOn(job, run, s, State(Some(found.(assets := found.assets + [rest[0]])), Uploading(rest[1..])));
      run := run + [State(Some(found.(assets := found.assets + [rest[0]])), Uploading(rest[1..]))];
      ok := remote.Upload(rest[0]);
      if job.publisher.Module? {
        var checked := MissingAssets(job.files, remote.release.value, true);
        if checked.None? {
          return false, run;
        }
      }
      rest := rest[1..];
    }
    ok := true;
  }

  lemma {:induction false} UploadOne(job: Job, r: Release, rest: seq<File>)
    requires DistinctNames(job.files) && Partial(job.files, r.assets) && rest != []
    requires Remaining(job.files, r.assets, rest)
    ensures !HasName(r.assets, rest[0].name)
    ensures Partial(job.files, r.assets + [rest[0]]) && Agrees(job.files, r.assets + [rest[0]])
    ensures Remaining(job.files, r.assets + [rest[0]], rest[1..])
  {
    var f := rest[0];
    assert f in rest;
    PartialHasName(job.files, r.assets, f);
    forall j | 0 <= j < |r.assets| ensures r.assets[j].name != f.name {
      assert r.assets[j] in r.assets;
    }
    AgreementMeansPartial(job.files, r.assets + [f]);
    WithoutRemaining(job.files, r.assets, rest, 0);
    assert Without(rest, 0) == rest[1..];
  }

  /** The first step of a run: a draft is created, or what is there is resumed or refused. */
  method Begin(job: Job, remote: Remote) returns (missing: Option<seq<File>>, ghost run: seq<State>)
    requires DistinctNames(job.files) && (remote.release.None? ==> job.files != [])
    modifies remote
    ensures old(remote.release).Some? ==> remote.release == old(remote.release)
    ensures old(remote.release).None? ==> remote.release == Some(Release(1, job.tag, job.commit, true, false, [])) && missing.Some?
    ensures missing.Some? <==> && Stable(remote.release.value, true) && job.files != [] && Agrees(job.files, remote.release.value.assets)
                               && (job.publisher.Module? ==> && Identified(job, remote.release.value)
                                                             && (Missing(job.files, remote.release.value.assets) == [] || remote.release.value.draft))
    ensures missing.Some? ==> missing.value == Missing(job.files, remote.release.value.assets)
    ensures Uninterrupted(job, run, State(old(remote.release), Idle))
    ensures run[|run| - 1] == State(remote.release, if missing.Some? then Uploading(missing.value) else Failed)
  {
    ghost var s := State(remote.release, Idle);
    if remote.release.None? {
      remote.CreateDraft(job);
      AgreementMeansPartial(job.files, []);
      AllMissing(job.files, |job.files|);
      assert job.files[..|job.files|] == job.files;
      assert Step(job, s, Drafted(job, 1));
    }
    var found := remote.release.value;
    missing := MissingAssets(job.files, found, true);
    if job.publisher.Module? && (!Identified(job, found) || (missing.Some? && missing.value != [] && !found.draft)) {
      missing := None;
    }
    run := [s, State(remote.release, if missing.Some? then Uploading(missing.value) else Failed)];
  }

  /** The steps from a complete upload to the end. */
  method Complete(job: Job, remote: Remote, ghost before: seq<State>, ghost s: State) returns (ok: bool, ghost run: seq<State>)
    requires remote.release.Some? && DistinctNames(job.files) && job.files != []
    requires Exact(job.files, remote.release.value.assets) && Stable(remote.release.value, true)
    requires Uninterrupted(job, before, s) && before[|before| - 1] == State(remote.release, Uploading([]))
    modifies remote
    ensures ok <==> Identified(job, old(remote.release).value)
    ensures remote.release == Some(old(remote.release).value.(draft := if ok then false else old(remote.release).value.draft))
    ensures Uninterrupted(job, run, s) && run[|run| - 1] == State(remote.release, if ok then Finished else Failed)
  {
    AgreementMeansPartial(job.files, remote.release.value.assets);
    StepOn(job, before, s, State(remote.release, Confirming));
    run := before + [State(remote.release, Confirming)];
    var confirmed := MissingAssets(job.files, remote.release.value, true);
    if !Identified(job, remote.release.value) || confirmed.None? || confirmed.value != [] {
      StepOn(job, run, s, State(remote.release, Failed));
      return false, run + [State(remote.release, Failed)];
    }
    if remote.release.value.draft {
      StepOn(job, run, s, State(remote.release, Promoting));
      run := run + [State(remote.release, Promoting)];
      remote.Promote();
      StepOn(job, run, s, State(remote.release, Verifying));
      run := run + [State(remote.release, Verifying)];
      var verified := MissingAssets(job.files, remote.release.value, false);
      if verified.None? || verified.value != [] {
        return false, run;
      }
    }
    StepOn(job, run, s, State(remote.release, Finished));
    return true, run + [State(remote.release, Finished)];
  }

  /** `publish`: succeeds exactly on a publishable release, leaving it published with
      exactly the qualified assets; it never removes or replaces an asset, and a
      complete published release is left untouched. It is an uninterrupted run of the
      protocol, from what it finds to where the protocol finishes or fails. */
  method Publish(job: Job, remote: Remote) returns (ok: bool, ghost run: seq<State>)
    requires DistinctNames(job.files)
    modifies remote
    ensures ok <==> Publishable(job, old(remote.release))
    ensures ok ==> remote.release.Some? && !remote.release.value.draft && !remote.release.value.prerelease
                   && Identified(job, remote.release.value) && Exact(job.files, remote.release.value.assets)
    ensures ok ==> remote.release.value.id > 0 && remote.release.value.tag == job.tag
                   && (job.publisher.Module? ==> remote.release.value.commit == job.commit)
    ensures ok && job.publisher.Module? && old(remote.release).Some? ==> old(remote.release).value.commit == job.commit
    ensures Extends(old(remote.release), remote.release)
    ensures !ok && (old(remote.release).Some? ==> Identified(job, old(remote.release).value)) ==>
              remote.release == old(remote.release)
    ensures old(remote.release).Some? && !old(remote.release).value.draft && Exact(job.files, old(remote.release).value.assets) ==>
              remote.release == old(remote.release)
    ensures Uninterrupted(job, run, State(old(remote.release), Idle))
    ensures run[|run| - 1] == State(remote.release, if ok then Finished else Failed)
  {
    ghost var s := State(remote.release, Idle);
    if job.files == [] {
      return false, [s, State(remote.release, Failed)];
    }
    var missing;
    missing, run := Begin(job, remote);
    if missing.None? {
      return false, run;
    }
    AgreementMeansPartial(job.files, remote.release.value.assets);
    MissingRemaining(job.files, remote.release.value.assets);
    ok, run := UploadAll(job, remote, missing.value, run, s);
    ok, run := Complete(job, remote, run, s);
  }
}
