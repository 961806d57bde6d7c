/** scripts/release/version.py: `sync` is all-or-nothing, and `bump` only moves the
    release identity forward. */
module ReleaseSync {
  import opened Options
  import opened ReleaseIdentity

  /** `check_lock` accepts, raises an error that `sync` handles, or breaks down on a member
      manifest without a quoted name, which nothing handles. */
  datatype Verdict = Agrees | Stale | Breaks

  /** The verdict on everything but the identity file itself. */
  type LockCheck = (Files, Release) -> Verdict

  /** How a command ended: it returned, raised after undoing its writes, or broke down. */
  datatype Ending = Returned | Raised | BrokeDown

  /** Whether the lock check breaks down does not depend on the files a sync writes. */
  ghost predicate Steady(layout: Layout, current: LockCheck) {
    forall a: Files, b: Files, r, q {:trigger current(a, r), current(b, q)} ::
      OnlyTouched(layout, a, b) ==> (current(a, r).Breaks? <==> current(b, q).Breaks?)
  }

  /** Projections and lockfiles agree with the release: `check`. */
  ghost predicate Consistent(layout: Layout, current: LockCheck, files: Files, r: Release) {
    && layout.Fits(files)
    && Projections(layout, files, r).Some? && Holds(layout, files, Projections(layout, files, r).value)
    && current(files - {Source}, r).Agrees?
  }

  /** The files a sync may write; all are snapshotted before the first write. */
  function Touched(layout: Layout): set<Path> {
    {Source, Cargo, Pubspec} + (set m | m in layout.modules :: Manifest(m)) + (set l | l in layout.locks :: Lock(l))
  }

  function Snapshot(layout: Layout, files: Files): Files {
    map p | p in files && p in Touched(layout) :: files[p]
  }

  /** Nothing but snapshotted files differs. */
  ghost predicate OnlyTouched(layout: Layout, before: Files, after: Files) {
    before.Keys == after.Keys && forall p :: p in before && p !in Touched(layout) ==> after[p] == before[p]
  }

  lemma {:induction false} RestoreUndoes(layout: Layout, before: Files, after: Files)
    requires OnlyTouched(layout, before, after)
    ensures after + Snapshot(layout, before) == before
  {
  }

  /** Lockfiles and the identity are not projections. */
  lemma {:induction false} HoldsStill(layout: Layout, before: Files, after: Files, p: Projected)
    requires layout.Fits(before) && Holds(layout, before, p) && before.Keys == after.Keys
    requires forall q :: q in before && !q.Lock? && !q.Source? ==> after[q] == before[q]
    requires after[Source].Identity?
    ensures layout.Fits(after) && Holds(layout, after, p)
  {
  }

  /** A steady check that agreed before the writes does not break down after them. */
  lemma {:induction false} NoLateBreakdown(layout: Layout, current: LockCheck, before: Files, after: Files, r: Release, q: Release)
    requires OnlyTouched(layout, before, after) && current(before - {Source}, r).Agrees? && current(after - {Source}, q).Breaks?
    ensures !Steady(layout, current)
  {
    var a, b := before - {Source}, after - {Source};
    assert a.Keys == before.Keys - {Source} && b.Keys == after.Keys - {Source};
    assert current(a, r).Agrees? && current(b, q).Breaks?;
  }

  class Checkout {
    const layout: Layout
    const current: LockCheck
    var files: Files

    constructor (layout: Layout, current: LockCheck, files: Files)
      ensures this.layout == layout && this.current == current && this.files == files
    {
      this.layout, this.current, this.files := layout, current, files;
    }

    /** A write that fails leaves the file with arbitrary content. */
    method Write(p: Path, content: Content) returns (ok: bool)
      requires p in files
      modifies this
      ensures ok ==> files == old(files)[p := content]
      ensures files.Keys == old(files).Keys && forall q :: q in files && q != p ==> files[q] == old(files)[q]
    {
      ok := *;
      var left: Content := *;
      files := files[p := if ok then content else left];
    }

    method WriteModules(modules: map<string, Option<Range>>) returns (ok: bool)
      requires modules.Keys == layout.modules && forall m :: m in modules ==> Manifest(m) in files
      modifies this
      ensures OnlyTouched(layout, old(files), files)
      ensures forall p :: p in files && !p.Manifest? ==> files[p] == old(files)[p]
      ensures ok ==> forall m :: m in modules ==> files[Manifest(m)] == Module(modules[m])
    {
      var rest := modules.Keys;
      while rest != {}
        invariant rest <= modules.Keys && OnlyTouched(layout, old(files), files)
        invariant forall p :: p in files && !p.Manifest? ==> files[p] == old(files)[p]
        invariant forall m :: m in modules && m !in rest ==> files[Manifest(m)] == Module(modules[m])
      {
        var m :| m in rest;
        ok := Write(Manifest(m), Module(modules[m]));
        if !ok {
          return;
        }
        rest := rest - {m};
      }
      ok := true;
    }

    /** `cargo update` owns each lockfile; it may fail and may write anything there. */
    method UpdateLocks() returns (ok: bool)
      requires forall l :: l in layout.locks ==> Lock(l) in files
      modifies this
      ensures OnlyTouched(layout, old(files), files)
      ensures forall p :: p in files && !p.Lock? ==> files[p] == old(files)[p]
    {
      var rest := layout.locks;
      while rest != {}
        invariant rest <= layout.locks && OnlyTouched(layout, old(files), files)
        invariant forall p :: p in files && !p.Lock? ==> files[p] == old(files)[p]
      {
        var l :| l in rest;
        var resolved: Content := *;
        ok := Write(Lock(l), resolved);
        if !ok {
          return;
        }
        rest := rest - {l};
      }
      ok := true;
    }

    method WriteExpected(expected: Projected) returns (ok: bool)
      requires layout.Fits(files) && expected.modules.Keys == layout.modules
      modifies this
      ensures OnlyTouched(layout, old(files), files)
      ensures files[Source] == old(files)[Source]
      ensures ok ==> layout.Fits(files) && Holds(layout, files, expected)
    {
      ok := Write(Cargo, Lines(expected.cargo));
      if !ok {
        return;
      }
      ok := Write(Pubspec, Lines(expected.pubspec));
      if !ok {
        return;
      }
      ok := WriteModules(expected.modules);
    }

    /** The body of the `try`: any step may fail. */
    method Attempt(r: Release, expected: Projected) returns (ending: Ending)
      requires layout.Fits(files) && expected.modules.Keys == layout.modules
      modifies this
      ensures OnlyTouched(layout, old(files), files)
      ensures !ending.Raised? ==> layout.Fits(files) && Holds(layout, files, expected)
      ensures ending.Returned? ==> current(files - {Source}, r).Agrees? && files[Source] == Identity(r)
      ensures ending.BrokeDown? ==> current(files - {Source}, r).Breaks? && files[Source] == old(files)[Source]
    {
      var ok := WriteExpected(expected);
      if !ok {
        return Raised;
      }
      ghost var written := files;
      ok := UpdateLocks();
      if !ok {
        return Raised;
      }
      HoldsStill(layout, written, files, expected);
      var verdict := current(files - {Source}, r);
      if !verdict.Agrees? {
        return if verdict.Breaks? then BrokeDown else Raised;
      }
      ghost var checked := files;
      ok := Write(Source, Identity(r));
      if !ok {
        return Raised;
      }
      assert files - {Source} == checked - {Source};
      HoldsStill(layout, checked, files, expected);
      return Returned;
    }

    /** Every projection, lockfile and the source agree with the release, or every file is
        as before; except that a breakdown of the lock check leaves the projections of a
        release that the source does not name. */
    method Sync(r: Release) returns (ending: Ending)
      requires layout.Fits(files)
      modifies this
      ensures OnlyTouched(layout, old(files), files)
      ensures ending.Returned? ==> ValidRelease(r) && Consistent(layout, current, files, r) && files[Source] == Identity(r)
      ensures ending.Returned? ==> Announces(layout, files, r) && 1 <= r.build <= 65535 && 200000038 < r.code <= 2100000000
      ensures ending.Raised? ==> files == old(files)
      ensures ending.BrokeDown? ==>
        && layout.Fits(files) && Projections(layout, old(files), r).Some? && Holds(layout, files, Projections(layout, old(files), r).value)
        && current(files - {Source}, r).Breaks? && files[Source] == old(files)[Source]
    {
      if !ValidRelease(r) {
        return Raised;
      }
      var expected := Projections(layout, files, r);
      if expected.None? {
        return Raised;
      }
      var snapshots := Snapshot(layout, files);
      ending := Attempt(r, expected.value);
      if ending.Raised? {
        RestoreUndoes(layout, old(files), files);
        files := files + snapshots;
      } else {
        WrittenAnnounce(layout, old(files), files, r);
      }
    }

    /** The next release, or no change at all: the lock check would have broken down before
        anything was written. */
    method Bump(version: Version) returns (ending: Ending)
      requires layout.Fits(files)
      modifies this
      ensures ending.Returned? ==> layout.Fits(files) && Bumped(old(files)[Source].release, files[Source].release, version)
      ensures ending.Returned? ==> Consistent(layout, current, old(files), old(files)[Source].release)
      ensures ending.Returned? ==> Consistent(layout, current, files, files[Source].release)
      ensures ending.Raised? ==> files == old(files)
      ensures layout.Fits(files) && (ending.BrokeDown? ==> files[Source] == old(files)[Source])
      ensures ending.BrokeDown? && Steady(layout, current) ==> files == old(files)
    {
      var before := files[Source].release;
      if !ValidRelease(before) {
        return Raised;
      }
      var expected := Projections(layout, files, before);
      if expected.None? || !Unchanged(expected.value) {
        return Raised;
      }
      var verdict := current(files - {Source}, before);
      if !verdict.Agrees? {
        return if verdict.Breaks? then BrokeDown else Raised;
      }
      var next := Release(version, before.build + 1, before.code + 1);
      if !ValidRelease(next) || !Below(before.version, version) {
        return Raised;
      }
      BelowIff(before.version, version);
      ending := Sync(next);
      if ending.BrokeDown? {
        NoLateBreakdown(layout, current, old(files), files, before, next);
      }
    }

    predicate Unchanged(p: Projected)
      requires layout.Fits(files)
      reads this
    {
      && files[Cargo].text == p.cargo && files[Pubspec].text == p.pubspec
      && p.modules.Keys == layout.modules && forall m :: m in layout.modules ==> files[Manifest(m)].range == p.modules[m]
    }
  }

  /** One successful bump of the identity. */
  ghost predicate Bumped(before: Release, after: Release, version: Version) {
    && after == Release(version, before.build + 1, before.code + 1)
    && Raises(before.version, version) && ValidRelease(before) && ValidRelease(after)
  }

  // ----- any run of bumps

  /** Successive identities: each attempt bumps or changes nothing. */
  ghost predicate Attempts(h: seq<Release>) {
    |h| > 0 && forall i :: 0 < i < |h| ==> h[i] == h[i - 1] || Bumped(h[i - 1], h[i], h[i].version)
  }

  /** How many of the first `n` attempts succeeded. */
  ghost function Successes(h: seq<Release>, n: nat): nat
    requires n < |h|
  {
    if n == 0 then 0 else Successes(h, n - 1) + if h[n] == h[n - 1] then 0 else 1
  }

  lemma {:induction false} RaisesTransitive(a: Version, b: Version, c: Version)
    requires Raises(a, b) && Raises(b, c)
    ensures Raises(a, c)
  {
  }

  /** Over any run of bumps both counters rise by exactly one per success, and versions
      never fall and strictly rise whenever anything succeeded in between. */
  lemma {:induction false} BumpsMoveForward(h: seq<Release>, i: nat, j: nat)
    requires Attempts(h) && i <= j < |h|
    ensures Successes(h, i) <= Successes(h, j)
    ensures h[j].build == h[i].build + (Successes(h, j) - Successes(h, i))
    ensures h[j].code == h[i].code + (Successes(h, j) - Successes(h, i))
    ensures if Successes(h, i) == Successes(h, j) then h[i] == h[j] else Raises(h[i].version, h[j].version) && ValidRelease(h[j])
    decreases j
  {
    if i < j {
      BumpsMoveForward(h, i, j - 1);
      assert h[j] == h[j - 1] || Bumped(h[j - 1], h[j], h[j].version);
      if h[j] != h[j - 1] && h[j - 1] != h[i] {
        RaisesTransitive(h[i].version, h[j - 1].version, h[j].version);
      }
    }
  }

  /** At most 65534 bumps fit below the bound on the build number. */
  lemma {:induction false} BumpsAreBounded(h: seq<Release>)
    requires Attempts(h) && ValidRelease(h[0])
    ensures Successes(h, |h| - 1) <= 65534 && ValidRelease(h[|h| - 1])
  {
    BumpsMoveForward(h, 0, |h| - 1);
  }
}
