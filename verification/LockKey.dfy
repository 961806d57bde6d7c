/** scripts/ci/flutter-cache-key.py: `normalize_lock`, and the fingerprint over both
    normalised files. A lockfile is the lines before the first package and the lines of
    each package, with the lines that matter already recognised. */
module LockKey {
  import opened Options
  import ManifestText
  import CacheKey

  /** A dependency is spelled `"name"` (`Bare`), `"name version"` (`Mention`) or
      `"name version (source)"` (`Qualified`), as briefly as is unambiguous. */
  datatype Line = Name(name: string) | Version(version: string) | Source(source: string)
                | Bare(name: string) | Mention(name: string, version: string) | Qualified(name: string, version: string, source: string)
                | Plain(text: string)

  datatype Lock = Lock(preamble: seq<Line>, packages: seq<seq<Line>>)

  /** A package with its version. */
  datatype Release = Release(name: string, version: string)

  // ----- what the normaliser recognises

  /** The first name and the first version among the first `n` lines. */
  function FirstName(block: seq<Line>, n: nat): Option<string>
    requires n <= |block|
  {
    if n == 0 then None
    else if FirstName(block, n - 1).Some? then FirstName(block, n - 1)
    else if block[n - 1].Name? then Some(block[n - 1].name) else None
  }

  function FirstVersion(block: seq<Line>, n: nat): Option<string>
    requires n <= |block|
  {
    if n == 0 then None
    else if FirstVersion(block, n - 1).Some? then FirstVersion(block, n - 1)
    else if block[n - 1].Version? then Some(block[n - 1].version) else None
  }

  function FirstSource(block: seq<Line>, n: nat): Option<string>
    requires n <= |block|
  {
    if n == 0 then None
    else if FirstSource(block, n - 1).Some? then FirstSource(block, n - 1)
    else if block[n - 1].Source? then Some(block[n - 1].source) else None
  }

  function ReleaseOf(block: seq<Line>): Option<Release> {
    var name, version := FirstName(block, |block|), FirstVersion(block, |block|);
    if name.None? || version.None? then None else Some(Release(name.value, version.value))
  }

  /** The release of a package that is built from this checkout, not fetched. */
  function LocalRelease(block: seq<Line>): Option<Release> {
    if FirstSource(block, |block|).Some? then None else ReleaseOf(block)
  }

  function WithoutVersions(block: seq<Line>, n: nat): seq<Line>
    requires n <= |block|
  {
    if n == 0 then [] else WithoutVersions(block, n - 1) + if block[n - 1].Version? then [] else [block[n - 1]]
  }

  function Stripped(block: seq<Line>): seq<Line> {
    if LocalRelease(block).Some? then WithoutVersions(block, |block|) else block
  }

  function LocalReleases(packages: seq<seq<Line>>, n: nat): seq<Release>
    requires n <= |packages|
  {
    if n == 0 then []
    else LocalReleases(packages, n - 1) + if LocalRelease(packages[n - 1]).Some? then [LocalRelease(packages[n - 1]).value] else []
  }

  /** A mention of one of the releases loses its version. */
  function Shortened(line: Line, releases: seq<Release>): Line {
    if line.Mention? && Release(line.name, line.version) in releases then Bare(line.name) else line
  }

  function ShortenedAll(lines: seq<Line>, releases: seq<Release>): seq<Line> {
    seq(|lines|, i requires 0 <= i < |lines| => Shortened(lines[i], releases))
  }

  function Normal(lock: Lock): Lock {
    var releases := LocalReleases(lock.packages, |lock.packages|);
    Lock(ShortenedAll(lock.preamble, releases),
         seq(|lock.packages|, i requires 0 <= i < |lock.packages| => ShortenedAll(Stripped(lock.packages[i]), releases)))
  }

  // ----- the loops

  lemma {:induction false} ShortenOneMore(lines: seq<Line>, releases: seq<Release>, r: Release)
    ensures ShortenedAll(ShortenedAll(lines, releases), [r]) == ShortenedAll(lines, releases + [r])
  {
  }

  method Shorten(lines: seq<Line>, releases: seq<Release>) returns (r: seq<Line>)
    ensures r == ShortenedAll(lines, releases)
  {
    r := lines;
    assert ShortenedAll(lines, []) == lines;
    for k := 0 to |releases|
      invariant r == ShortenedAll(lines, releases[..k])
    {
      ShortenOneMore(lines, releases[..k], releases[k]);
      assert releases[..k + 1] == releases[..k] + [releases[k]];
      r := ShortenedAll(r, [releases[k]]);
    }
    assert releases[..|releases|] == releases;
  }

  /** One pass strips the local packages and collects their releases; then every mention
      of one of those is shortened, release by release. */
  method NormalizeLock(lock: Lock) returns (r: Lock)
    ensures r == Normal(lock)
  {
    var blocks: seq<seq<Line>>, releases: seq<Release> := [], [];
    for i := 0 to |lock.packages|
      invariant |blocks| == i && releases == LocalReleases(lock.packages, i)
      invariant forall j :: 0 <= j < i ==> blocks[j] == Stripped(lock.packages[j])
    {
      var local := LocalRelease(lock.packages[i]);
      if local.Some? {
        releases := releases + [local.value];
      }
      blocks := blocks + [Stripped(lock.packages[i])];
    }
    var preamble := Shorten(lock.preamble, releases);
    var packages: seq<seq<Line>> := [];
    for i := 0 to |blocks|
      invariant |packages| == i && forall j :: 0 <= j < i ==> packages[j] == ShortenedAll(blocks[j], releases)
    {
      var block := Shorten(blocks[i], releases);
      packages := packages + [block];
    }
    r := Lock(preamble, packages);
  }

  // ----- what the normal form shows, line by line

  /** The package is built from this checkout: it names itself and a version, no source. */
  ghost predicate LocalBlock(block: seq<Line>) {
    && (exists i :: 0 <= i < |block| && block[i].Name?) && (exists i :: 0 <= i < |block| && block[i].Version?)
    && forall i :: 0 <= i < |block| ==> !block[i].Source?
  }

  ghost predicate FirstNamed(block: seq<Line>, name: string) {
    exists i :: 0 <= i < |block| && block[i] == Name(name) && forall j :: 0 <= j < i ==> !block[j].Name?
  }

  ghost predicate FirstVersioned(block: seq<Line>, version: string) {
    exists i :: 0 <= i < |block| && block[i] == Version(version) && forall j :: 0 <= j < i ==> !block[j].Version?
  }

  /** A package of this checkout has this name and version. */
  ghost predicate BuildsHere(lock: Lock, name: string, version: string) {
    exists i :: 0 <= i < |lock.packages| && LocalBlock(lock.packages[i]) && FirstNamed(lock.packages[i], name) && FirstVersioned(lock.packages[i], version)
  }

  /** A line as the normal form spells it. */
  ghost function Shown(lock: Lock, line: Line): Line {
    if line.Mention? && BuildsHere(lock, line.name, line.version) then Bare(line.name) else line
  }

  /** The line is left out of the normal form. */
  ghost predicate Omitted(block: seq<Line>, i: nat)
    requires i < |block|
  {
    block[i].Version? && LocalBlock(block)
  }

  lemma {:induction false} FirstNameSome(block: seq<Line>, n: nat)
    requires n <= |block|
    ensures FirstName(block, n).Some? <==> exists i :: 0 <= i < n && block[i].Name?
  {
    if n > 0 {
      FirstNameSome(block, n - 1);
    }
  }

  lemma {:induction false} FirstNameFinds(block: seq<Line>, n: nat, name: string)
    requires n <= |block|
    ensures FirstName(block, n) == Some(name) <==> exists i {:trigger block[i]} :: 0 <= i < n && block[i] == Name(name) && forall j :: 0 <= j < i ==> !block[j].Name?
  {
    if n > 0 {
      FirstNameSome(block, n - 1);
      FirstNameFinds(block, n - 1, name);
    }
  }

  lemma {:induction false} FirstVersionSome(block: seq<Line>, n: nat)
    requires n <= |block|
    ensures FirstVersion(block, n).Some? <==> exists i :: 0 <= i < n && block[i].Version?
  {
    if n > 0 {
      FirstVersionSome(block, n - 1);
    }
  }

  lemma {:induction false} FirstVersionFinds(block: seq<Line>, n: nat, version: string)
    requires n <= |block|
    ensures FirstVersion(block, n) == Some(version) <==> exists i {:trigger block[i]} :: 0 <= i < n && block[i] == Version(version) && forall j :: 0 <= j < i ==> !block[j].Version?
  {
    if n > 0 {
      FirstVersionSome(block, n - 1);
      FirstVersionFinds(block, n - 1, version);
    }
  }

  lemma {:induction false} FirstSourceFinds(block: seq<Line>, n: nat)
    requires n <= |block|
    ensures FirstSource(block, n).None? <==> forall i :: 0 <= i < n ==> !block[i].Source?
  {
    if n > 0 {
      FirstSourceFinds(block, n - 1);
    }
  }

  lemma {:induction false} LocalIsBlock(block: seq<Line>, name: string, version: string)
    ensures LocalRelease(block).Some? <==> LocalBlock(block)
    ensures LocalRelease(block) == Some(Release(name, version)) <==> LocalBlock(block) && FirstNamed(block, name) && FirstVersioned(block, version)
  {
    FirstNameSome(block, |block|);
    FirstVersionSome(block, |block|);
    FirstNameFinds(block, |block|, name);
    FirstVersionFinds(block, |block|, version);
    FirstSourceFinds(block, |block|);
  }

  lemma {:induction false} ShownIsShortened(lock: Lock, line: Line)
    ensures Shortened(line, LocalReleases(lock.packages, |lock.packages|)) == Shown(lock, line)
  {
    if line.Mention? {
      LocalReleasesMember(lock.packages, |lock.packages|, Release(line.name, line.version));
      forall i | 0 <= i < |lock.packages|
        ensures LocalRelease(lock.packages[i]) == Some(Release(line.name, line.version)) <==>
                LocalBlock(lock.packages[i]) && FirstNamed(lock.packages[i], line.name) && FirstVersioned(lock.packages[i], line.version)
      {
        LocalIsBlock(lock.packages[i], line.name, line.version);
      }
    }
  }

  /** The lines of a package up to the `n`th, as shown, without those left out. */
  ghost function ShownLines(lock: Lock, block: seq<Line>, n: nat): seq<Line>
    requires n <= |block|
  {
    if n == 0 then [] else ShownLines(lock, block, n - 1) + if Omitted(block, n - 1) then [] else [Shown(lock, block[n - 1])]
  }

  lemma {:induction false} ShownAppends(lines: seq<Line>, x: Line, releases: seq<Release>)
    ensures ShortenedAll(lines + [x], releases) == ShortenedAll(lines, releases) + [Shortened(x, releases)]
  {
  }

  lemma {:induction false} LocalShown(lock: Lock, block: seq<Line>, n: nat, releases: seq<Release>)
    requires n <= |block| && LocalBlock(block) && releases == LocalReleases(lock.packages, |lock.packages|)
    ensures ShortenedAll(WithoutVersions(block, n), releases) == ShownLines(lock, block, n)
  {
    if n > 0 {
      LocalShown(lock, block, n - 1, releases);
      if !block[n - 1].Version? {
        ShownIsShortened(lock, block[n - 1]);
        ShownAppends(WithoutVersions(block, n - 1), block[n - 1], releases);
      }
    }
  }

  lemma {:induction false} FetchedShown(lock: Lock, block: seq<Line>, n: nat, releases: seq<Release>)
    requires n <= |block| && !LocalBlock(block) && releases == LocalReleases(lock.packages, |lock.packages|)
    ensures ShortenedAll(block[..n], releases) == ShownLines(lock, block, n)
  {
    if n > 0 {
      FetchedShown(lock, block, n - 1, releases);
      ShownIsShortened(lock, block[n - 1]);
      ShownAppends(block[..n - 1], block[n - 1], releases);
      assert block[..n] == block[..n - 1] + [block[n - 1]];
    }
  }

  lemma {:induction false} BlockShown(lock: Lock, block: seq<Line>)
    ensures ShortenedAll(Stripped(block), LocalReleases(lock.packages, |lock.packages|)) == ShownLines(lock, block, |block|)
  {
    LocalIsBlock(block, "", "");
    if LocalBlock(block) {
      LocalShown(lock, block, |block|, LocalReleases(lock.packages, |lock.packages|));
    } else {
      FetchedShown(lock, block, |block|, LocalReleases(lock.packages, |lock.packages|));
      assert block[..|block|] == block;
    }
  }

  /** The normal form is every line as shown, in its place, but for the version lines of
      the packages of this checkout. */
  lemma {:induction false} NormalShows(lock: Lock)
    ensures |Normal(lock).preamble| == |lock.preamble| && |Normal(lock).packages| == |lock.packages|
    ensures forall i :: 0 <= i < |lock.preamble| ==> Normal(lock).preamble[i] == Shown(lock, lock.preamble[i])
    ensures forall i :: 0 <= i < |lock.packages| ==> Normal(lock).packages[i] == ShownLines(lock, lock.packages[i], |lock.packages[i]|)
  {
    forall i | 0 <= i < |lock.preamble| ensures Normal(lock).preamble[i] == Shown(lock, lock.preamble[i]) {
      ShownIsShortened(lock, lock.preamble[i]);
    }
    forall i | 0 <= i < |lock.packages| ensures Normal(lock).packages[i] == ShownLines(lock, lock.packages[i], |lock.packages[i]|) {
      BlockShown(lock, lock.packages[i]);
    }
  }

  // ----- which changes it shows

  /** Alike in layout: the same lines are names, versions and sources. */
  ghost predicate SameLayout(a: Lock, b: Lock) {
    && |a.preamble| == |b.preamble| && |a.packages| == |b.packages|
    && forall i {:trigger SameKinds(a.packages[i], b.packages[i])} :: 0 <= i < |a.packages| ==> SameKinds(a.packages[i], b.packages[i])
  }

  ghost predicate SameKinds(x: seq<Line>, y: seq<Line>) {
    && |x| == |y|
    && forall k :: 0 <= k < |x| ==> && (x[k].Name? <==> y[k].Name?) && (x[k].Version? <==> y[k].Version?) && (x[k].Source? <==> y[k].Source?)
  }

  lemma {:induction false} SameKindsLocal(x: seq<Line>, y: seq<Line>)
    requires SameKinds(x, y)
    ensures LocalBlock(x) <==> LocalBlock(y)
  {
    forall k | 0 <= k < |x| ensures (x[k].Name? <==> y[k].Name?) && (x[k].Version? <==> y[k].Version?) && (x[k].Source? <==> y[k].Source?) {
    }
  }

  ghost predicate LineHidden(a: Lock, b: Lock, x: seq<Line>, y: seq<Line>, k: nat)
    requires k < |x| && k < |y|
  {
    Omitted(x, k) || Shown(a, x[k]) == Shown(b, y[k])
  }

  ghost predicate BlockHidden(a: Lock, b: Lock, x: seq<Line>, y: seq<Line>, n: nat)
    requires n <= |x| && n <= |y|
  {
    forall k {:trigger LineHidden(a, b, x, y, k)} :: 0 <= k < n ==> LineHidden(a, b, x, y, k)
  }

  ghost predicate HiddenAt(a: Lock, b: Lock, i: nat)
    requires i < |a.packages| && i < |b.packages|
  {
    var x, y := a.packages[i], b.packages[i];
    |x| == |y| && BlockHidden(a, b, x, y, |x|)
  }

  lemma {:induction false} SameSnoc(s: seq<Line>, x: Line, r: seq<Line>, y: Line)
    ensures s + [x] == r + [y] <==> s == r && x == y
  {
    if s + [x] == r + [y] {
      assert s == (s + [x])[..|s|] && r == (r + [y])[..|r|];
      assert x == (s + [x])[|s|] && y == (r + [y])[|r|];
    }
  }

  lemma {:induction false} BlockHiddenStep(a: Lock, b: Lock, x: seq<Line>, y: seq<Line>, n: nat)
    requires n < |x| == |y|
    ensures BlockHidden(a, b, x, y, n + 1) <==> BlockHidden(a, b, x, y, n) && LineHidden(a, b, x, y, n)
  {
  }

  lemma {:induction false} ShownSameIff(a: Lock, b: Lock, x: seq<Line>, y: seq<Line>, n: nat)
    requires SameKinds(x, y) && n <= |x|
    ensures ShownLines(a, x, n) == ShownLines(b, y, n) <==> BlockHidden(a, b, x, y, n)
  {
    if n > 0 {
      ShownSameIff(a, b, x, y, n - 1);
      SameKindsLocal(x, y);
      BlockHiddenStep(a, b, x, y, n - 1);
      ShownStep(a, b, x, y, n - 1);
    }
  }

  lemma {:induction false} ShownStep(a: Lock, b: Lock, x: seq<Line>, y: seq<Line>, n: nat)
    requires SameKinds(x, y) && n < |x| && (LocalBlock(x) <==> LocalBlock(y))
    ensures ShownLines(a, x, n + 1) == ShownLines(b, y, n + 1) <==> ShownLines(a, x, n) == ShownLines(b, y, n) && LineHidden(a, b, x, y, n)
  {
    assert x[n].Version? <==> y[n].Version?;
    var s, r := ShownLines(a, x, n), ShownLines(b, y, n);
    assert s + [] == s && r + [] == r;
    SameSnoc(s, Shown(a, x[n]), r, Shown(b, y[n]));
  }

  /** Two lockfiles of the same layout have the same normal form exactly when every line
      that is not the version of a package of this checkout is shown alike in both. */
  lemma {:induction false} ChangeHiddenIff(a: Lock, b: Lock)
    requires SameLayout(a, b)
    ensures Normal(a) == Normal(b) <==>
            && (forall i :: 0 <= i < |a.preamble| ==> Shown(a, a.preamble[i]) == Shown(b, b.preamble[i]))
            && (forall i :: 0 <= i < |a.packages| ==> HiddenAt(a, b, i))
  {
    NormalShows(a);
    NormalShows(b);
    forall i | 0 <= i < |a.packages|
      ensures Normal(a).packages[i] == Normal(b).packages[i] <==> HiddenAt(a, b, i)
    {
      assert SameKinds(a.packages[i], b.packages[i]);
      ShownSameIff(a, b, a.packages[i], b.packages[i], |a.packages[i]|);
    }
    var p, q := Normal(a), Normal(b);
    if (forall i :: 0 <= i < |p.preamble| ==> p.preamble[i] == q.preamble[i]) && (forall i :: 0 <= i < |p.packages| ==> p.packages[i] == q.packages[i]) {
      assert p.preamble == q.preamble && p.packages == q.packages;
    }
  }

  /** A fetched package that moves to another version shows, whatever else is there. */
  lemma {:induction false} FetchedVersionShows(a: Lock, i: nat, k: nat, w: string)
    requires i < |a.packages| && k < |a.packages[i]| && a.packages[i][k].Version? && a.packages[i][k] != Version(w)
    requires exists j :: 0 <= j < |a.packages[i]| && a.packages[i][j].Source?
    ensures Normal(a.(packages := a.packages[i := a.packages[i][k := Version(w)]])) != Normal(a)
  {
    var x, y := a.packages[i], a.packages[i][k := Version(w)];
    var b := a.(packages := a.packages[i := y]);
    forall n | 0 <= n < |a.packages| ensures SameKinds(a.packages[n], b.packages[n]) {
    }
    ChangeHiddenIff(a, b);
    assert !LocalBlock(x) && !LineHidden(a, b, x, y, k);
    assert !HiddenAt(a, b, i);
  }

  // ----- what a release bump does to the lockfile

  /** The workspace members that share the release version, and its two values. */
  datatype Bump = Bump(members: set<string>, was: string, next: string)

  /** How many fetched packages among the first `n` have this release. */
  function Fetched(packages: seq<seq<Line>>, n: nat, r: Release): nat
    requires n <= |packages|
  {
    if n == 0 then 0
    else
      var block := packages[n - 1];
      Fetched(packages, n - 1, r) + if FirstSource(block, |block|).Some? && ReleaseOf(block) == Some(r) then 1 else 0
  }

  /** The source of one of them. */
  function SourceOf(packages: seq<seq<Line>>, n: nat, r: Release): string
    requires n <= |packages|
  {
    if n == 0 then ""
    else
      var block := packages[n - 1];
      var source := FirstSource(block, |block|);
      if source.Some? && ReleaseOf(block) == Some(r) then source.value else SourceOf(packages, n - 1, r)
  }

  /** A dependency as it is spelled once the members have moved: on a member, with its new
      version; on a fetched package of a member's name, with its source where it now
      shares the member's version, and without where it alone shared it before. */
  /** The source spelled out is that of a fetched package of this release. */
  lemma {:induction false} SourceOfFetched(packages: seq<seq<Line>>, n: nat, r: Release)
    requires n <= |packages| && Fetched(packages, n, r) > 0
    ensures exists i :: 0 <= i < n && ReleaseOf(packages[i]) == Some(r)
                        && FirstSource(packages[i], |packages[i]|) == Some(SourceOf(packages, n, r))
  {
    var block := packages[n - 1];
    if FirstSource(block, |block|).None? || ReleaseOf(block) != Some(r) {
      SourceOfFetched(packages, n - 1, r);
    }
  }

  function BumpedMention(line: Line, b: Bump, lock: Lock): Line {
    var count := (r: Release) => Fetched(lock.packages, |lock.packages|, r);
    match line
    case Mention(n, v) =>
      if n !in b.members then line
      else if v == b.was then Mention(n, b.next)
      else if v == b.next && count(Release(n, v)) > 0 then Qualified(n, v, SourceOf(lock.packages, |lock.packages|, Release(n, v)))
      else line
    case Qualified(n, v, _) =>
      if n in b.members && v == b.was && count(Release(n, v)) == 1 then Mention(n, v) else line
    case _ => line
  }

  function BumpedLine(line: Line, b: Bump, lock: Lock, ours: bool): Line {
    if ours && line == Version(b.was) then Version(b.next) else BumpedMention(line, b, lock)
  }

  /** The package is a workspace member at the old version. */
  predicate Ours(block: seq<Line>, b: Bump) {
    var r := LocalRelease(block);
    r.Some? && r.value.name in b.members && r.value.version == b.was
  }

  function BumpedBlock(block: seq<Line>, b: Bump, lock: Lock): seq<Line> {
    seq(|block|, i requires 0 <= i < |block| => BumpedLine(block[i], b, lock, Ours(block, b)))
  }

  function BumpedMentions(lines: seq<Line>, b: Bump, lock: Lock): seq<Line> {
    seq(|lines|, i requires 0 <= i < |lines| => BumpedMention(lines[i], b, lock))
  }

  /** `cargo update --workspace`: the members' own versions and the mentions of them. */
  function Bumped(lock: Lock, b: Bump): Lock {
    Lock(BumpedMentions(lock.preamble, b, lock), seq(|lock.packages|, i requires 0 <= i < |lock.packages| => BumpedBlock(lock.packages[i], b, lock)))
  }

  ghost predicate IsLocal(lock: Lock, r: Release) {
    exists i :: 0 <= i < |lock.packages| && LocalRelease(lock.packages[i]) == Some(r)
  }

  /** What the release check demands: each member is there, at the old version only. */
  ghost predicate Checked(lock: Lock, b: Bump) {
    forall n, v :: n in b.members ==> (IsLocal(lock, Release(n, v)) <==> v == b.was)
  }

  lemma {:induction false} LocalReleasesMember(packages: seq<seq<Line>>, n: nat, r: Release)
    requires n <= |packages|
    ensures r in LocalReleases(packages, n) <==> exists i :: 0 <= i < n && LocalRelease(packages[i]) == Some(r)
  {
    if n > 0 {
      LocalReleasesMember(packages, n - 1, r);
    }
  }

  lemma {:induction false} BumpedFirsts(block: seq<Line>, b: Bump, lock: Lock, n: nat)
    requires n <= |block|
    ensures FirstName(BumpedBlock(block, b, lock), n) == FirstName(block, n)
    ensures FirstSource(BumpedBlock(block, b, lock), n) == FirstSource(block, n)
    ensures FirstVersion(BumpedBlock(block, b, lock), n) ==
            if Ours(block, b) && FirstVersion(block, n) == Some(b.was) then Some(b.next) else FirstVersion(block, n)
  {
    if n > 0 {
      BumpedFirsts(block, b, lock, n - 1);
    }
  }

  lemma {:induction false} BumpedRelease(block: seq<Line>, b: Bump, lock: Lock)
    ensures LocalRelease(BumpedBlock(block, b, lock)) ==
            if Ours(block, b) then Some(LocalRelease(block).value.(version := b.next)) else LocalRelease(block)
  {
    BumpedFirsts(block, b, lock, |block|);
  }

  lemma {:induction false} BumpedWithoutVersions(block: seq<Line>, b: Bump, lock: Lock, n: nat)
    requires n <= |block|
    ensures WithoutVersions(BumpedBlock(block, b, lock), n) == BumpedMentions(WithoutVersions(block, n), b, lock)
  {
    if n > 0 {
      BumpedWithoutVersions(block, b, lock, n - 1);
    }
  }

  /** Stripping hides the members' own versions, and leaves the mentions. */
  lemma {:induction false} BumpedStripped(block: seq<Line>, b: Bump, lock: Lock)
    ensures Stripped(BumpedBlock(block, b, lock)) == BumpedMentions(Stripped(block), b, lock)
  {
    BumpedRelease(block, b, lock);
    BumpedWithoutVersions(block, b, lock, |block|);
    if LocalRelease(block).None? {
      assert BumpedBlock(block, b, lock) == BumpedMentions(block, b, lock);
    }
  }

  /** The releases after the bump are those before it, with the members' versions moved. */
  lemma {:induction false} BumpedLocal(lock: Lock, b: Bump, n: string, v: string)
    requires Checked(lock, b)
    ensures IsLocal(Bumped(lock, b), Release(n, v)) <==> if n in b.members then v == b.next else IsLocal(lock, Release(n, v))
  {
    var other := Bumped(lock, b);
    forall i | 0 <= i < |lock.packages| ensures LocalRelease(other.packages[i]) == MovedRelease(LocalRelease(lock.packages[i]), b) {
      BumpedRelease(lock.packages[i], b, lock);
      var r := LocalRelease(lock.packages[i]);
      if r.Some? && r.value.name in b.members {
        assert IsLocal(lock, Release(r.value.name, r.value.version));
      }
    }
    if n in b.members && v == b.next {
      assert IsLocal(lock, Release(n, b.was));
      var i :| 0 <= i < |lock.packages| && LocalRelease(lock.packages[i]) == Some(Release(n, b.was));
      assert LocalRelease(other.packages[i]) == Some(Release(n, b.next));
    }
    if n !in b.members && IsLocal(lock, Release(n, v)) {
      var i :| 0 <= i < |lock.packages| && LocalRelease(lock.packages[i]) == Some(Release(n, v));
      assert LocalRelease(other.packages[i]) == Some(Release(n, v));
    }
  }

  function MovedRelease(r: Option<Release>, b: Bump): Option<Release> {
    if r.Some? && r.value.name in b.members then Some(r.value.(version := b.next)) else r
  }

  // ----- and what of it shows

  /** A dependency that the bump respells: on a fetched package of a member's name, at the
      new version or alone at the old one. */
  predicate Clash(line: Line, b: Bump, lock: Lock) {
    || (line.Mention? && line.name in b.members && line.version == b.next)
    || (line.Qualified? && line.name in b.members && line.version == b.was
        && Fetched(lock.packages, |lock.packages|, Release(line.name, b.was)) == 1)
  }

  ghost function Releases(lock: Lock): seq<Release> {
    LocalReleases(lock.packages, |lock.packages|)
  }

  lemma {:induction false} LineSameIff(lock: Lock, b: Bump, line: Line)
    requires Checked(lock, b) && b.was != b.next
    ensures Shortened(BumpedMention(line, b, lock), Releases(Bumped(lock, b))) == Shortened(line, Releases(lock)) <==> !Clash(line, b, lock)
  {
    if line.Mention? {
      var n, v, other := line.name, line.version, Bumped(lock, b);
      var moved := if n in b.members && v == b.was then b.next else v;
      LocalReleasesMember(lock.packages, |lock.packages|, Release(n, v));
      LocalReleasesMember(other.packages, |other.packages|, Release(n, moved));
      BumpedLocal(lock, b, n, moved);
      assert Release(n, v) in Releases(lock) <==> IsLocal(lock, Release(n, v));
      assert Release(n, moved) in Releases(other) <==> IsLocal(other, Release(n, moved));
    }
  }

  lemma {:induction false} LinesSameIff(lock: Lock, b: Bump, lines: seq<Line>)
    requires Checked(lock, b) && b.was != b.next
    ensures ShortenedAll(BumpedMentions(lines, b, lock), Releases(Bumped(lock, b))) == ShortenedAll(lines, Releases(lock)) <==>
            forall i :: 0 <= i < |lines| ==> !Clash(lines[i], b, lock)
  {
    var after, before := ShortenedAll(BumpedMentions(lines, b, lock), Releases(Bumped(lock, b))), ShortenedAll(lines, Releases(lock));
    forall i | 0 <= i < |lines| ensures after[i] == before[i] <==> !Clash(lines[i], b, lock) {
      LineSameIff(lock, b, lines[i]);
    }
  }

  /** No dependency clashes with the bump. */
  ghost predicate NoClash(lock: Lock, b: Bump) {
    && (forall line :: line in lock.preamble ==> !Clash(line, b, lock))
    && (forall i, line :: 0 <= i < |lock.packages| && line in lock.packages[i] ==> !Clash(line, b, lock))
  }

  lemma {:induction false} MentionsStay(block: seq<Line>, n: nat, line: Line)
    requires n <= |block| && !line.Version?
    ensures line in WithoutVersions(block, n) <==> line in block[..n]
  {
    if n > 0 {
      MentionsStay(block, n - 1, line);
      assert block[..n] == block[..n - 1] + [block[n - 1]];
    }
  }

  lemma {:induction false} BlockSameIff(lock: Lock, b: Bump, block: seq<Line>)
    requires Checked(lock, b) && b.was != b.next
    ensures ShortenedAll(Stripped(BumpedBlock(block, b, lock)), Releases(Bumped(lock, b))) == ShortenedAll(Stripped(block), Releases(lock)) <==>
            forall line :: line in block ==> !Clash(line, b, lock)
  {
    BumpedStripped(block, b, lock);
    LinesSameIff(lock, b, Stripped(block));
    forall line: Line | Clash(line, b, lock) ensures line in Stripped(block) <==> line in block {
      MentionsStay(block, |block|, line);
      assert block[..|block|] == block;
    }
  }

  /** A bump of a checked lockfile is invisible exactly when no dependency is on a fetched
      package of a member's name at the new version, or on the only one at the old. */
  lemma {:induction false} LockInvisibleIff(lock: Lock, b: Bump)
    requires Checked(lock, b) && b.was != b.next
    ensures Normal(Bumped(lock, b)) == Normal(lock) <==> NoClash(lock, b)
  {
    var before, after := Normal(lock), Normal(Bumped(lock, b));
    LinesSameIff(lock, b, lock.preamble);
    forall i | 0 <= i < |lock.packages| ensures after.packages[i] == before.packages[i] <==> forall line :: line in lock.packages[i] ==> !Clash(line, b, lock) {
      BlockSameIff(lock, b, lock.packages[i]);
    }
    if NoClash(lock, b) {
      assert after.packages == before.packages;
    }
  }

  // ----- the fingerprint

  /** What the key is computed from: both files normalised, and everything else. */
  datatype KeyParts<T> = KeyParts(manifest: ManifestText.Text, lock: Lock, others: T)

  function PartsOf<T>(manifest: ManifestText.Text, lock: Lock, others: T): KeyParts<T> {
    KeyParts(CacheKey.Normalized(manifest), Normal(lock), others)
  }

  /** A bump leaves everything the key is computed from unchanged exactly when it is
      hidden in the manifest and clashes with nothing in the lockfile. */
  lemma {:induction false} KeyUnchangedIff<T>(manifest: ManifestText.Text, version: string, code: string, lock: Lock, b: Bump, others: T)
    requires ManifestText.Literal(version) && CacheKey.ProjectManifest(manifest, version, code).Some?
    requires Checked(lock, b) && b.was != b.next
    ensures ManifestText.Locate(manifest, CacheKey.PACKAGE_TABLE, CacheKey.VERSION_KEY).Some?
    ensures ManifestText.Locate(manifest, CacheKey.METADATA_TABLE, CacheKey.CODE_KEY).Some?
    ensures PartsOf(CacheKey.ProjectManifest(manifest, version, code).value, Bumped(lock, b), others) == PartsOf(manifest, lock, others) <==>
            CacheKey.BumpHidden(manifest, version, code) && NoClash(lock, b)
  {
    CacheKey.BumpInvisibleIff(manifest, version, code);
    LockInvisibleIff(lock, b);
  }

  /** In particular for every manifest without indented headers. */
  lemma {:induction false} KeyBlindToBump<T>(manifest: ManifestText.Text, version: string, code: string, lock: Lock, b: Bump, others: T)
    requires CacheKey.NoIndentedHeader(manifest) && ManifestText.Literal(version)
    requires CacheKey.ProjectManifest(manifest, version, code).Some?
    requires Checked(lock, b) && b.was != b.next && NoClash(lock, b)
    ensures PartsOf(CacheKey.ProjectManifest(manifest, version, code).value, Bumped(lock, b), others) == PartsOf(manifest, lock, others)
  {
    CacheKey.BumpInvisible(manifest, version, code);
    LockInvisibleIff(lock, b);
  }

  /** A member `m` at the old version, a fetched package of that name at version `v`, and a
      third package that depends on the fetched one. */
  function Namesake(m: string, was: string, v: string): Lock {
    Lock([], [[Name(m), Version(was)],
              [Name(m), Version(v), Source("registry")],
              [Name("other"), Version("1"), Source("registry"), if v == was then Qualified(m, v, "registry") else Mention(m, v)]])
  }

  lemma {:induction false} NameAndVersion(m: string, v: string, rest: seq<Line>)
    ensures var block := [Name(m), Version(v)] + rest;
            FirstName(block, 2) == Some(m) && FirstVersion(block, 2) == Some(v) && FirstSource(block, 2).None?
  {
    var block := [Name(m), Version(v)] + rest;
    assert block[0] == Name(m) && block[1] == Version(v);
    assert FirstName(block, 0).None? && FirstVersion(block, 0).None? && FirstSource(block, 0).None?;
    assert FirstName(block, 1) == Some(m) && FirstVersion(block, 1).None? && FirstSource(block, 1).None?;
  }

  lemma {:induction false} NamesakeBlocks(m: string, was: string, v: string)
    requires m != "other"
    ensures var p := Namesake(m, was, v).packages;
            && LocalRelease(p[0]) == Some(Release(m, was)) && LocalRelease(p[1]).None? && LocalRelease(p[2]).None?
            && Fetched(p, 3, Release(m, v)) == 1
  {
    var p := Namesake(m, was, v).packages;
    NameAndVersion(m, was, []);
    assert [Name(m), Version(was)] + [] == p[0];
    NameAndVersion(m, v, p[1][2..]);
    assert p[1] == [Name(m), Version(v)] + p[1][2..] && p[1][2] == Source("registry");
    assert FirstName(p[1], 3) == Some(m) && FirstVersion(p[1], 3) == Some(v) && FirstSource(p[1], 3) == Some("registry");
    NameAndVersion("other", "1", p[2][2..]);
    assert p[2] == [Name("other"), Version("1")] + p[2][2..] && p[2][2] == Source("registry");
    assert FirstName(p[2], 3) == Some("other") && FirstVersion(p[2], 3) == Some("1") && FirstSource(p[2], 3) == Some("registry");
    assert FirstName(p[2], 4) == Some("other") && FirstSource(p[2], 4) == Some("registry");
    assert ReleaseOf(p[1]) == Some(Release(m, v)) && (ReleaseOf(p[2]).Some? ==> ReleaseOf(p[2]).value.name == "other");
    assert Fetched(p, 0, Release(m, v)) == 0 && Fetched(p, 1, Release(m, v)) == 0 && Fetched(p, 2, Release(m, v)) == 1;
  }

  /** The dependency on a namesake at the new version, or at the old one, is respelled, and
      the key changes. */
  lemma {:induction false} ClashShows(m: string, b: Bump, v: string)
    requires b.members == {m} && m != "other" && b.was != b.next && (v == b.was || v == b.next)
    ensures Checked(Namesake(m, b.was, v), b) && Normal(Bumped(Namesake(m, b.was, v), b)) != Normal(Namesake(m, b.was, v))
  {
    var lock := Namesake(m, b.was, v);
    NamesakeBlocks(m, b.was, v);
    assert forall x :: IsLocal(lock, Release(m, x)) <==> x == b.was by {
      assert LocalRelease(lock.packages[0]) == Some(Release(m, b.was));
      assert IsLocal(lock, Release(m, b.was));
    }
    var line := lock.packages[2][3];
    assert line in lock.packages[2] && Clash(line, b, lock);
    LockInvisibleIff(lock, b);
  }
}
