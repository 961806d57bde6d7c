/** scripts/release/publish-release.py and scripts/modules/publish-qualified-release.py:
    a release is drafted, filled, read back and promoted; `missing_assets` compares
    the remote release with the qualified files. */
module Publication {
  import opened Options

  /** A qualified file and a remote asset are compared by name, size and digest. */
  datatype File = File(name: string, size: nat, digest: string)

  datatype Release = Release(id: int, tag: string, commit: string, draft: bool, prerelease: bool, assets: seq<File>)

  ghost predicate DistinctNames(files: seq<File>) {
    forall i, j :: 0 <= i < j < |files| ==> files[i].name != files[j].name
  }

  predicate HasName(files: seq<File>, name: string) {
    exists f :: f in files && f.name == name
  }

  /** Those of the first `n` files without an asset of their name, in directory order. */
  function MissingFirst(files: seq<File>, assets: seq<File>, n: nat): seq<File>
    requires n <= |files|
  {
    if n == 0 then []
    else MissingFirst(files, assets, n - 1) + if HasName(assets, files[n - 1].name) then [] else [files[n - 1]]
  }

  function Missing(files: seq<File>, assets: seq<File>): seq<File> {
    MissingFirst(files, assets, |files|)
  }

  function Named(assets: seq<File>, name: string): seq<File> {
    if assets == [] then []
    else (if assets[0].name == name then [assets[0]] else []) + Named(assets[1..], name)
  }

  /** At most one asset of the file's name, with the file's size and digest. */
  predicate AgreesOn(assets: seq<File>, f: File) {
    Named(assets, f.name) == [] || Named(assets, f.name) == [f]
  }

  /** Every asset is qualified: named after a file and equal to it. */
  predicate Agrees(files: seq<File>, assets: seq<File>) {
    && (forall a :: a in assets ==> HasName(files, a.name))
    && (forall f :: f in files ==> AgreesOn(assets, f))
  }

  predicate Stable(r: Release, allowDraft: bool) {
    (!r.draft || allowDraft) && !r.prerelease
  }

  /** The file loop of `missing_assets`. */
  method Compare(files: seq<File>, assets: seq<File>) returns (missing: Option<seq<File>>)
    ensures missing.Some? <==> forall i :: 0 <= i < |files| ==> AgreesOn(assets, files[i])
    ensures missing.Some? ==> missing.value == Missing(files, assets)
  {
    var found := [];
    var i := 0;
    while i < |files|
      invariant 0 <= i <= |files| && found == MissingFirst(files, assets, i)
      invariant forall j :: 0 <= j < i ==> AgreesOn(assets, files[j])
    {
      NamedEmpty(assets, files[i].name);
      var matching := Named(assets, files[i].name);
      if matching != [] && matching != [files[i]] {
        return None;
      }
      if matching == [] {
        found := found + [files[i]];
      }
      i := i + 1;
    }
    missing := Some(found);
  }

  /** `missing_assets`: nothing where the source raises. */
  method MissingAssets(files: seq<File>, r: Release, allowDraft: bool) returns (missing: Option<seq<File>>)
    ensures missing.Some? <==> Stable(r, allowDraft) && files != [] && Agrees(files, r.assets)
    ensures missing.Some? ==> missing.value == Missing(files, r.assets)
  {
    if !Stable(r, allowDraft) || files == [] {
      return None;
    }
    if exists a :: a in r.assets && !HasName(files, a.name) {
      return None;
    }
    missing := Compare(files, r.assets);
    assert (forall f :: f in files ==> AgreesOn(r.assets, f)) <==> forall i :: 0 <= i < |files| ==> AgreesOn(r.assets, files[i]);
  }

  lemma {:induction false} NamedEmpty(assets: seq<File>, name: string)
    ensures Named(assets, name) == [] <==> !HasName(assets, name)
  {
    NamedMember(assets, name);
  }

  lemma {:induction false} NamedMember(assets: seq<File>, name: string)
    ensures Named(assets, name) == [] <==> !HasName(assets, name)
    ensures forall f :: f in Named(assets, name) <==> f in assets && f.name == name
  {
    if assets != [] {
      NamedMember(assets[1..], name);
      assert forall f :: f in assets <==> f == assets[0] || f in assets[1..];
    }
  }

  lemma {:induction false} MissingFirstMember(files: seq<File>, assets: seq<File>, n: nat)
    requires n <= |files|
    ensures forall f :: f in MissingFirst(files, assets, n) <==> f in files[..n] && !HasName(assets, f.name)
  {
    if n > 0 {
      MissingFirstMember(files, assets, n - 1);
      assert files[..n] == files[..n - 1] + [files[n - 1]];
    }
  }

  lemma {:induction false} MissingMember(files: seq<File>, assets: seq<File>)
    ensures forall f :: f in Missing(files, assets) <==> f in files && !HasName(assets, f.name)
  {
    MissingFirstMember(files, assets, |files|);
    assert files[..|files|] == files;
  }

  // ----- what a complete release is

  /** The assets are exactly the qualified files, each once. */
  ghost predicate Exact(files: seq<File>, assets: seq<File>) {
    DistinctNames(assets) && forall f :: f in assets <==> f in files
  }

  /** Some of the qualified files, each once. */
  ghost predicate Partial(files: seq<File>, assets: seq<File>) {
    DistinctNames(assets) && forall f :: f in assets ==> f in files
  }

  /** Agreement with distinctly named files means a partial release, and nothing
      missing means an exact one. */
  lemma {:induction false} AgreementMeansPartial(files: seq<File>, assets: seq<File>)
    requires DistinctNames(files)
    ensures Agrees(files, assets) <==> Partial(files, assets)
    ensures Agrees(files, assets) && Missing(files, assets) == [] <==> Exact(files, assets)
  {
    if Agrees(files, assets) {
      AgreedArePartial(files, assets);
    }
    if Partial(files, assets) {
      PartialAgree(files, assets);
      MissingMember(files, assets);
      if Missing(files, assets) == [] {
        forall f | f in files ensures f in assets {
          NamedMember(assets, f.name);
        }
      } else {
        var f := Missing(files, assets)[0];
        assert f in Missing(files, assets) && f in files && !HasName(assets, f.name);
      }
    }
  }

  lemma {:induction false} AgreedArePartial(files: seq<File>, assets: seq<File>)
    requires DistinctNames(files) && Agrees(files, assets)
    ensures Partial(files, assets)
  {
    forall a | a in assets ensures a in files {
      var f :| f in files && f.name == a.name;
      NamedMember(assets, a.name);
    }
    forall i, j | 0 <= i < j < |assets| ensures assets[i].name != assets[j].name {
      if assets[i].name == assets[j].name {
        assert assets[i] in assets && assets[i] in files;
        NamedTwice(assets, i, j);
      }
    }
  }

  lemma {:induction false} NamedTwice(assets: seq<File>, i: nat, j: nat)
    requires i < j < |assets| && assets[i].name == assets[j].name
    ensures |Named(assets, assets[i].name)| >= 2
  {
    if i > 0 {
      NamedTwice(assets[1..], i - 1, j - 1);
    } else {
      NamedMember(assets[1..], assets[i].name);
      assert assets[1..][j - 1] in assets[1..];
    }
  }

  lemma {:induction false} PartialAgree(files: seq<File>, assets: seq<File>)
    requires DistinctNames(files) && Partial(files, assets)
    ensures Agrees(files, assets)
  {
    forall f | f in files ensures AgreesOn(assets, f) {
      NamedMember(assets, f.name);
      NamedOnce(assets, f.name);
      if Named(assets, f.name) != [] {
        var a := Named(assets, f.name)[0];
        assert a in Named(assets, f.name) && a in files && a.name == f.name;
      }
    }
  }

  lemma {:induction false} NamedOnce(assets: seq<File>, name: string)
    requires DistinctNames(assets)
    ensures |Named(assets, name)| <= 1
  {
    if assets != [] {
      NamedOnce(assets[1..], name);
      NamedMember(assets[1..], name);
    }
  }
}
