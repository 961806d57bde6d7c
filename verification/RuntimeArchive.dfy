/** scripts/release/compositor-runtime-archive.py: `extract`, which checks every
    member before writing any, and the directory tree it writes. */
module RuntimeArchive {
  import opened Options
  import Slashes
  import opened ArchivePaths

  const MAX_MEMBERS: nat := 4096
  const MAX_BYTES: nat := 2 * 1024 * 1024 * 1024
  /** Permission bits kept by `stat.S_IMODE`. */
  const MODES: nat := 0x1000

  type Bytes = seq<bv8>

  datatype Content = Directory | File(bytes: Bytes) | Link(target: string) | Special
  datatype Member = Member(name: string, content: Content, mode: nat)

  function Size(m: Member): nat {
    if m.content.File? then |m.content.bytes| else 0
  }

  function TotalSize(members: seq<Member>): nat {
    if members == [] then 0 else Size(members[0]) + TotalSize(members[1..])
  }

  // ----- acceptance

  predicate MemberSafe(m: Member) {
    && SafeName(m.name).Some? && SafeName(m.name).value != [] && !m.content.Special?
    && (m.content.Link? ==> SafeLink(m.content.target, SafeName(m.name).value))
  }

  function NameOf(m: Member): Path
    requires MemberSafe(m)
  {
    SafeName(m.name).value
  }

  ghost predicate AllSafe(members: seq<Member>) {
    forall i :: 0 <= i < |members| ==> MemberSafe(members[i])
  }

  ghost predicate NamesDistinct(members: seq<Member>)
    requires AllSafe(members)
  {
    forall i, j :: 0 <= i < j < |members| ==> NameOf(members[i]) != NameOf(members[j])
  }

  /** No member lies below a symlink member, whichever comes first. */
  ghost predicate NoLinkAncestor(members: seq<Member>)
    requires AllSafe(members)
  {
    forall i, j :: 0 <= i < |members| && 0 <= j < |members| && members[i].content.Link?
                   ==> !(NameOf(members[i]) < NameOf(members[j]))
  }

  ghost predicate Accepts(members: seq<Member>) {
    && 0 < |members| <= MAX_MEMBERS && TotalSize(members) <= MAX_BYTES
    && AllSafe(members) && NamesDistinct(members) && NoLinkAncestor(members)
  }

  /** One of the first `n` members has this name. */
  ghost predicate HasName(members: seq<Member>, n: nat, p: Path)
    requires n <= |members|
  {
    exists i :: 0 <= i < n && MemberSafe(members[i]) && NameOf(members[i]) == p
  }

  /** The manifest of the first `n` members: name to member, no name twice. */
  ghost predicate Manifests(members: seq<Member>, n: nat, manifest: map<Path, Member>) {
    && n <= |members|
    && (forall i :: 0 <= i < n ==> MemberSafe(members[i]) && NameOf(members[i]) in manifest
                                   && manifest[NameOf(members[i])] == members[i])
    && (forall p {:trigger HasName(members, n, p)} :: p in manifest ==> HasName(members, n, p))
    && (forall i, j :: 0 <= i < j < n ==> NameOf(members[i]) != NameOf(members[j]))
  }

  /** Names, kinds, duplicates and link targets, in one pass. */
  method BuildManifest(members: seq<Member>) returns (ok: bool, manifest: map<Path, Member>)
    ensures ok <==> AllSafe(members) && NamesDistinct(members)
    ensures ok ==> Manifests(members, |members|, manifest)
  {
    manifest := map[];
    var i := 0;
    while i < |members|
      invariant 0 <= i <= |members| && Manifests(members, i, manifest)
    {
      var m := members[i];
      if !MemberSafe(m) {
        return false, manifest;
      }
      var name := NameOf(m);
      if name in manifest {
        assert HasName(members, i, name);
        return false, manifest;
      }
      ExtendManifest(members, i, manifest);
      manifest := manifest[name := m];
      i := i + 1;
    }
    ok := true;
  }

  lemma {:induction false} ExtendManifest(members: seq<Member>, i: nat, manifest: map<Path, Member>)
    requires i < |members| && Manifests(members, i, manifest) && MemberSafe(members[i])
    requires NameOf(members[i]) !in manifest
    ensures Manifests(members, i + 1, manifest[NameOf(members[i]) := members[i]])
  {
    var name := NameOf(members[i]);
    var longer := manifest[name := members[i]];
    forall p | p in longer ensures HasName(members, i + 1, p) {
      assert p != name ==> HasName(members, i, p);
    }
    forall j | 0 <= j < i ensures NameOf(members[j]) != name {
      assert NameOf(members[j]) in manifest;
    }
  }

  /** Two prefixes of one path are comparable. */
  lemma {:induction false} NextPrefix(name: Path, parent: Path, p: Path)
    requires parent != [] && parent < name && p < name && Parent(parent) < p
    ensures p == parent || parent < p
  {
  }

  /** Walks from a name towards the root looking for a symlink member. */
  method HasLinkAncestor(manifest: map<Path, Member>, name: Path) returns (found: bool)
    requires name != []
    ensures found <==> exists p :: p in manifest && p != [] && p < name && manifest[p].content.Link?
  {
    var parent := Parent(name);
    while parent != []
      invariant parent < name
      invariant forall p :: p in manifest && parent < p < name ==> !manifest[p].content.Link?
      decreases |parent|
    {
      if parent in manifest && manifest[parent].content.Link? {
        return true;
      }
      forall p | p in manifest && Parent(parent) < p < name ensures !manifest[p].content.Link? {
        NextPrefix(name, parent, p);
      }
      parent := Parent(parent);
    }
    found := false;
  }

  /** Accepts exactly the archives described by `Accepts`. */
  method Check(members: seq<Member>) returns (ok: bool)
    ensures ok <==> Accepts(members)
  {
    if |members| == 0 || |members| > MAX_MEMBERS || TotalSize(members) > MAX_BYTES {
      return false;
    }
    var built, manifest := BuildManifest(members);
    if !built {
      return false;
    }
    var i := 0;
    while i < |members|
      invariant 0 <= i <= |members|
      invariant forall j, k :: 0 <= j < i && 0 <= k < |members| && members[k].content.Link?
                               ==> !(NameOf(members[k]) < NameOf(members[j]))
    {
      var bad := HasLinkAncestor(manifest, NameOf(members[i]));
      if bad {
        ghost var p :| p in manifest && p != [] && p < NameOf(members[i]) && manifest[p].content.Link?;
        assert HasName(members, |members|, p);
        return false;
      }
      forall k | 0 <= k < |members| && members[k].content.Link? ensures !(NameOf(members[k]) < NameOf(members[i])) {
        assert NameOf(members[k]) in manifest && NameOf(members[k]) != [];
      }
      i := i + 1;
    }
    ok := true;
  }

  // ----- what acceptance means for names and links

  /** The member's name, walked from the root, ends at `p`, below it. */
  ghost predicate Names(m: Member, p: Path) {
    m.name != "" && m.name[0] != '/' && '\0' !in m.name && Resolve([], Slashes.Split(m.name)) == Some(p) && p != []
  }

  /** A directory, a file, or a link that followed from its own directory stays inside. */
  ghost predicate Harmless(m: Member, p: Path)
    requires p != []
  {
    match m.content
    case Directory => true
    case File(_) => true
    case Link(target) =>
      target != "" && target[0] != '/' && '\0' !in target && Resolve(p[..|p| - 1], Slashes.Split(target)).Some?
    case Special => false
  }

  ghost predicate Listing(members: seq<Member>, names: seq<Path>) {
    |names| == |members| && forall i :: 0 <= i < |members| ==> Names(members[i], names[i])
  }

  /** An acceptable archive: within bounds, each member lands below the root, on a name of
      its own, is harmless there, and lies below no link. */
  ghost predicate Acceptable(members: seq<Member>, names: seq<Path>)
    requires Listing(members, names)
  {
    && 0 < |members| <= 4096 && TotalSize(members) <= 0x8000_0000
    && (forall i :: 0 <= i < |members| ==> Harmless(members[i], names[i]))
    && (forall i, j :: 0 <= i < j < |members| ==> names[i] != names[j])
    && (forall i, j :: 0 <= i < |members| && 0 <= j < |members| && members[i].content.Link? ==> !(names[i] < names[j]))
  }

  lemma {:induction false} SafeMeans(m: Member)
    ensures MemberSafe(m) <==> exists p :: Names(m, p) && Harmless(m, p)
    ensures MemberSafe(m) ==> Names(m, NameOf(m)) && Harmless(m, NameOf(m))
  {
    NamesIsSafeName(m);
    if SafeName(m.name).Some? {
      var p := SafeName(m.name).value;
      SafeNameProper(m.name);
      assert Names(m, p);
      if m.content.Link? {
        SafeLinkResolves(m.content.target, p);
      }
      assert MemberSafe(m) <==> Harmless(m, p);
    }
  }

  lemma {:induction false} NamesIsSafeName(m: Member)
    ensures forall p :: Names(m, p) <==> SafeName(m.name) == Some(p)
  {
    SafeNameResolves(m.name);
  }

  /** `extract` accepts exactly the acceptable archives. */
  lemma {:induction false} AcceptsIff(members: seq<Member>)
    ensures Accepts(members) <==> exists names :: Listing(members, names) && Acceptable(members, names)
  {
    forall i | 0 <= i < |members|
      ensures MemberSafe(members[i]) <==> exists p :: Names(members[i], p) && Harmless(members[i], p)
      ensures MemberSafe(members[i]) ==> Names(members[i], NameOf(members[i])) && Harmless(members[i], NameOf(members[i]))
    {
      SafeMeans(members[i]);
    }
    if Accepts(members) {
      var names := seq(|members|, i requires 0 <= i < |members| => NameOf(members[i]));
      assert Listing(members, names) && Acceptable(members, names);
    }
    if names :| Listing(members, names) && Acceptable(members, names) {
      forall i | 0 <= i < |members| ensures MemberSafe(members[i]) && NameOf(members[i]) == names[i] {
        assert Names(members[i], names[i]) && Harmless(members[i], names[i]);
      }
    }
  }

  /** The total is the bytes of the files, added up. */
  lemma {:induction false} TotalSizeAdds(a: seq<Member>, m: Member)
    ensures TotalSize([]) == 0
    ensures TotalSize(a + [m]) == TotalSize(a) + match m.content case File(bytes) => |bytes| case _ => 0
  {
    if a == [] {
      assert [m][1..] == [];
    } else {
      TotalSizeAdds(a[1..], m);
      assert (a + [m])[1..] == a[1..] + [m];
    }
  }
}
