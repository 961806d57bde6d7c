/** scripts/release/compositor-runtime-archive.py: `pack`, and the round trip
    `extract(pack(tree))`. */
module ArchiveRoundTrip {
  import opened Options
  import opened StringOrder
  import opened Slashes
  import opened ArchivePaths
  import opened RuntimeArchive
  import opened ArchiveTree

  /** A directory tree as `pack` finds it: every entry's parent is the root or a
      directory of the tree, links are safe, modes are permission bits. */
  ghost predicate ValidTree(t: Tree) {
    && (forall p :: p in t ==> p != [] && Proper(p))
    && (forall p {:trigger Parent(p)} :: p in t ==> Parent(p) == [] || (Parent(p) in t && t[Parent(p)].Dir?))
    && (forall p :: p in t && t[p].Symlink? ==> SafeLink(t[p].target, p))
    && (forall p :: p in t && !t[p].Symlink? ==> t[p].mode < MODES)
  }

  /** The tar member added for one entry. */
  function MemberOf(p: Path, e: Entry): Member {
    match e
    case Dir(mode) => Member(Join(p), Directory, mode)
    case Regular(bytes, mode) => Member(Join(p), File(bytes), mode)
    case Symlink(target) => Member(Join(p), Link(target), 0x1FF)
  }

  /** One member per entry, in sorted path order. */
  ghost predicate Packs(t: Tree, order: seq<Path>, members: seq<Member>) {
    && Orders(t, order)
    && |members| == |order| && forall i :: 0 <= i < |order| ==> members[i] == MemberOf(order[i], t[order[i]])
  }

  /** The directory to pack: the mode of its root, and the links in it that can be
      followed as far as they lead without being denied. */
  datatype Source = Source(root: nat, followable: set<Path>)

  function Placed(src: Source, t: Tree): Tree {
    t[[] := Dir(src.root)]
  }

  /** `rglob` lists an entry when each directory above it can be read, and reached;
      a directory that cannot be read is passed over. */
  predicate Seen(env: Env, full: Tree, p: Path) {
    forall n :: 0 <= n < |p| ==> Passable(env, full, p[..n], n + 1 == |p|)
  }

  predicate Passable(env: Env, full: Tree, q: Path, last: bool) {
    q in full && full[q].Dir? && Readable(env, full[q].mode) && (last || Searchable(env, full[q].mode))
  }

  function Visible(env: Env, src: Source, t: Tree): Tree {
    map p | p in t && p != [] && Seen(env, Placed(src, t), p) :: t[p]
  }

  /** A listed entry can be examined, and its bytes read. */
  predicate Examinable(env: Env, src: Source, t: Tree, p: Path)
    requires p in t && p != [] && Parent(p) in Placed(src, t) && Placed(src, t)[Parent(p)].Dir?
  {
    && Searchable(env, Placed(src, t)[Parent(p)].mode)
    && (t[p].Regular? ==> Readable(env, t[p].mode))
    && (t[p].Symlink? ==> env.privileged || p in src.followable)
  }

  ghost predicate AllExaminable(env: Env, src: Source, t: Tree) {
    forall p :: p in Visible(env, src, t) ==> ExaminableEntry(env, src, t, p)
  }

  ghost predicate ExaminableEntry(env: Env, src: Source, t: Tree, p: Path) {
    p in t && p != [] && Parent(p) in Placed(src, t) && Placed(src, t)[Parent(p)].Dir? && Examinable(env, src, t, p)
  }

  lemma {:induction false} SeenParent(env: Env, full: Tree, p: Path)
    requires p != [] && Seen(env, full, p)
    ensures Parent(p) in full && full[Parent(p)].Dir? && Readable(env, full[Parent(p)].mode)
    ensures Seen(env, full, Parent(p))
  {
    var q := Parent(p);
    assert Passable(env, full, p[..|p| - 1], true);
    forall n | 0 <= n < |q| ensures Passable(env, full, q[..n], n + 1 == |q|) {
      assert q[..n] == p[..n] && Passable(env, full, p[..n], false);
    }
  }

  datatype Packed = PackRefused | PackDenied | Archive(members: seq<Member>)

  /** `pack`: refuses exactly when it lists nothing or too much, stops at an entry that
      cannot be examined, and otherwise packs what it has listed in order. */
  method Pack(env: Env, src: Source, t: Tree) returns (r: Packed)
    ensures r.PackRefused? <==> !(0 < |Visible(env, src, t)| <= MAX_MEMBERS)
    ensures r.Archive? <==> !r.PackRefused? && AllExaminable(env, src, t)
    ensures r.Archive? ==> |r.members| == |Visible(env, src, t)| && exists order :: Packs(Visible(env, src, t), order, r.members)
  {
    var listed := Visible(env, src, t);
    var sorted := Sorted(listed.Keys);
    OrderLength(sorted, listed.Keys);
    if |sorted| == 0 || |sorted| > MAX_MEMBERS {
      return PackRefused;
    }
    var members := [];
    for i := 0 to |sorted|
      invariant |members| == i
      invariant forall j :: 0 <= j < i ==> members[j] == MemberOf(sorted[j], listed[sorted[j]])
      invariant forall j :: 0 <= j < i ==> ExaminableEntry(env, src, t, sorted[j])
    {
      assert sorted[i] in sorted;
      SeenParent(env, Placed(src, t), sorted[i]);
      if !Examinable(env, src, t, sorted[i]) {
        assert !ExaminableEntry(env, src, t, sorted[i]);
        return PackDenied;
      }
      members := members + [MemberOf(sorted[i], listed[sorted[i]])];
    }
    assert Packs(listed, sorted, members);
    r := Archive(members);
  }

  lemma {:induction false} OrderLength(order: seq<Path>, paths: set<Path>)
    requires Ascending(order) && forall p :: p in order <==> p in paths
    ensures |order| == |paths|
    decreases |order|
  {
    if order == [] {
      assert paths == {};
    } else {
      var last := order[|order| - 1];
      var rest := order[..|order| - 1];
      forall p ensures p in rest <==> p in paths - {last} {
        PathBeforeTotal(p, p);
        assert p in order <==> p in rest || p == last;
      }
      OrderLength(rest, paths - {last});
    }
  }

  // ----- a packed tree is accepted

  /** What a member says of its entry; a symlink is listed with all permissions. */
  lemma {:induction false} MemberDescribes(p: Path, e: Entry)
    requires p != [] && Proper(p)
    ensures var m := MemberOf(p, e);
            && Names(m, p)
            && match e
               case Dir(mode) => m.content.Directory? && m.mode == mode
               case Regular(bytes, mode) => m.content == File(bytes) && m.mode == mode
               case Symlink(target) => m.content == Link(target) && m.mode == 7 * 64 + 7 * 8 + 7
  {
    SafeNameInverse(p);
    NamesIsSafeName(MemberOf(p, e));
  }

  lemma {:induction false} PackedSafe(p: Path, e: Entry)
    requires p != [] && Proper(p) && (e.Symlink? ==> SafeLink(e.target, p)) && (!e.Symlink? ==> e.mode < MODES)
    ensures MemberSafe(MemberOf(p, e)) && ItemOf(MemberOf(p, e)) == Item(p, e)
  {
    SafeNameInverse(p);
  }

  ghost function ItemsOf(t: Tree, order: seq<Path>): (items: seq<Item>)
    requires forall p :: p in order ==> p in t
    ensures |items| == |order| && forall i :: 0 <= i < |order| ==> items[i] == Item(order[i], t[order[i]])
  {
    seq(|order|, i requires 0 <= i < |order| => Item(order[i], (assert order[i] in order; t[order[i]])))
  }

  lemma {:induction false} PackedItems(t: Tree, order: seq<Path>, members: seq<Member>)
    requires ValidTree(t) && Packs(t, order, members)
    ensures AllSafe(members) && Items(members) == ItemsOf(t, order)
  {
    forall i | 0 <= i < |order| ensures MemberSafe(members[i]) && ItemOf(members[i]) == Item(order[i], t[order[i]]) {
      assert order[i] in order;
      PackedSafe(order[i], t[order[i]]);
    }
  }

  lemma {:induction false} AncestorsAreDirs(t: Tree, p: Path, q: Path)
    requires ValidTree(t) && p in t && q < p && q != []
    ensures q in t && t[q].Dir?
    decreases |p|
  {
    if q != Parent(p) {
      assert q < Parent(p);
      AncestorsAreDirs(t, Parent(p), q);
    }
  }

  lemma {:induction false} PackedAccepted(t: Tree, order: seq<Path>, members: seq<Member>)
    requires ValidTree(t) && Packs(t, order, members) && 0 < |members| <= MAX_MEMBERS && TotalSize(members) <= MAX_BYTES
    ensures Accepts(members)
  {
    PackedItems(t, order, members);
    var items := Items(members);
    forall i | 0 <= i < |members| ensures NameOf(members[i]) == order[i] && (members[i].content.Link? <==> t[order[i]].Symlink?) {
      assert items[i] == ItemOf(members[i]) && items[i] == Item(order[i], t[order[i]]) && order[i] in order;
    }
    forall i, j | 0 <= i < j < |members| ensures NameOf(members[i]) != NameOf(members[j]) {
      PathBeforeTotal(order[i], order[i]);
    }
    forall i, j | 0 <= i < |members| && 0 <= j < |members| && members[i].content.Link?
      ensures !(NameOf(members[i]) < NameOf(members[j]))
    {
      assert order[i] in order && order[j] in order;
      if order[i] < order[j] {
        AncestorsAreDirs(t, order[j], order[i]);
      }
    }
  }

  // ----- extracting the packed tree

  /** The tree below a freshly created output root. */
  ghost function Rooted(env: Env, t: Tree): Tree {
    t[[] := Dir(env.umasked)]
  }

  /** Entries can be created in the directory that holds `p`. */
  ghost predicate ParentUsable(env: Env, t: Tree, p: Path) {
    var full := Rooted(env, t);
    && p != [] && Parent(p) in full && full[Parent(p)].Dir?
    && Searchable(env, full[Parent(p)].mode) && Writable(env, full[Parent(p)].mode)
  }

  ghost predicate Orders(t: Tree, order: seq<Path>) {
    Ascending(order) && forall p :: p in order <==> p in t
  }

  /** The first `n` entries sit in usable directories. */
  ghost predicate AllUsable(env: Env, t: Tree, order: seq<Path>, n: nat)
    requires n <= |order|
  {
    forall i :: 0 <= i < n ==> ParentUsable(env, t, order[i])
  }

  /** What stands after the first `n` entries. */
  ghost function Partial(env: Env, t: Tree, order: seq<Path>, n: nat): Tree
    requires n <= |order|
  {
    map p | p in Rooted(env, t) && (p == [] || p in order[..n]) :: Rooted(env, t)[p]
  }

  lemma {:induction false} MakeDirsExisting(env: Env, tree: Tree, q: Path)
    requires forall r :: r <= q ==> r in tree && tree[r].Dir?
    requires forall r :: r < q ==> r in tree && tree[r].Dir? && Searchable(env, tree[r].mode)
    ensures MakeDirs(env, tree, q) == Done(tree)
    decreases |q|
  {
    if q != [] {
      assert Parent(q) < q;
      MakeDirsExisting(env, tree, Parent(q));
    }
  }

  /** Sorted order lists a directory before what it holds. */
  lemma {:induction false} AncestorEarlier(t: Tree, order: seq<Path>, n: nat, r: Path)
    requires ValidTree(t) && Orders(t, order)
    requires n < |order| && r != [] && r < order[n]
    ensures r in order[..n] && r in t && t[r].Dir?
    ensures exists j :: 0 <= j < n && order[j] == r
  {
    assert order[n] in order;
    AncestorsAreDirs(t, order[n], r);
    var j :| 0 <= j < |order| && order[j] == r;
    PrefixBefore(r, order[n]);
    PathBeforeTotal(r, order[n]);
    assert j < n;
    assert order[..n][j] == r;
  }

  /** While every directory so far was usable, the way to the next entry is open. */
  lemma {:induction false} WayOpen(env: Env, t: Tree, order: seq<Path>, n: nat)
    requires ValidTree(t) && Orders(t, order) && n < |order| && AllUsable(env, t, order, n)
    ensures order[n] != []
    ensures MakeDirs(env, Partial(env, t, order, n), Parent(order[n])) == Done(Partial(env, t, order, n))
  {
    var p, tree := order[n], Partial(env, t, order, n);
    assert p in order;
    forall r | r <= Parent(p) ensures r in tree && tree[r].Dir? && tree[r] == Rooted(env, t)[r] {
      if r != [] {
        AncestorEarlier(t, order, n, r);
      }
    }
    forall r | r < Parent(p) ensures r in tree && tree[r].Dir? && Searchable(env, tree[r].mode) {
      var child := p[..|r| + 1];
      assert r <= Parent(p) && child != [] && child < p && Parent(child) == r;
      AncestorEarlier(t, order, n, child);
      var j :| 0 <= j < n && order[j] == child;
      assert ParentUsable(env, t, order[j]);
    }
    MakeDirsExisting(env, tree, Parent(p));
  }

  lemma {:induction false} NotEarlier(order: seq<Path>, n: nat)
    requires Ascending(order) && n < |order|
    ensures order[n] !in order[..n] && forall p :: p in order[..n + 1] <==> p in order[..n] || p == order[n]
  {
    PathBeforeTotal(order[n], order[n]);
    assert order[..n + 1] == order[..n] + [order[n]];
  }

  lemma {:induction false} PartialStep(env: Env, t: Tree, order: seq<Path>, n: nat)
    requires [] !in t && Orders(t, order) && n < |order|
    ensures order[n] in t && order[n] != [] && order[n] !in Partial(env, t, order, n)
    ensures Partial(env, t, order, n + 1) == Partial(env, t, order, n)[order[n] := t[order[n]]]
  {
    NotEarlier(order, n);
    assert order[n] in order;
  }

  lemma {:induction false} UsableStep(env: Env, t: Tree, order: seq<Path>, n: nat)
    requires 0 < n <= |order|
    ensures AllUsable(env, t, order, n) <==> AllUsable(env, t, order, n - 1) && ParentUsable(env, t, order[n - 1])
  {
    if AllUsable(env, t, order, n - 1) && ParentUsable(env, t, order[n - 1]) {
      forall i | 0 <= i < n ensures ParentUsable(env, t, order[i]) {
        assert i < n - 1 || order[i] == order[n - 1];
      }
    }
  }

  lemma {:induction false} ParentThere(env: Env, t: Tree, order: seq<Path>, n: nat)
    requires ValidTree(t) && Orders(t, order) && n < |order|
    ensures order[n] != [] && Parent(order[n]) in Partial(env, t, order, n)
    ensures Partial(env, t, order, n)[Parent(order[n])] == Rooted(env, t)[Parent(order[n])]
    ensures Partial(env, t, order, n)[Parent(order[n])].Dir?
  {
    var p := order[n];
    assert p in order;
    if Parent(p) != [] {
      assert Parent(p) < p;
      AncestorEarlier(t, order, n, Parent(p));
    }
  }

  lemma {:induction false} NextEntry(env: Env, t: Tree, order: seq<Path>, n: nat)
    requires ValidTree(t) && Orders(t, order) && n < |order| && AllUsable(env, t, order, n)
    ensures order[n] in t && order[n] != []
    ensures Write(env, Partial(env, t, order, n), Item(order[n], t[order[n]])) ==
            if ParentUsable(env, t, order[n]) then Done(Partial(env, t, order, n + 1)) else Denied
  {
    PartialStep(env, t, order, n);
    ParentThere(env, t, order, n);
    WayOpen(env, t, order, n);
    WriteNew(env, Partial(env, t, order, n), order[n], t[order[n]]);
  }

  /** Writing a new name into an existing directory depends on that directory's bits only. */
  lemma {:induction false} WriteNew(env: Env, tree: Tree, p: Path, e: Entry)
    requires p != [] && p !in tree && Parent(p) in tree && tree[Parent(p)].Dir?
    requires MakeDirs(env, tree, Parent(p)) == Done(tree)
    ensures Write(env, tree, Item(p, e)) ==
            if Searchable(env, tree[Parent(p)].mode) && Writable(env, tree[Parent(p)].mode)
            then Done(tree[p := e]) else Denied
  {
    assert MakeDirs(env, tree, p) == MakeDir(env, tree, p);
    assert tree[p := Dir(env.umasked)][p := e] == tree[p := e];
  }

  ghost function Expected(env: Env, t: Tree, order: seq<Path>, n: nat): Outcome
    requires n <= |order|
  {
    if AllUsable(env, t, order, n) then Done(Partial(env, t, order, n)) else Denied
  }

  lemma {:induction false} ExpectedStep(env: Env, t: Tree, order: seq<Path>, n: nat)
    requires ValidTree(t) && Orders(t, order) && Named(ItemsOf(t, order)) && 0 < n <= |order|
    ensures var so := Expected(env, t, order, n - 1);
            if so.Done? then Write(env, so.tree, ItemsOf(t, order)[n - 1]) == Expected(env, t, order, n)
            else Expected(env, t, order, n) == so
  {
    UsableStep(env, t, order, n);
    if AllUsable(env, t, order, n - 1) {
      NextEntry(env, t, order, n - 1);
      assert ItemsOf(t, order)[n - 1] == Item(order[n - 1], t[order[n - 1]]);
    }
  }

  /** The `i`th outcome follows from the one before it by one write. */
  ghost predicate Follows(env: Env, items: seq<Item>, so: seq<Outcome>, i: nat)
    requires Named(items) && 0 < i < |so| && i <= |items|
  {
    so[i] == match so[i - 1] case Done(tree) => Write(env, tree, items[i - 1]) case failure => failure
  }

  /** A sequence of outcomes that starts at the root and takes every step is the extraction. */
  lemma {:induction false} StepsAreWrites(env: Env, items: seq<Item>, so: seq<Outcome>, n: nat)
    requires Named(items) && |so| == |items| + 1 && so[0] == Done(Root(env)) && n <= |items|
    requires forall i {:trigger Follows(env, items, so, i)} :: 0 < i <= |items| ==> Follows(env, items, so, i)
    ensures WriteFirst(env, items, n) == so[n]
  {
    if n > 0 {
      StepsAreWrites(env, items, so, n - 1);
      assert Follows(env, items, so, n);
    }
  }

  lemma {:induction false} AllEntries(env: Env, t: Tree, order: seq<Path>)
    requires ValidTree(t) && Orders(t, order) && Named(ItemsOf(t, order))
    ensures WriteFirst(env, ItemsOf(t, order), |order|) == Expected(env, t, order, |order|)
  {
    var so := seq(|order| + 1, i requires 0 <= i <= |order| => Expected(env, t, order, i));
    var items := ItemsOf(t, order);
    ExpectedFirst(env, t, order);
    forall i | 0 < i <= |order| ensures Follows(env, items, so, i) {
      ExpectedFollows(env, t, order, items, so, i);
    }
    StepsAreWrites(env, items, so, |order|);
  }

  lemma {:induction false} ExpectedFirst(env: Env, t: Tree, order: seq<Path>)
    ensures Expected(env, t, order, 0) == Done(Root(env))
  {
    assert Partial(env, t, order, 0) == Root(env);
  }

  lemma {:induction false} ExpectedFollows(env: Env, t: Tree, order: seq<Path>, items: seq<Item>, so: seq<Outcome>, i: nat)
    requires ValidTree(t) && Orders(t, order) && items == ItemsOf(t, order) && Named(items) && 0 < i <= |order| < |so|
    requires so[i] == Expected(env, t, order, i) && so[i - 1] == Expected(env, t, order, i - 1)
    ensures Follows(env, items, so, i)
  {
    ExpectedStep(env, t, order, i);
  }

  /** Extracting what was packed from a tree reproduces that tree, in names, bytes, modes
      and link targets, exactly when entries can be created in each of its non-empty
      directories with the permissions that directory was packed with; otherwise it
      stops with a permission error. */
  lemma {:induction false} ExtractsPacked(env: Env, t: Tree, order: seq<Path>, members: seq<Member>)
    requires ValidTree(t) && Packs(t, order, members)
    requires 0 < |members| <= MAX_MEMBERS && TotalSize(members) <= MAX_BYTES
    ensures Accepts(members)
    ensures WriteFirst(env, Items(members), |members|) ==
            if forall p :: p in t ==> ParentUsable(env, t, p) then Done(Rooted(env, t)) else Denied
  {
    PackedAccepted(t, order, members);
    PackedItems(t, order, members);
    forall i | 0 <= i < |order| ensures order[i] != [] {
      assert order[i] in order;
    }
    AllEntries(env, t, order);
    assert order[..|order|] == order;
    assert AllUsable(env, t, order, |order|) <==> forall p :: p in t ==> ParentUsable(env, t, p);
    assert Partial(env, t, order, |order|) == Rooted(env, t);
  }

  /** A directory closed to writing (0555) that holds an empty file. */
  ghost function Locked(): Tree {
    map[["d"] := Dir(0x16D), ["d", "f"] := Regular([], 0x1A4)]
  }

  /** Packing it gives a directory member and a file member, in this order. */
  ghost function LockedMembers(): seq<Member> {
    [MemberOf(["d"], Dir(0x16D)), MemberOf(["d", "f"], Regular([], 0x1A4))]
  }

  lemma {:induction false} LockedPacks()
    ensures ValidTree(Locked()) && Packs(Locked(), [["d"], ["d", "f"]], LockedMembers())
  {
    assert ["d", "f"][..1] == ["d"] && ["d"] < ["d", "f"];
    PrefixBefore(["d"], ["d", "f"]);
  }

  lemma {:induction false} LockedSize()
    ensures TotalSize(LockedMembers()) == 0
  {
    var members := LockedMembers();
    assert members[1..] == [members[1]] && members[1..][1..] == [];
  }

  lemma {:induction false} LockedUnusable()
    ensures ["d", "f"] in Locked() && !ParentUsable(Env(false, 0x1ED), Locked(), ["d", "f"])
  {
    assert ["d", "f"][..1] == ["d"];
    assert Rooted(Env(false, 0x1ED), Locked())[["d"]] == Dir(0x16D);
  }

  /** One entry in an unusable directory is enough to lose the tree. */
  lemma {:induction false} DeniedByOne(env: Env, t: Tree, order: seq<Path>, members: seq<Member>, p: Path)
    requires ValidTree(t) && Packs(t, order, members) && 0 < |members| <= MAX_MEMBERS && TotalSize(members) <= MAX_BYTES
    requires p in t && !ParentUsable(env, t, p)
    ensures Accepts(members) && WriteFirst(env, Items(members), |members|) == Denied
  {
    ExtractsPacked(env, t, order, members);
  }

  /** A read-only directory that holds a file does not survive an unprivileged round trip. */
  lemma {:induction false} ReadOnlyDirectoryLost()
    ensures Packs(Locked(), [["d"], ["d", "f"]], LockedMembers()) && Accepts(LockedMembers())
    ensures WriteFirst(Env(false, 0x1ED), Items(LockedMembers()), |LockedMembers()|) == Denied
  {
    LockedPacks();
    LockedSize();
    LockedUnusable();
    DeniedByOne(Env(false, 0x1ED), Locked(), [["d"], ["d", "f"]], LockedMembers(), ["d", "f"]);
  }

  // ----- the whole round trip

  lemma {:induction false} OrderUnique(a: seq<Path>, b: seq<Path>)
    requires Ascending(a) && Ascending(b) && forall p :: p in a <==> p in b
    ensures a == b
    decreases |a|
  {
    if a == [] {
      if b != [] {
        HasElement(b);
      }
    } else {
      assert a[|a| - 1] in a;
      var x, y := a[|a| - 1], b[|b| - 1];
      LastIsGreatest(a, y);
      LastIsGreatest(b, x);
      PathBeforeTotal(x, y);
      var c, d := a[..|a| - 1], b[..|b| - 1];
      forall p ensures p in c <==> p in d {
        PathBeforeTotal(p, p);
        assert p in a <==> p in c || p == x;
        assert p in b <==> p in d || p == y;
      }
      OrderUnique(c, d);
      assert a == c + [x] && b == d + [y];
    }
  }

  lemma {:induction false} HasElement(s: seq<Path>)
    requires s != []
    ensures exists p :: p in s
  {
    assert s[0] in s;
  }

  lemma {:induction false} LastIsGreatest(s: seq<Path>, p: Path)
    requires Ascending(s) && p in s
    ensures p == s[|s| - 1] || PathBefore(p, s[|s| - 1])
  {
  }

  /** The files together stay within the limit of the transport. */
  ghost predicate Light(t: Tree) {
    forall order, members {:trigger Packs(t, order, members)} :: Packs(t, order, members) ==> TotalSize(members) <= MAX_BYTES
  }

  lemma {:induction false} PackedWeighs(t: Tree, order: seq<Path>, members: seq<Member>)
    requires Packs(t, order, members)
    ensures Light(t) <==> TotalSize(members) <= MAX_BYTES
  {
    forall o, m | Packs(t, o, m) ensures m == members {
      OrderUnique(o, order);
      assert m == members;
    }
  }

  /** Both commands succeed. */
  ghost predicate Carried(env: Env, src: Source, t: Tree) {
    var v := Visible(env, src, t);
    && 0 < |v| <= MAX_MEMBERS && Light(v) && AllExaminable(env, src, t)
    && forall p :: p in v ==> ParentUsable(env, v, p)
  }

  lemma {:induction false} VisibleValid(env: Env, src: Source, t: Tree)
    requires ValidTree(t)
    ensures ValidTree(Visible(env, src, t))
  {
    var v := Visible(env, src, t);
    forall p | p in v ensures Parent(p) == [] || (Parent(p) in v && v[Parent(p)].Dir?) {
      SeenParent(env, Placed(src, t), p);
    }
  }

  /** `extract(pack(t))`: where it succeeds it reproduces what could be listed. */
  method RoundTrip(env: Env, src: Source, t: Tree) returns (r: Option<Tree>)
    requires ValidTree(t)
    ensures r.Some? <==> Carried(env, src, t)
    ensures r.Some? ==> r.value == Rooted(env, Visible(env, src, t))
    ensures r == Some(Rooted(env, t)) <==> Preserved(env, src, t)
  {
    ghost var v := Visible(env, src, t);
    VisibleValid(env, src, t);
    PreservedIff(env, src, t);
    var packed := Pack(env, src, t);
    if !packed.Archive? {
      return None;
    }
    ghost var order :| Packs(v, order, packed.members);
    PackedWeighs(v, order, packed.members);
    if TotalSize(packed.members) <= MAX_BYTES {
      ExtractsPacked(env, v, order, packed.members);
    }
    var extraction := Extract(env, packed.members);
    if extraction.Attempted? && extraction.outcome.Done? {
      RootedSame(env, v, t);
      return Some(extraction.outcome.tree);
    }
    return None;
  }

  lemma {:induction false} RootedSame(env: Env, v: Tree, t: Tree)
    requires [] !in v && [] !in t
    ensures Rooted(env, v) == Rooted(env, t) <==> v == t
  {
    if Rooted(env, v) == Rooted(env, t) {
      assert v == Rooted(env, v) - {[]} && t == Rooted(env, t) - {[]};
    }
  }

  /** Everything in `p`'s way is open, on the way in and on the way out: its directory can
      be read and searched where it is, and searched and written where it goes; a file
      can be read, a link followed. */
  ghost predicate Kept(env: Env, src: Source, t: Tree, p: Path)
    requires p in t && p != []
  {
    && Passable(env, Placed(src, t), Parent(p), false) && ParentUsable(env, t, p)
    && (t[p].Regular? ==> Readable(env, t[p].mode))
    && (t[p].Symlink? ==> env.privileged || p in src.followable)
  }

  /** The condition for a round trip without loss. */
  ghost predicate Preserved(env: Env, src: Source, t: Tree) {
    0 < |t| <= MAX_MEMBERS && Light(t) && forall p :: p in t ==> p != [] && Kept(env, src, t, p)
  }

  lemma {:induction false} AllSeen(env: Env, src: Source, t: Tree, p: Path)
    requires ValidTree(t) && p in t && forall q :: q in t ==> Passable(env, Placed(src, t), Parent(q), false)
    ensures Seen(env, Placed(src, t), p)
  {
    forall n | 0 <= n < |p| ensures Passable(env, Placed(src, t), p[..n], n + 1 == |p|) {
      var child := p[..n + 1];
      if child != p {
        AncestorsAreDirs(t, p, child);
      }
      assert child in t && Parent(child) == p[..n];
    }
  }

  lemma {:induction false} PreservedIff(env: Env, src: Source, t: Tree)
    requires ValidTree(t)
    ensures Preserved(env, src, t) <==> Carried(env, src, t) && Visible(env, src, t) == t
  {
    var v := Visible(env, src, t);
    if Preserved(env, src, t) {
      forall p | p in t ensures p in v && ExaminableEntry(env, src, t, p) {
        assert Kept(env, src, t, p);
        AllSeen(env, src, t, p);
      }
      assert v == t;
    }
    if Carried(env, src, t) && v == t {
      forall p | p in t ensures p != [] && Kept(env, src, t, p) {
        SeenParent(env, Placed(src, t), p);
        assert ExaminableEntry(env, src, t, p);
      }
    }
  }

  /** A directory that can be searched and written but not read (0300), with a file in it. */
  ghost function Blind(): Tree {
    map[["d"] := Dir(0xC0), ["d", "f"] := Regular([], 0x1A4)]
  }

  lemma {:induction false} BlindVisible(env: Env, src: Source)
    requires !env.privileged && Readable(env, src.root)
    ensures ValidTree(Blind()) && Visible(env, src, Blind()) == map[["d"] := Dir(0xC0)]
  {
    var full := Placed(src, Blind());
    assert ["d", "f"][..1] == ["d"] && ["d"][..0] == [] && ["d", "f"][..0] == [];
    assert full[["d"]] == Dir(0xC0) && full[[]] == Dir(src.root);
    assert !Passable(env, full, ["d", "f"][..1], true);
    assert Passable(env, full, ["d"][..0], true);
  }

  /** Packing and extracting it both succeed, and the file is gone. */
  lemma {:induction false} UnreadableDirectoryEmptied(env: Env, src: Source)
    requires !env.privileged && Readable(env, src.root) && Searchable(env, src.root)
    requires Searchable(env, env.umasked) && Writable(env, env.umasked)
    ensures Carried(env, src, Blind()) && ["d", "f"] in Blind() && ["d", "f"] !in Rooted(env, Visible(env, src, Blind()))
  {
    BlindVisible(env, src);
    var v := Visible(env, src, Blind());
    var members := [MemberOf(["d"], Dir(0xC0))];
    assert ["d"][..0] == [];
    assert Packs(v, [["d"]], members) && members[1..] == [];
    PackedWeighs(v, [["d"]], members);
    assert v.Keys == {["d"]} && |v.Keys| == 1;
  }
}
