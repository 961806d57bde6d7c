/** The tree `extract` writes below its output directory, one member at a time,
    as the file system lets it: permissions, existing entries and symlinks count. */
module ArchiveTree {
  import opened Options
  import Slashes
  import opened ArchivePaths
  import opened RuntimeArchive

  datatype Entry = Dir(mode: nat) | Regular(bytes: Bytes, mode: nat) | Symlink(target: string)

  /** Entries below the output root, which is the empty path. */
  type Tree = map<Path, Entry>

  /** `privileged` ignores permission bits; `umasked` is the mode of directories made
      without one of their own. */
  datatype Env = Env(privileged: bool, umasked: nat)

  datatype Outcome = Done(tree: Tree) | Denied | Conflict | Redirected

  predicate Searchable(env: Env, mode: nat) {
    env.privileged || (mode / 64) % 2 == 1
  }

  predicate Readable(env: Env, mode: nat) {
    env.privileged || (mode / 256) % 2 == 1
  }

  predicate Writable(env: Env, mode: nat) {
    env.privileged || (mode / 128) % 2 == 1
  }

  /** `mkdir` of one directory whose parent exists; an existing directory is fine. */
  function MakeDir(env: Env, tree: Tree, p: Path): Outcome
    requires p != []
  {
    if Parent(p) !in tree then Conflict
    else match tree[Parent(p)]
      case Symlink(_) => Redirected
      case Regular(_, _) => Conflict
      case Dir(mode) =>
        if !Searchable(env, mode) then Denied
        else if p in tree then
          (match tree[p]
           case Dir(_) => Done(tree)
           case Symlink(_) => Redirected
           case Regular(_, _) => Conflict)
        else if !Writable(env, mode) then Denied
        else Done(tree[p := Dir(env.umasked)])
  }

  /** `mkdir(parents=True, exist_ok=True)`. */
  function MakeDirs(env: Env, tree: Tree, p: Path): Outcome
    decreases |p|
  {
    if p == [] then Done(tree)
    else match MakeDirs(env, tree, Parent(p))
      case Done(grown) => MakeDir(env, grown, p)
      case failure => failure
  }

  /** Exclusive creation of a file or symlink in an existing directory. */
  function CreateIn(env: Env, tree: Tree, p: Path, entry: Entry): Outcome
    requires p != []
  {
    if Parent(p) !in tree then Conflict
    else match tree[Parent(p)]
      case Symlink(_) => Redirected
      case Regular(_, _) => Conflict
      case Dir(mode) =>
        if !Searchable(env, mode) then Denied
        else if p in tree then Conflict
        else if !Writable(env, mode) then Denied
        else Done(tree[p := entry])
  }

  function Create(env: Env, tree: Tree, p: Path, entry: Entry): Outcome
    requires p != []
  {
    match MakeDirs(env, tree, Parent(p))
    case Done(grown) => CreateIn(env, grown, p, entry)
    case failure => failure
  }

  function Chmod(o: Outcome, p: Path, mode: nat): Outcome {
    match o
    case Done(tree) => Done(tree[p := Dir(mode)])
    case failure => failure
  }

  /** What one accepted member asks to be written, and where. */
  datatype Item = Item(name: Path, entry: Entry)

  function ItemOf(m: Member): Item
    requires MemberSafe(m)
  {
    Item(NameOf(m),
         match m.content
         case Directory => Dir(m.mode % MODES)
         case File(bytes) => Regular(bytes, m.mode % MODES)
         case Link(target) => Symlink(target))
  }

  function Items(members: seq<Member>): (items: seq<Item>)
    requires AllSafe(members)
    ensures |items| == |members| && forall i :: 0 <= i < |members| ==> items[i] == ItemOf(members[i])
  {
    seq(|members|, i requires 0 <= i < |members| => ItemOf(members[i]))
  }

  function Write(env: Env, tree: Tree, item: Item): Outcome
    requires item.name != []
  {
    if item.entry.Dir? then Chmod(MakeDirs(env, tree, item.name), item.name, item.entry.mode)
    else Create(env, tree, item.name, item.entry)
  }

  ghost predicate Named(items: seq<Item>) {
    forall i :: 0 <= i < |items| ==> items[i].name != []
  }

  function Root(env: Env): Tree {
    map[[] := Dir(env.umasked)]
  }

  /** The first `n` members in archive order; the first failure stops the extraction. */
  function WriteFirst(env: Env, items: seq<Item>, n: nat): Outcome
    requires Named(items) && n <= |items|
  {
    if n == 0 then Done(Root(env))
    else match WriteFirst(env, items, n - 1)
      case Done(written) => Write(env, written, items[n - 1])
      case failure => failure
  }

  datatype Extraction = Refused | Attempted(outcome: Outcome)

  method WriteItems(env: Env, items: seq<Item>) returns (outcome: Outcome)
    requires Named(items)
    ensures outcome == WriteFirst(env, items, |items|)
  {
    var tree := Root(env);
    var i := 0;
    while i < |items|
      invariant 0 <= i <= |items| && WriteFirst(env, items, i) == Done(tree)
    {
      outcome := Write(env, tree, items[i]);
      if !outcome.Done? {
        FailureStays(env, items, i + 1);
        return;
      }
      tree := outcome.tree;
      i := i + 1;
    }
    outcome := Done(tree);
  }

  /** `extract`: nothing is written unless the whole archive is acceptable. */
  method Extract(env: Env, members: seq<Member>) returns (r: Extraction)
    ensures r.Refused? <==> !Accepts(members)
    ensures r.Attempted? ==> r.outcome == WriteFirst(env, Items(members), |members|)
  {
    var ok := Check(members);
    if !ok {
      return Refused;
    }
    var outcome := WriteItems(env, Items(members));
    r := Attempted(outcome);
  }

  lemma {:induction false} FailureStays(env: Env, items: seq<Item>, n: nat)
    requires Named(items) && n <= |items| && !WriteFirst(env, items, n).Done?
    ensures WriteFirst(env, items, |items|) == WriteFirst(env, items, n)
    decreases |items| - n
  {
    if n < |items| {
      FailureStays(env, items, n + 1);
    }
  }

  // ----- every write lands at its lexical path

  /** No prefix of `p`, nor `p`, is a symlink of the tree. */
  ghost predicate LinkFree(tree: Tree, p: Path) {
    forall q :: q in tree && q <= p ==> !tree[q].Symlink?
  }

  /** `after` extends `before` by directories on the way to `p` only. */
  ghost predicate GrownTowards(before: Tree, after: Tree, p: Path) {
    && (forall q :: q in before ==> q in after && after[q] == before[q])
    && (forall q :: q in after && q !in before ==> q <= p && after[q].Dir?)
  }

  lemma {:induction false} MakeDirsConfined(env: Env, tree: Tree, p: Path)
    requires LinkFree(tree, p)
    ensures MakeDirs(env, tree, p) != Redirected
    ensures MakeDirs(env, tree, p).Done? ==> GrownTowards(tree, MakeDirs(env, tree, p).tree, p)
    decreases |p|
  {
    if p != [] {
      MakeDirsConfined(env, tree, Parent(p));
      assert Parent(p) <= p;
    }
  }

  /** What a completed write of `item` does to the tree. */
  ghost predicate Wrote(before: Tree, after: Tree, item: Item) {
    && item.name in after && after[item.name] == item.entry
    && (forall q :: q in before && q != item.name ==> q in after && after[q] == before[q])
    && (forall q :: q in after && q !in before && q != item.name ==> q <= item.name && after[q].Dir?)
  }

  /** A write is never redirected and changes nothing but its own name and
      directories created on the way there. */
  lemma {:induction false} WriteConfined(env: Env, tree: Tree, item: Item)
    requires item.name != [] && LinkFree(tree, item.name)
    ensures Write(env, tree, item) != Redirected
    ensures Write(env, tree, item).Done? ==> Wrote(tree, Write(env, tree, item).tree, item)
  {
    var name := item.name;
    if item.entry.Dir? {
      MakeDirsConfined(env, tree, name);
    } else {
      assert Parent(name) <= name;
      MakeDirsConfined(env, tree, Parent(name));
    }
  }

  ghost predicate AtOrAbove(items: seq<Item>, n: nat, p: Path)
    requires Named(items) && n <= |items|
  {
    exists i :: 0 <= i < n && p <= items[i].name
  }

  ghost predicate IsLinkMember(items: seq<Item>, n: nat, p: Path)
    requires Named(items) && n <= |items|
  {
    exists i :: 0 <= i < n && items[i].entry.Symlink? && items[i].name == p
  }

  /** After the first `n` items: their entries, directories above them, and no
      other symlink. */
  ghost predicate Extracted(items: seq<Item>, n: nat, tree: Tree)
    requires Named(items) && n <= |items|
  {
    && (forall i :: 0 <= i < n ==> items[i].name in tree && tree[items[i].name] == items[i].entry)
    && (forall p {:trigger AtOrAbove(items, n, p)} :: p in tree ==> p == [] || AtOrAbove(items, n, p))
    && (forall p {:trigger IsLinkMember(items, n, p)} :: p in tree && tree[p].Symlink? ==> IsLinkMember(items, n, p))
  }

  /** Distinct names, none below a symlink. */
  ghost predicate Separate(items: seq<Item>) {
    && (forall i, j :: 0 <= i < j < |items| ==> items[i].name != items[j].name)
    && (forall i, j :: 0 <= i < |items| && 0 <= j < |items| && items[i].entry.Symlink?
                       ==> !(items[i].name < items[j].name))
  }

  lemma {:induction false} NextIsLinkFree(items: seq<Item>, n: nat, tree: Tree)
    requires Named(items) && Separate(items)
    requires n < |items| && Extracted(items, n, tree)
    ensures LinkFree(tree, items[n].name)
  {
    forall q | q in tree && q <= items[n].name ensures !tree[q].Symlink? {
      assert tree[q].Symlink? ==> IsLinkMember(items, n, q);
      assert q == items[n].name || q < items[n].name;
    }
  }

  lemma {:induction false} LaterMembers(items: seq<Item>, n: nat, p: Path)
    requires Named(items) && n < |items|
    ensures AtOrAbove(items, n + 1, p) <==> AtOrAbove(items, n, p) || p <= items[n].name
    ensures IsLinkMember(items, n, p) ==> IsLinkMember(items, n + 1, p)
  {
  }

  lemma {:induction false} ExtractedStep(items: seq<Item>, n: nat, before: Tree, after: Tree)
    requires Named(items) && Separate(items)
    requires n < |items| && Extracted(items, n, before)
    requires Wrote(before, after, items[n])
    ensures Extracted(items, n + 1, after)
  {
    forall p | p in after ensures PlacedAt(items, n + 1, after, p) {
      PlacedStep(items, n, before, after, p);
    }
    MembersStep(items, n, before, after);
  }

  /** A path of the tree is at or above a member, and a symlink only where one belongs. */
  ghost predicate PlacedAt(items: seq<Item>, n: nat, tree: Tree, p: Path)
    requires Named(items) && n <= |items| && p in tree
  {
    (p == [] || AtOrAbove(items, n, p)) && (tree[p].Symlink? ==> IsLinkMember(items, n, p))
  }

  lemma {:induction false} PlacedStep(items: seq<Item>, n: nat, before: Tree, after: Tree, p: Path)
    requires Named(items) && n < |items| && Wrote(before, after, items[n]) && p in after
    requires p in before ==> PlacedAt(items, n, before, p)
    ensures PlacedAt(items, n + 1, after, p)
  {
    LaterMembers(items, n, p);
    assert p == items[n].name ==> after[p] == items[n].entry;
  }

  lemma {:induction false} MembersStep(items: seq<Item>, n: nat, before: Tree, after: Tree)
    requires Named(items) && Separate(items) && n < |items| && Wrote(before, after, items[n])
    requires forall i :: 0 <= i < n ==> items[i].name in before && before[items[i].name] == items[i].entry
    ensures forall i :: 0 <= i < n + 1 ==> items[i].name in after && after[items[i].name] == items[i].entry
  {
  }

  lemma {:induction false} WritesConfined(env: Env, items: seq<Item>, n: nat)
    requires Named(items) && Separate(items) && n <= |items|
    ensures WriteFirst(env, items, n) != Redirected
    ensures WriteFirst(env, items, n).Done? ==> Extracted(items, n, WriteFirst(env, items, n).tree)
  {
    if n > 0 {
      WritesConfined(env, items, n - 1);
      var before := WriteFirst(env, items, n - 1);
      if before.Done? {
        NextIsLinkFree(items, n - 1, before.tree);
        WriteConfined(env, before.tree, items[n - 1]);
        if WriteFirst(env, items, n).Done? {
          ExtractedStep(items, n - 1, before.tree, WriteFirst(env, items, n).tree);
        }
      }
    }
  }

  /** For an accepted archive no write, in whatever order, passes through a symlink:
      every write lands at its lexical path, and a completed extraction holds the
      members and directories above them, nothing else. */
  lemma {:induction false} ExtractionConfined(env: Env, members: seq<Member>)
    requires Accepts(members)
    ensures WriteFirst(env, Items(members), |members|) != Redirected
    ensures WriteFirst(env, Items(members), |members|).Done? ==>
              Extracted(Items(members), |members|, WriteFirst(env, Items(members), |members|).tree)
  {
    WritesConfined(env, Items(members), |members|);
  }

  /** What a completed extraction leaves for one member at `p`. */
  ghost predicate Landed(tree: Tree, m: Member, p: Path) {
    p in tree && match m.content
      case Directory => tree[p] == Dir(m.mode % 4096)
      case File(bytes) => tree[p] == Regular(bytes, m.mode % 4096)
      case Link(target) => tree[p] == Symlink(target)
      case Special => false
  }

  /** Every member is where its name leads, with its kind, bytes, permissions and target;
      whatever else is there is a directory above one; and every symlink, followed from its
      own directory, stays inside the root. */
  ghost predicate Holds(members: seq<Member>, tree: Tree) {
    && (forall i, p :: 0 <= i < |members| && Names(members[i], p) ==> Landed(tree, members[i], p))
    && (forall p :: p in tree && p != [] ==> exists i, q :: 0 <= i < |members| && Names(members[i], q) && p <= q)
    && (forall p :: p in tree && tree[p].Symlink? ==> p != [] && Resolve(p[..|p| - 1], Slashes.Split(tree[p].target)).Some?)
  }

  lemma {:induction false} ExtractedHolds(members: seq<Member>, items: seq<Item>, tree: Tree)
    requires AllSafe(members) && items == Items(members) && Named(items) && Extracted(items, |items|, tree)
    ensures Holds(members, tree)
  {
    forall i, p | 0 <= i < |members| && Names(members[i], p) ensures Landed(tree, members[i], p) {
      MemberLanded(members, items, tree, i, p);
    }
    forall p | p in tree && p != [] ensures exists i, q :: 0 <= i < |members| && Names(members[i], q) && p <= q {
      PathListed(members, items, tree, p);
    }
    forall p | p in tree && tree[p].Symlink? ensures p != [] && Resolve(p[..|p| - 1], Slashes.Split(tree[p].target)).Some? {
      LinkInside(members, items, tree, p);
    }
  }

  /** What a completed extraction of an accepted archive leaves. */
  lemma {:induction false} ExtractionHolds(env: Env, members: seq<Member>)
    requires Accepts(members) && WriteFirst(env, Items(members), |members|).Done?
    ensures Holds(members, WriteFirst(env, Items(members), |members|).tree)
  {
    ExtractionConfined(env, members);
    ExtractedHolds(members, Items(members), WriteFirst(env, Items(members), |members|).tree);
  }

  lemma {:induction false} MemberLanded(members: seq<Member>, items: seq<Item>, tree: Tree, i: nat, p: Path)
    requires AllSafe(members) && items == Items(members) && Extracted(items, |items|, tree)
    requires i < |members| && Names(members[i], p)
    ensures Landed(tree, members[i], p)
  {
    NamesIsSafeName(members[i]);
    assert items[i] == ItemOf(members[i]) && items[i].name == p;
  }

  lemma {:induction false} PathListed(members: seq<Member>, items: seq<Item>, tree: Tree, p: Path)
    requires AllSafe(members) && items == Items(members) && Extracted(items, |items|, tree) && p in tree && p != []
    ensures exists i, q :: 0 <= i < |members| && Names(members[i], q) && p <= q
  {
    assert AtOrAbove(items, |items|, p);
    var i :| 0 <= i < |items| && p <= items[i].name;
    SafeMeans(members[i]);
    assert Names(members[i], items[i].name);
  }

  lemma {:induction false} LinkInside(members: seq<Member>, items: seq<Item>, tree: Tree, p: Path)
    requires AllSafe(members) && items == Items(members) && Extracted(items, |items|, tree) && p in tree && tree[p].Symlink?
    ensures p != [] && Resolve(p[..|p| - 1], Slashes.Split(tree[p].target)).Some?
  {
    assert IsLinkMember(items, |items|, p);
    var i :| 0 <= i < |items| && items[i].entry.Symlink? && items[i].name == p;
    SafeMeans(members[i]);
    assert items[i] == ItemOf(members[i]) && tree[p] == items[i].entry;
  }
}
