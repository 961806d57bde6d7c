/** When a single write of an extraction succeeds, and what it leaves, in terms of the
    permission bits of the directories on its way. */
module ArchiveWrites {
  import opened ArchivePaths
  import opened RuntimeArchive
  import opened ArchiveTree

  /** The owner's bits of a mode: 0400 to read, 0200 to write, 0100 to search. */
  lemma {:induction false} OwnerBits(env: Env, special: nat, read: nat, write: nat, search: nat, others: nat)
    requires read <= 1 && write <= 1 && search <= 1 && others < 0x40
    ensures var mode := special * 0x200 + read * 0x100 + write * 0x80 + search * 0x40 + others;
            && (Readable(env, mode) <==> env.privileged || read == 1)
            && (Writable(env, mode) <==> env.privileged || write == 1)
            && (Searchable(env, mode) <==> env.privileged || search == 1)
  {
    var mode := special * 0x200 + read * 0x100 + write * 0x80 + search * 0x40 + others;
    assert mode / 64 == special * 8 + read * 4 + write * 2 + search;
    assert mode / 128 == special * 4 + read * 2 + write;
    assert mode / 256 == special * 2 + read;
  }

  /** The mode of a directory, or the one it is going to be made with. */
  ghost function ModeAt(env: Env, tree: Tree, q: Path): nat {
    if q in tree && tree[q].Dir? then tree[q].mode else env.umasked
  }

  /** The `k`th directory on the way lets the next name through: it can be searched, and
      written where that name is missing. */
  ghost predicate Passes(env: Env, tree: Tree, p: Path, k: nat)
    requires k < |p|
  {
    && (p[..k] in tree ==> tree[p[..k]].Dir?)
    && Searchable(env, ModeAt(env, tree, p[..k]))
    && (p[..k + 1] !in tree ==> Writable(env, ModeAt(env, tree, p[..k])))
  }

  ghost predicate WayPasses(env: Env, tree: Tree, p: Path) {
    forall k {:trigger Passes(env, tree, p, k)} :: 0 <= k < |p| ==> Passes(env, tree, p, k)
  }

  lemma {:induction false} WayStep(env: Env, tree: Tree, p: Path)
    requires p != []
    ensures WayPasses(env, tree, p) <==> WayPasses(env, tree, Parent(p)) && Passes(env, tree, p, |p| - 1)
  {
    forall k | 0 <= k < |p| - 1 ensures Passes(env, tree, p, k) <==> Passes(env, tree, Parent(p), k) {
      assert Parent(p)[..k] == p[..k] && Parent(p)[..k + 1] == p[..k + 1];
    }
  }

  /** Missing directories down to `p` are made, and nothing else changes. */
  ghost predicate MadeDown(env: Env, before: Tree, after: Tree, p: Path) {
    && (forall q :: q in after <==> q in before || q <= p)
    && (forall q :: q in after ==> after[q] == if q in before then before[q] else Dir(env.umasked))
  }

  lemma {:induction false} MakeDirsIff(env: Env, tree: Tree, p: Path)
    requires [] in tree
    ensures MakeDirs(env, tree, p).Done? <==> WayPasses(env, tree, p) && (p in tree ==> tree[p].Dir? || p == [])
    ensures MakeDirs(env, tree, p).Done? ==> MadeDown(env, tree, MakeDirs(env, tree, p).tree, p)
    decreases |p|
  {
    if p != [] {
      assert Parent(p) <= p && p[..|p| - 1] == Parent(p) && p[..|p|] == p;
      MakeDirsIff(env, tree, Parent(p));
      WayStep(env, tree, p);
      if MakeDirs(env, tree, Parent(p)).Done? {
        MakeDirIff(env, tree, MakeDirs(env, tree, Parent(p)).tree, p);
      }
    }
  }

  lemma {:induction false} MakeDirIff(env: Env, tree: Tree, grown: Tree, p: Path)
    requires p != [] && MadeDown(env, tree, grown, Parent(p))
    ensures MakeDir(env, grown, p).Done? <==> Passes(env, tree, p, |p| - 1) && (p in tree ==> tree[p].Dir?)
    ensures MakeDir(env, grown, p).Done? ==> MadeDown(env, tree, MakeDir(env, grown, p).tree, p)
  {
    assert p[..|p| - 1] == Parent(p) && p[..|p|] == p && Parent(p) <= p && !(p <= Parent(p));
    forall q {:trigger q in tree} ensures q <= p <==> q <= Parent(p) || q == p {
      if q <= p && q != p {
        assert q == p[..|q|] == Parent(p)[..|q|];
      }
    }
  }

  /** What a completed write leaves: its entry, directories made on the way, and all else
      as it was. */
  ghost predicate Written(env: Env, before: Tree, after: Tree, item: Item) {
    && (forall q :: q in after <==> q in before || q <= item.name)
    && (forall q :: q in after ==> after[q] == if q == item.name then item.entry else if q in before then before[q] else Dir(env.umasked))
  }

  /** A write succeeds exactly when its way leads through directories that let it through,
      and its name is free, or is a directory that is to be one. */
  lemma {:induction false} WriteIff(env: Env, tree: Tree, item: Item)
    requires item.name != [] && [] in tree
    ensures Write(env, tree, item).Done? <==>
              WayPasses(env, tree, item.name) && (item.name in tree ==> item.entry.Dir? && tree[item.name].Dir?)
    ensures Write(env, tree, item).Done? ==> Written(env, tree, Write(env, tree, item).tree, item)
  {
    var p := item.name;
    if item.entry.Dir? {
      MakeDirsIff(env, tree, p);
    } else {
      assert Parent(p) <= p && !(p <= Parent(p));
      MakeDirsIff(env, tree, Parent(p));
      WayStep(env, tree, p);
      if MakeDirs(env, tree, Parent(p)).Done? {
        CreateInIff(env, tree, MakeDirs(env, tree, Parent(p)).tree, item);
      } else {
        assert p[..|p| - 1] == Parent(p);
      }
    }
  }

  lemma {:induction false} CreateInIff(env: Env, tree: Tree, grown: Tree, item: Item)
    requires item.name != [] && MadeDown(env, tree, grown, Parent(item.name))
    ensures var o := CreateIn(env, grown, item.name, item.entry);
            && (o.Done? <==> Passes(env, tree, item.name, |item.name| - 1) && item.name !in tree)
            && (o.Done? ==> Written(env, tree, o.tree, item))
  {
    var p := item.name;
    assert p[..|p| - 1] == Parent(p) && p[..|p|] == p && Parent(p) <= p && !(p <= Parent(p));
    forall q {:trigger q in tree} ensures q <= p <==> q <= Parent(p) || q == p {
      if q <= p && q != p {
        assert q == p[..|q|] == Parent(p)[..|q|];
      }
    }
  }

  // ----- what nobody asked for

  ghost predicate Asked(items: seq<Item>, n: nat, p: Path)
    requires n <= |items|
  {
    exists i :: 0 <= i < n && items[i].name == p
  }

  ghost predicate MadeOrAsked(env: Env, items: seq<Item>, n: nat, tree: Tree)
    requires n <= |items|
  {
    [] in tree && forall p {:trigger Asked(items, n, p)} :: p in tree ==> Asked(items, n, p) || tree[p] == Dir(env.umasked)
  }

  lemma {:induction false} WritesMake(env: Env, items: seq<Item>, n: nat)
    requires Named(items) && Separate(items) && n <= |items| && WriteFirst(env, items, n).Done?
    ensures MadeOrAsked(env, items, n, WriteFirst(env, items, n).tree)
  {
    if n > 0 {
      var before := WriteFirst(env, items, n - 1).tree;
      WritesMake(env, items, n - 1);
      WritesConfined(env, items, n - 1);
      WriteIff(env, before, items[n - 1]);
      MadeStep(env, items, n, before, WriteFirst(env, items, n).tree);
    }
  }

  lemma {:induction false} MadeStep(env: Env, items: seq<Item>, n: nat, before: Tree, after: Tree)
    requires 0 < n <= |items| && MadeOrAsked(env, items, n - 1, before) && Written(env, before, after, items[n - 1])
    ensures MadeOrAsked(env, items, n, after)
  {
    forall p | p in after && !Asked(items, n, p) ensures after[p] == Dir(env.umasked) {
      assert !Asked(items, n - 1, p) && p != items[n - 1].name;
    }
  }

  /** Directories that no member names, the root among them, have the mode they were made
      with. */
  lemma {:induction false} UnnamedAreMade(env: Env, members: seq<Member>, p: Path)
    requires Accepts(members) && WriteFirst(env, Items(members), |members|).Done?
    requires p in WriteFirst(env, Items(members), |members|).tree
    requires forall i :: 0 <= i < |members| ==> !Names(members[i], p)
    ensures WriteFirst(env, Items(members), |members|).tree[p] == Dir(env.umasked)
  {
    var items := Items(members);
    WritesMake(env, items, |items|);
    if Asked(items, |items|, p) {
      var i :| 0 <= i < |items| && items[i].name == p;
      SafeMeans(members[i]);
      assert false;
    }
  }
}
