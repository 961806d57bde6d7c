/** scripts/release/bundle-linux-gstreamer-camera.py: `copy_runtime_closure`, a worklist
    over ELF NEEDED entries, and `copy_with_soname`, which fills the runtime directory. */
module RuntimeClosure {
  import opened Options

  type Path = string
  type Soname = string

  /** What the tools report: sorted NEEDED entries of a file, the linker cache, the
      trusted file a path resolves to, base names and content digests. */
  datatype System = System(needs: Path -> seq<Soname>, cache: map<Soname, Path>, resolve: Path -> Option<Path>,
                           name: Path -> string, digest: Path -> string)

  const GLIBC: set<Soname> :=
    {"libc.so.6", "libdl.so.2", "libm.so.6", "libpthread.so.0", "librt.so.1", "libutil.so.1",
     "libresolv.so.2", "ld-linux-x86-64.so.2", "ld-linux-aarch64.so.1"}

  // ----- the dependency relation and its least closed set

  /** The soname must be bundled and its file is trusted. */
  predicate Resolves(sys: System, s: Soname) {
    s in sys.cache && sys.resolve(sys.cache[s]).Some?
  }

  /** `file` needs the trusted library file `lib`. */
  ghost predicate Depends(sys: System, file: Path, lib: Path) {
    exists s :: s in sys.needs(file) && s !in GLIBC && Resolves(sys, s) && sys.resolve(sys.cache[s]).value == lib
  }

  ghost predicate Closed(sys: System, initial: seq<Path>, libs: set<Path>) {
    && (forall file, lib :: file in initial && Depends(sys, file, lib) ==> lib in libs)
    && (forall file, lib :: file in libs && Depends(sys, file, lib) ==> lib in libs)
  }

  /** In the least set that holds what the initial files need and is closed under need. */
  ghost predicate Reachable(sys: System, initial: seq<Path>, lib: Path) {
    forall libs :: Closed(sys, initial, libs) ==> lib in libs
  }

  /** A file whose needs are followed. */
  ghost predicate Visited(sys: System, initial: seq<Path>, file: Path) {
    file in initial || Reachable(sys, initial, file)
  }

  lemma {:induction false} ReachStep(sys: System, initial: seq<Path>, file: Path, lib: Path)
    requires Visited(sys, initial, file) && Depends(sys, file, lib)
    ensures Reachable(sys, initial, lib)
  {
    forall libs | Closed(sys, initial, libs) ensures lib in libs {
      assert file in initial || file in libs;
    }
  }

  /** Every library the cache can name: a closed set, so reachability is not vacuous. */
  ghost function Universe(sys: System): set<Path> {
    set s | s in sys.cache && sys.resolve(sys.cache[s]).Some? :: sys.resolve(sys.cache[s]).value
  }

  lemma {:induction false} UniverseClosed(sys: System, initial: seq<Path>)
    ensures Closed(sys, initial, Universe(sys))
  {
    forall file, lib | Depends(sys, file, lib) ensures lib in Universe(sys) {
      var s :| s in sys.needs(file) && s !in GLIBC && Resolves(sys, s) && sys.resolve(sys.cache[s]).value == lib;
    }
  }

  // ----- the runtime directory

  datatype Entry = Copy(digest: string) | SymLink(target: string)

  type Directory = map<string, Entry>

  /** Nothing in the directory is ever replaced. */
  ghost predicate Grows(before: Directory, after: Directory) {
    forall n :: n in before ==> n in after && after[n] == before[n]
  }

  /** A copy of `lib` under its own name. */
  ghost predicate Holds(sys: System, dir: Directory, lib: Path) {
    sys.name(lib) in dir && dir[sys.name(lib)] == Copy(sys.digest(lib))
  }

  /** `copy_with_soname`: the file under its own name and a link under the requested
      one; a name already taken by anything else is a collision. */
  function CopyWithSoname(sys: System, dir: Directory, source: Path, target: Path): Option<Directory> {
    var own := sys.name(target);
    var copied :=
      if own in dir then (if dir[own] == Copy(sys.digest(target)) then Some(dir) else None)
      else Some(dir[own := Copy(sys.digest(target))]);
    if copied.None? then None
    else
      var link := sys.name(source);
      if link == "" || link == own then copied
      else if link in copied.value then (if copied.value[link] == SymLink(own) then copied else None)
      else Some(copied.value[link := SymLink(own)])
  }

  lemma {:induction false} CopyGrows(sys: System, dir: Directory, source: Path, target: Path)
    requires CopyWithSoname(sys, dir, source, target).Some?
    ensures Grows(dir, CopyWithSoname(sys, dir, source, target).value)
    ensures Holds(sys, CopyWithSoname(sys, dir, source, target).value, target)
    ensures sys.name(source) != "" && sys.name(source) != sys.name(target) ==>
      var after := CopyWithSoname(sys, dir, source, target).value;
      sys.name(source) in after && after[sys.name(source)] == SymLink(sys.name(target))
    ensures CopyWithSoname(sys, dir, source, target).value.Keys == dir.Keys + NamesFor(sys, source, target)
  {
  }

  /** The names under which one library is found after it was copied by way of `source`. */
  function NamesFor(sys: System, source: Path, target: Path): set<string> {
    {sys.name(target)} + if sys.name(source) == "" then {} else {sys.name(source)}
  }

  // ----- the worklist

  datatype Failure =
    | Uncached(file: Path, soname: Soname)
    | Untrusted(candidate: Path)
    | Collision(candidate: Path, lib: Path, dir: Directory)

  /** `sources` are the cache entries by way of which the libraries were copied. */
  datatype Result = Bundled(libs: seq<Path>, sources: seq<Path>, dir: Directory) | Failed(why: Failure)

  /** A cache entry some visited file asks for. */
  ghost predicate Wanted(sys: System, initial: seq<Path>, candidate: Path) {
    exists file, s :: Visited(sys, initial, file) && s in sys.needs(file) && s !in GLIBC
                      && s in sys.cache && sys.cache[s] == candidate
  }

  /** A need that is taken care of: queued, or already copied. */
  ghost predicate Handled(sys: System, s: Soname, queue: seq<Path>, done: set<Path>) {
    s in sys.cache && (sys.cache[s] in queue || (Resolves(sys, s) && sys.resolve(sys.cache[s]).value in done))
  }

  ghost predicate AllHandled(sys: System, file: Path, queue: seq<Path>, done: set<Path>) {
    forall s :: s in sys.needs(file) && s !in GLIBC ==> Handled(sys, s, queue, done)
  }

  /** The needs of one file are appended to the queue, or one is not in the cache. */
  method Enqueue(sys: System, ghost initial: seq<Path>, file: Path, queue: seq<Path>)
    returns (grown: seq<Path>, bad: Option<Soname>)
    requires Visited(sys, initial, file) && forall c :: c in queue ==> Wanted(sys, initial, c)
    ensures bad.Some? ==> bad.value in sys.needs(file) && bad.value !in GLIBC && bad.value !in sys.cache
    ensures bad.None? ==> queue <= grown && AllHandled(sys, file, grown, {})
    ensures forall c :: c in grown ==> Wanted(sys, initial, c)
  {
    grown, bad := queue, None;
    var needs := sys.needs(file);
    var i := 0;
    while i < |needs|
      invariant 0 <= i <= |needs| && queue <= grown
      invariant forall j :: 0 <= j < i && needs[j] !in GLIBC ==> needs[j] in sys.cache && sys.cache[needs[j]] in grown
      invariant forall c :: c in grown ==> Wanted(sys, initial, c)
    {
      var s := needs[i];
      if s !in GLIBC {
        if s !in sys.cache {
          return grown, Some(s);
        }
        assert Wanted(sys, initial, sys.cache[s]);
        grown := grown + [sys.cache[s]];
      }
      i := i + 1;
    }
  }

  lemma {:induction false} WantedReachable(sys: System, initial: seq<Path>, candidate: Path)
    requires Wanted(sys, initial, candidate) && sys.resolve(candidate).Some?
    ensures Reachable(sys, initial, sys.resolve(candidate).value)
    ensures sys.resolve(candidate).value in Universe(sys)
  {
    var file, s :| Visited(sys, initial, file) && s in sys.needs(file) && s !in GLIBC
                   && s in sys.cache && sys.cache[s] == candidate;
    ReachStep(sys, initial, file, sys.resolve(candidate).value);
  }

  /** Popping a candidate whose library is copied keeps every need handled. */
  lemma {:induction false} StillHandled(sys: System, file: Path, queue: seq<Path>, rest: seq<Path>, done: set<Path>, more: set<Path>)
    requires AllHandled(sys, file, queue, done) && queue != [] && queue[1..] <= rest && done <= more
    requires sys.resolve(queue[0]).Some? && sys.resolve(queue[0]).value in more
    ensures AllHandled(sys, file, rest, more)
  {
    forall s | s in sys.needs(file) && s !in GLIBC ensures Handled(sys, s, rest, more) {
      assert Handled(sys, s, queue, done);
      if sys.cache[s] in queue && sys.cache[s] != queue[0] {
        assert sys.cache[s] in queue[1..];
      }
    }
  }

  /** With an empty queue the copied libraries are the least closed set. */
  lemma {:induction false} DrainedIsLeast(sys: System, initial: seq<Path>, done: set<Path>)
    requires forall lib :: lib in done ==> Reachable(sys, initial, lib)
    requires forall file :: file in initial || file in done ==> AllHandled(sys, file, [], done)
    ensures Closed(sys, initial, done)
    ensures forall lib :: lib in done <==> Reachable(sys, initial, lib)
    ensures forall file, s :: Visited(sys, initial, file) && s in sys.needs(file) && s !in GLIBC ==> Resolves(sys, s)
  {
    forall file, lib | (file in initial || file in done) && Depends(sys, file, lib) ensures lib in done {
      var s :| s in sys.needs(file) && s !in GLIBC && Resolves(sys, s) && sys.resolve(sys.cache[s]).value == lib;
      assert Handled(sys, s, [], done);
    }
    assert Closed(sys, initial, done);
    forall file, s | Visited(sys, initial, file) && s in sys.needs(file) && s !in GLIBC ensures Resolves(sys, s) {
      assert file in initial || file in done;
      assert Handled(sys, s, [], done);
    }
  }

  ghost predicate Distinct(s: seq<Path>) {
    forall i, j :: 0 <= i < j < |s| ==> s[i] != s[j]
  }

  /** Why a failed run was right to fail. */
  ghost predicate Justified(sys: System, initial: seq<Path>, start: Directory, why: Failure) {
    match why
    case Uncached(file, s) => Visited(sys, initial, file) && s in sys.needs(file) && s !in GLIBC && s !in sys.cache
    case Untrusted(c) => Wanted(sys, initial, c) && sys.resolve(c).None?
    case Collision(c, lib, dir) =>
      Wanted(sys, initial, c) && sys.resolve(c) == Some(lib) && Grows(start, dir) && CopyWithSoname(sys, dir, c, lib).None?
  }

  method EnqueueAll(sys: System, initial: seq<Path>, ghost start: Directory) returns (queue: seq<Path>, why: Option<Failure>)
    ensures why.Some? ==> Justified(sys, initial, start, why.value)
    ensures why.None? ==> forall file :: file in initial ==> AllHandled(sys, file, queue, {})
    ensures forall c :: c in queue ==> Wanted(sys, initial, c)
  {
    queue, why := [], None;
    var i := 0;
    while i < |initial|
      invariant 0 <= i <= |initial|
      invariant forall j :: 0 <= j < i ==> AllHandled(sys, initial[j], queue, {})
      invariant forall c :: c in queue ==> Wanted(sys, initial, c)
    {
      ghost var before := queue;
      var bad;
      queue, bad := Enqueue(sys, initial, initial[i], queue);
      if bad.Some? {
        return queue, Some(Uncached(initial[i], bad.value));
      }
      forall j | 0 <= j < i ensures AllHandled(sys, initial[j], queue, {}) {
        HandledMore(sys, initial[j], before, queue);
      }
      i := i + 1;
    }
  }

  lemma {:induction false} HandledMore(sys: System, file: Path, queue: seq<Path>, grown: seq<Path>)
    requires AllHandled(sys, file, queue, {}) && queue <= grown
    ensures AllHandled(sys, file, grown, {})
  {
    forall s | s in sys.needs(file) && s !in GLIBC ensures Handled(sys, s, grown, {}) {
      assert Handled(sys, s, queue, {});
    }
  }

  lemma {:induction false} HandledBy(sys: System, file: Path, queue: seq<Path>, done: set<Path>)
    requires AllHandled(sys, file, queue, {})
    ensures AllHandled(sys, file, queue, done)
  {
    forall s | s in sys.needs(file) && s !in GLIBC ensures Handled(sys, s, queue, done) {
      assert Handled(sys, s, queue, {});
    }
  }

  /** Between iterations: what is copied is reachable and present, what is queued is
      wanted, and every need of a visited file is handled. */
  ghost predicate Working(sys: System, initial: seq<Path>, libs: seq<Path>, dir: Directory, queue: seq<Path>) {
    && Distinct(libs)
    && (forall lib :: lib in libs ==> Holds(sys, dir, lib) && lib in Universe(sys) && Reachable(sys, initial, lib))
    && (forall c :: c in queue ==> Wanted(sys, initial, c))
    && (forall file :: file in initial || file in libs ==> AllHandled(sys, file, queue, Elements(libs)))
  }

  /** All names added for the first `n` libraries. */
  ghost function AddedNames(sys: System, libs: seq<Path>, sources: seq<Path>, n: nat): set<string>
    requires n <= |libs| == |sources|
  {
    if n == 0 then {} else AddedNames(sys, libs, sources, n - 1) + NamesFor(sys, sources[n - 1], libs[n - 1])
  }

  /** Each library was copied by way of a wanted entry, and the directory has gained
      exactly the names that adds. */
  ghost predicate Stocked(sys: System, initial: seq<Path>, start: Directory, libs: seq<Path>, sources: seq<Path>, dir: Directory) {
    && |libs| == |sources| && dir.Keys == start.Keys + AddedNames(sys, libs, sources, |libs|)
    && forall i :: 0 <= i < |libs| ==> Wanted(sys, initial, sources[i]) && sys.resolve(sources[i]) == Some(libs[i])
  }

  lemma {:induction false} AddedPrefix(sys: System, libs: seq<Path>, sources: seq<Path>, lib: Path, source: Path, n: nat)
    requires n <= |libs| == |sources|
    ensures AddedNames(sys, libs + [lib], sources + [source], n) == AddedNames(sys, libs, sources, n)
  {
    if n > 0 {
      AddedPrefix(sys, libs, sources, lib, source, n - 1);
    }
  }

  lemma {:induction false} StockOne(sys: System, initial: seq<Path>, start: Directory, libs: seq<Path>, sources: seq<Path>, dir: Directory,
                                    source: Path, lib: Path, after: Directory)
    requires Stocked(sys, initial, start, libs, sources, dir) && Wanted(sys, initial, source) && sys.resolve(source) == Some(lib)
    requires after.Keys == dir.Keys + NamesFor(sys, source, lib)
    ensures Stocked(sys, initial, start, libs + [lib], sources + [source], after)
  {
    AddedPrefix(sys, libs, sources, lib, source, |libs|);
  }

  lemma {:induction false} AddedMember(sys: System, libs: seq<Path>, sources: seq<Path>, n: nat, name: string)
    requires n <= |libs| == |sources|
    ensures name in AddedNames(sys, libs, sources, n) <==> exists i :: 0 <= i < n && name in NamesFor(sys, sources[i], libs[i])
  {
    if n > 0 {
      AddedMember(sys, libs, sources, n - 1, name);
    }
  }

  ghost function Elements(s: seq<Path>): set<Path> {
    set x | x in s
  }

  lemma {:induction false} Skip(sys: System, initial: seq<Path>, libs: seq<Path>, dir: Directory, queue: seq<Path>)
    requires Working(sys, initial, libs, dir, queue) && queue != []
    requires sys.resolve(queue[0]).Some? && sys.resolve(queue[0]).value in libs
    ensures Working(sys, initial, libs, dir, queue[1..])
  {
    forall file | file in initial || file in libs ensures AllHandled(sys, file, queue[1..], Elements(libs)) {
      StillHandled(sys, file, queue, queue[1..], Elements(libs), Elements(libs));
    }
  }

  lemma {:induction false} Take(sys: System, initial: seq<Path>, libs: seq<Path>, dir: Directory, queue: seq<Path>,
                                lib: Path, after: Directory, rest: seq<Path>)
    requires Working(sys, initial, libs, dir, queue) && queue != []
    requires sys.resolve(queue[0]) == Some(lib) && lib !in libs
    requires Reachable(sys, initial, lib) && lib in Universe(sys)
    requires Grows(dir, after) && Holds(sys, after, lib)
    requires queue[1..] <= rest && AllHandled(sys, lib, rest, {}) && forall c :: c in rest ==> Wanted(sys, initial, c)
    ensures Working(sys, initial, libs + [lib], after, rest)
  {
    var more := Elements(libs + [lib]);
    assert (libs + [lib])[|libs|] == lib && Elements(libs) <= more;
    forall file | file in initial || file in libs + [lib] ensures AllHandled(sys, file, rest, more) {
      if file in initial || file in libs {
        StillHandled(sys, file, queue, rest, Elements(libs), more);
      } else {
        HandledBy(sys, file, rest, more);
      }
    }
    forall l | l in libs ensures Holds(sys, after, l) {
      assert Holds(sys, dir, l);
    }
  }

  /** Copies exactly the least set of trusted libraries that the initial files need and
      that is closed under need, each once; nothing present is replaced. A failure
      names a need that is reachable and cannot be met. */
  method CopyRuntimeClosure(sys: System, initial: seq<Path>, start: Directory) returns (r: Result)
    ensures r.Bundled? ==> Distinct(r.libs) && forall lib :: lib in r.libs <==> Reachable(sys, initial, lib)
    ensures r.Bundled? ==> Grows(start, r.dir) && forall lib :: lib in r.libs ==> sys.name(lib) in r.dir && r.dir[sys.name(lib)] == Copy(sys.digest(lib))
    ensures r.Bundled? ==>
      forall file, s :: Visited(sys, initial, file) && s in sys.needs(file) && s !in GLIBC ==> Resolves(sys, s)
    ensures r.Bundled? ==> Stocked(sys, initial, start, r.libs, r.sources, r.dir)
    ensures r.Failed? ==> Justified(sys, initial, start, r.why)
  {
    var queue, why := EnqueueAll(sys, initial, start);
    if why.Some? {
      return Failed(why.value);
    }
    var libs: seq<Path>, sources: seq<Path>, dir := [], [], start;
    assert Elements([]) == {};
    while queue != []
      invariant Working(sys, initial, libs, dir, queue) && Grows(start, dir)
      invariant Stocked(sys, initial, start, libs, sources, dir)
      decreases Universe(sys) - Elements(libs), |queue|
    {
      var candidate := queue[0];
      assert candidate in queue;
      var resolved := sys.resolve(candidate);
      if resolved.None? {
        return Failed(Untrusted(candidate));
      }
      var lib := resolved.value;
      if lib in libs {
        Skip(sys, initial, libs, dir, queue);
        queue := queue[1..];
        continue;
      }
      WantedReachable(sys, initial, candidate);
      var copied := CopyWithSoname(sys, dir, candidate, lib);
      if copied.None? {
        return Failed(Collision(candidate, lib, dir));
      }
      CopyGrows(sys, dir, candidate, lib);
      var rest, bad := Enqueue(sys, initial, lib, queue[1..]);
      if bad.Some? {
        return Failed(Uncached(lib, bad.value));
      }
      Take(sys, initial, libs, dir, queue, lib, copied.value, rest);
      StockOne(sys, initial, start, libs, sources, dir, candidate, lib, copied.value);
      assert lib in Universe(sys) - Elements(libs) && (libs + [lib])[|libs|] == lib;
      libs, sources, dir, queue := libs + [lib], sources + [candidate], copied.value, rest;
    }
    DrainedIsLeast(sys, initial, Elements(libs));
    r := Bundled(libs, sources, dir);
  }

  // ----- which names the loader finds

  /** A wanted entry's own name is found if and only if it was there before, is the name of
      a copied library, or is the name of the entry by way of which one was copied. */
  lemma {:induction false} FoundIff(sys: System, initial: seq<Path>, start: Directory, libs: seq<Path>, sources: seq<Path>, dir: Directory, c: Path)
    requires Stocked(sys, initial, start, libs, sources, dir)
    ensures sys.name(c) in dir <==>
            || sys.name(c) in start
            || exists i :: 0 <= i < |libs| && (sys.name(c) == sys.name(libs[i]) || (sys.name(c) == sys.name(sources[i]) && sys.name(c) != ""))
  {
    AddedMember(sys, libs, sources, |libs|, sys.name(c));
  }

  /** Every wanted name is found when no two wanted entries of different names lead to the
      same library, other than by its own name. */
  lemma {:induction false} NoAliasAllFound(sys: System, initial: seq<Path>, start: Directory, libs: seq<Path>, sources: seq<Path>, dir: Directory, c: Path, lib: Path)
    requires Stocked(sys, initial, start, libs, sources, dir) && Wanted(sys, initial, c) && sys.resolve(c) == Some(lib) && lib in libs
    requires sys.name(c) != "" && forall d :: Wanted(sys, initial, d) && sys.resolve(d) == Some(lib) ==> sys.name(d) == sys.name(c)
    ensures sys.name(c) in dir
  {
    FoundIff(sys, initial, start, libs, sources, dir, c);
    var i :| 0 <= i < |libs| && libs[i] == lib;
    assert Wanted(sys, initial, sources[i]);
  }

  /** Of two entries that lead to one library, which is the only one copied into an empty
      directory, one is not found. */
  lemma {:induction false} AliasNotFound(sys: System, initial: seq<Path>, libs: seq<Path>, sources: seq<Path>, dir: Directory, c: Path, d: Path, lib: Path)
    requires Stocked(sys, initial, map[], libs, sources, dir) && libs == [lib]
    requires sys.name(c) != sys.name(d) && sys.name(c) != sys.name(lib) && sys.name(d) != sys.name(lib)
    ensures !(sys.name(c) in dir && sys.name(d) in dir)
  {
    FoundIff(sys, initial, map[], libs, sources, dir, c);
    FoundIff(sys, initial, map[], libs, sources, dir, d);
  }
}
