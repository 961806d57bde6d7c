/** scripts/release/compositor-runtime-archive.py: `safe_name` and `safe_link` over
    POSIX path normalisation, proved to accept exactly the names that resolve inside
    the archive root. */
module ArchivePaths {
  import opened Options
  import opened Slashes

  /** A path below the root: names from the root down, without "", "." or "..". */
  type Path = seq<string>

  /** A name a directory entry can have. */
  predicate Plain(part: string) {
    part != "" && part != "." && part != ".." && '/' !in part && '\0' !in part
  }

  ghost predicate Proper(p: Path) {
    forall part :: part in p ==> Plain(part)
  }

  // ----- posixpath.normpath on a relative path

  /** One component appended to the normalised ones. */
  function Step(done: Parts, part: string): Parts {
    if part == "" || part == "." then done
    else if part != ".." || done == [] || done[|done| - 1] == ".." then done + [part]
    else done[..|done| - 1]
  }

  function Normalize(done: Parts, parts: Parts): Parts
    decreases |parts|
  {
    if parts == [] then done else Normalize(Step(done, parts[0]), parts[1..])
  }

  // ----- reference: walking the components from a directory

  /** Where the components lead from `base`; nothing if they climb above the root. */
  function Resolve(base: Path, parts: Parts): Option<Path>
    decreases |parts|
  {
    if parts == [] then Some(base)
    else if parts[0] == "" || parts[0] == "." then Resolve(base, parts[1..])
    else if parts[0] != ".." then Resolve(base + [parts[0]], parts[1..])
    else if base == [] then None
    else Resolve(base[..|base| - 1], parts[1..])
  }

  /** Normalised form: some ".." and then plain names. */
  ghost predicate Normal(p: Parts, up: nat) {
    up <= |p| && (forall i :: 0 <= i < up ==> p[i] == "..")
    && (forall i :: up <= i < |p| ==> p[i] != "" && p[i] != "." && p[i] != "..")
  }

  lemma {:induction false} ResolveConcat(base: Path, p: Parts, q: Parts)
    ensures Resolve(base, p + q) == match Resolve(base, p) case None => None case Some(mid) => Resolve(mid, q)
    decreases |p|
  {
    if p == [] {
      assert p + q == q;
    } else {
      assert (p + q)[1..] == p[1..] + q;
      if p[0] == "" || p[0] == "." {
        ResolveConcat(base, p[1..], q);
      } else if p[0] != ".." {
        ResolveConcat(base + [p[0]], p[1..], q);
      } else if base != [] {
        ResolveConcat(base[..|base| - 1], p[1..], q);
      }
    }
  }

  lemma {:induction false} StepNormal(done: Parts, part: string, up: nat) returns (up': nat)
    requires Normal(done, up)
    ensures Normal(Step(done, part), up')
  {
    if part == ".." && |done| == up {
      up' := up + 1;
    } else {
      up' := up;
    }
  }

  /** Appending one component after normalising leads where it leads without. */
  lemma {:induction false} StepResolves(base: Path, done: Parts, part: string, up: nat)
    requires Normal(done, up)
    ensures Resolve(base, Step(done, part)) == Resolve(base, done + [part])
  {
    ResolveConcat(base, done, [part]);
    if part == ".." && |done| > up {
      var last := done[|done| - 1];
      var front := done[..|done| - 1];
      assert done == front + [last];
      ResolveConcat(base, front, [last]);
      var mid := Resolve(base, front);
      if mid.Some? {
        assert (mid.value + [last])[..|mid.value|] == mid.value;
      }
    }
  }

  /** Normalising changes no path's meaning, from whatever directory it is read. */
  lemma {:induction false} NormalizeResolves(base: Path, done: Parts, parts: Parts, up: nat)
    requires Normal(done, up)
    ensures Resolve(base, Normalize(done, parts)) == Resolve(base, done + parts)
    decreases |parts|
  {
    if parts == [] {
      assert done + parts == done;
    } else {
      var up' := StepNormal(done, parts[0], up);
      NormalizeResolves(base, Step(done, parts[0]), parts[1..], up');
      StepResolves(base, done, parts[0], up);
      ResolveConcat(base, Step(done, parts[0]), parts[1..]);
      ResolveConcat(base, done + [parts[0]], parts[1..]);
      assert done + [parts[0]] + parts[1..] == done + parts;
    }
  }

  lemma {:induction false} NormalizeNormal(done: Parts, parts: Parts, up: nat) returns (up': nat)
    requires Normal(done, up)
    ensures Normal(Normalize(done, parts), up')
    decreases |parts|
  {
    if parts == [] {
      up' := up;
    } else {
      var next := StepNormal(done, parts[0], up);
      up' := NormalizeNormal(Step(done, parts[0]), parts[1..], next);
    }
  }

  /** Plain names lead straight down. */
  lemma {:induction false} ResolvePlain(base: Path, p: Parts)
    requires Normal(p, 0)
    ensures Resolve(base, p) == Some(base + p)
    decreases |p|
  {
    if p == [] {
      assert base + p == base;
    } else {
      ResolvePlain(base + [p[0]], p[1..]);
      assert base + [p[0]] + p[1..] == base + p;
    }
  }

  lemma {:induction false} ProperNormal(p: Path)
    requires Proper(p)
    ensures Normal(p, 0) && SlashFree(p) && forall n :: 0 <= n <= |p| ==> Proper(p[..n])
  {
    forall i | 0 <= i < |p| ensures p[i] != "" && p[i] != "." && p[i] != ".." {
      assert p[i] in p;
    }
    forall k | k in p ensures Plain(k) {
    }
  }

  // ----- safe_name

  predicate Relative(value: string) {
    value != "" && value[0] != '/' && '\0' !in value
  }

  /** The normalised name, or nothing where the source raises. */
  function SafeName(value: string): Option<Path> {
    if !Relative(value) then None
    else
      var normalized := Normalize([], Split(value));
      if normalized == [] || normalized[0] == ".." then None else Some(normalized)
  }

  /** Accepted exactly when the walk from the root stays inside it and ends below it;
      the name is then where the walk ends. */
  lemma {:induction false} SafeNameResolves(value: string)
    ensures SafeName(value) ==
            if Relative(value) && Resolve([], Split(value)).Some? && Resolve([], Split(value)).value != []
            then Resolve([], Split(value)) else None
  {
    if Relative(value) {
      var parts := Split(value);
      var p := Normalize([], parts);
      NormalizeResolves([], [], parts, 0);
      assert [] + parts == parts;
      var up := NormalizeNormal([], parts, 0);
      if up == 0 {
        ResolvePlain([], p);
        assert [] + p == p;
      }
    }
  }

  lemma {:induction false} StepPlainParts(done: Parts, part: string)
    requires forall q :: q in done ==> '/' !in q && '\0' !in q
    requires '/' !in part && '\0' !in part
    ensures forall q :: q in Step(done, part) ==> '/' !in q && '\0' !in q
  {
  }

  lemma {:induction false} NormalizeParts(done: Parts, parts: Parts)
    requires forall q :: q in done ==> '/' !in q && '\0' !in q
    requires forall q :: q in parts ==> '/' !in q && '\0' !in q
    ensures forall q :: q in Normalize(done, parts) ==> '/' !in q && '\0' !in q
    decreases |parts|
  {
    if parts != [] {
      StepPlainParts(done, parts[0]);
      NormalizeParts(Step(done, parts[0]), parts[1..]);
    }
  }

  lemma {:induction false} SplitChars(s: string, c: char)
    requires c !in s
    ensures forall q :: q in Split(s) ==> c !in q
  {
    if s != "" {
      SplitChars(s[1..], c);
    }
  }

  /** An accepted name has no "..", no "." and no empty component. */
  lemma {:induction false} SafeNameProper(value: string)
    requires SafeName(value).Some?
    ensures SafeName(value).value != [] && Proper(SafeName(value).value)
  {
    var parts := Split(value);
    SplitChars(value, '\0');
    forall q | q in parts ensures '/' !in q {
    }
    NormalizeParts([], parts);
    var up := NormalizeNormal([], parts, 0);
  }

  /** A proper path survives being printed and read back. */
  lemma {:induction false} SafeNameInverse(p: Path)
    requires p != [] && Proper(p)
    ensures SafeName(Join(p)) == Some(p)
  {
    ProperNormal(p);
    SplitJoin(p);
    ResolvePlain([], p);
    assert [] + p == p;
    JoinRelative(p);
    SafeNameResolves(Join(p));
  }

  lemma {:induction false} JoinRelative(p: Path)
    requires p != [] && Proper(p)
    ensures Relative(Join(p))
  {
    assert p[0] in p;
    if |p| > 1 {
      assert p[1] in p && forall part :: part in p[1..] ==> part in p;
      JoinRelative(p[1..]);
    }
  }

  // ----- safe_link

  function Parent(p: Path): Path
    requires p != []
  {
    p[..|p| - 1]
  }

  /** `posixpath.join(dirname(member), value)`. */
  function Joined(member: Path, value: string): string
    requires member != []
  {
    if Parent(member) == [] then value else Join(Parent(member)) + "/" + value
  }

  predicate SafeLink(value: string, member: Path)
    requires member != []
  {
    && Relative(value)
    && var resolved := Normalize([], Split(Joined(member, value))); resolved == [] || resolved[0] != ".."
  }

  /** A link is accepted exactly when following it from its own directory stays
      inside the root. */
  lemma {:induction false} SafeLinkResolves(value: string, member: Path)
    requires member != [] && Proper(member)
    ensures SafeLink(value, member) <==> Relative(value) && Resolve(Parent(member), Split(value)).Some?
  {
    var dir := Parent(member);
    var parts := Split(Joined(member, value));
    if dir != [] {
      ProperNormal(member);
      ProperNormal(dir);
      SplitJoin(dir);
      SplitConcat(Join(dir), value);
      ResolvePlain([], dir);
      assert [] + dir == dir;
      ResolveConcat([], dir, Split(value));
    }
    assert Resolve([], parts) == Resolve(dir, Split(value));
    NormalizeResolves([], [], parts, 0);
    assert [] + parts == parts;
    var up := NormalizeNormal([], parts, 0);
    if up == 0 {
      ResolvePlain([], Normalize([], parts));
    }
  }
}
