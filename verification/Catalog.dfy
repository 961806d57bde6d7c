/** scripts/modules/catalog.py: the marketplace catalog, built release by release, each
    time from its predecessor. Packages are given in path order, as `read_package`
    returned them (none where it refused). */
module Catalog {
  import opened Options

  import StringOrder

  datatype Platform = Macos | Windows | Linux | Android | Other
  datatype Architecture = X86 | X86_64 | Arm | Aarch64
  datatype Target = Target(platform: Platform, architecture: Architecture)
  datatype Version = Version(major: nat, minor: nat, patch: nat)

  datatype Manifest = Manifest(schema: nat, id: string, title: string, description: string, version: Version,
                               appVersions: string, supported: Option<seq<Platform>>, target: Target)

  datatype Package = Package(name: string, manifest: Manifest, minimum: Option<string>, size: nat, digest: string)

  datatype Metadata = Metadata(id: string, title: string, description: string, version: Version, appVersions: string,
                               platforms: set<Platform>)

  datatype Artifact = Artifact(target: Target, tag: Tag, name: string, size: nat, digest: string, minimum: Option<string>)
  datatype Module = Module(metadata: Metadata, artifacts: seq<Artifact>)

  /** A release tag reads `module-<id>-v<version>`. */
  datatype Tag = Tag(id: string, version: Version) | Unrecognised(text: string)

  datatype Catalog = Catalog(schema: nat, modules: seq<Module>)

  const EMPTY := Catalog(1, [])

  const LEGACY_PLATFORMS := [Android, Macos, Windows]

  const SHIPPED_TARGETS := {Target(Macos, Aarch64), Target(Windows, X86_64), Target(Linux, X86_64),
                           Target(Android, Aarch64), Target(Android, Arm), Target(Android, X86_64)}

  predicate Older(a: Version, b: Version) {
    || a.major < b.major
    || (a.major == b.major && (a.minor < b.minor || (a.minor == b.minor && a.patch < b.patch)))
  }

  predicate Distinct(s: seq<Platform>) {
    forall i, j :: 0 <= i < j < |s| ==> s[i] != s[j]
  }

  function SupportedPlatforms(m: Manifest): Option<set<Platform>> {
    var platforms := if m.supported.Some? then m.supported.value else LEGACY_PLATFORMS;
    if platforms == [] || !Distinct(platforms) || Other in platforms || m.target.platform !in platforms
       || (m.schema == 1 && m.supported.Some?) || (Linux in platforms && m.schema < 5)
    then None else Some(set p | p in platforms)
  }

  function RequiredTargets(platforms: set<Platform>): set<Target> {
    set t | t in SHIPPED_TARGETS && t.platform in platforms
  }

  /** Characters that Python's `str.strip` removes. */
  predicate Space(c: char) {
    || '\t' <= c <= '\r' || '\U{1c}' <= c <= ' ' || c == '\U{85}' || c == '\U{a0}' || c == '\U{1680}'
    || '\U{2000}' <= c <= '\U{200a}' || c == '\U{2028}' || c == '\U{2029}' || c == '\U{202f}' || c == '\U{205f}' || c == '\U{3000}'
  }

  predicate Blank(s: string) {
    forall i :: 0 <= i < |s| ==> Space(s[i])
  }

  /** The manifest can be listed: its platforms are consistent and it is described. */
  predicate Listable(m: Manifest) {
    && SupportedPlatforms(m).Some?
    && !Blank(m.title) && |m.title| <= 200 && !Blank(m.description) && |m.description| <= 4000
  }

  /** What one package contributes to a release. */
  datatype Entry = Entry(schema: nat, metadata: Metadata, artifact: Artifact)

  function EntryOf(p: Option<Package>, tag: Tag): Option<Entry> {
    if p.None? || !Listable(p.value.manifest) then None
    else
      var m := p.value.manifest;
      Some(Entry(m.schema, Metadata(m.id, m.title, m.description, m.version, m.appVersions, SupportedPlatforms(m).value),
                 Artifact(m.target, tag, p.value.name, p.value.size, p.value.digest, p.value.minimum)))
  }

  function EntriesOf(packages: seq<Option<Package>>, tag: Tag): seq<Option<Entry>> {
    seq(|packages|, i requires 0 <= i < |packages| => EntryOf(packages[i], tag))
  }

  // ----- what a release has to be

  /** Every package can be listed and is of the same version of the module. */
  ghost predicate Uniform(entries: seq<Option<Entry>>, n: nat)
    requires n <= |entries|
  {
    forall i :: 0 <= i < n ==> Matches(entries[i], entries[0])
  }

  ghost predicate Matches(e: Option<Entry>, first: Option<Entry>) {
    e.Some? && first.Some? && e.value.schema == first.value.schema && e.value.metadata == first.value.metadata
  }

  ghost predicate TargetsDiffer(entries: seq<Option<Entry>>, n: nat)
    requires n <= |entries| && Uniform(entries, n)
  {
    forall i, j :: 0 <= i < j < n ==> entries[i].value.artifact.target != entries[j].value.artifact.target
  }

  ghost function TargetsOf(entries: seq<Option<Entry>>, n: nat): set<Target>
    requires n <= |entries| && Uniform(entries, n)
  {
    set i | 0 <= i < n :: entries[i].value.artifact.target
  }

  ghost predicate UniqueIds(modules: seq<Module>, n: nat)
    requires n <= |modules|
  {
    forall i, j :: 0 <= i < j < n ==> modules[i].metadata.id != modules[j].metadata.id
  }

  /** Every listed version of this module is older. */
  ghost predicate Advances(modules: seq<Module>, n: nat, m: Metadata)
    requires n <= |modules|
  {
    forall i :: 0 <= i < n && modules[i].metadata.id == m.id ==> Increases(modules[i].metadata.version, m.version)
  }

  /** The first component that changes goes up. */
  ghost predicate Increases(a: Version, b: Version) {
    && a.major <= b.major
    && (a.major == b.major ==> a.minor <= b.minor && (a.minor == b.minor ==> a.patch < b.patch))
  }

  /** The packages make up one version of one module, for every target it ships. */
  ghost predicate Whole(entries: seq<Option<Entry>>) {
    && |entries| > 0 && Uniform(entries, |entries|) && TargetsDiffer(entries, |entries|)
    && TargetsOf(entries, |entries|) == RequiredTargets(entries[0].value.metadata.platforms)
  }

  ghost predicate Releasable(packages: seq<Option<Package>>, tag: Tag, previous: Catalog) {
    var entries := EntriesOf(packages, tag);
    && previous.schema == 1 && Whole(entries)
    && var m := entries[0].value.metadata;
       && tag == Tag(m.id, m.version)
       && UniqueIds(previous.modules, |previous.modules|)
       && Advances(previous.modules, |previous.modules|, m)
  }

  /** One artifact for each target a module of these platforms ships, and no other. */
  ghost predicate OnePerTarget(m: Module) {
    && (forall i, j :: 0 <= i < j < |m.artifacts| ==> m.artifacts[i].target != m.artifacts[j].target)
    && (forall t :: Ships(m.metadata.platforms, t) <==> exists i :: 0 <= i < |m.artifacts| && m.artifacts[i].target == t)
  }

  /** Each supported desktop platform on its one architecture, Android on three. */
  ghost predicate Ships(platforms: set<Platform>, t: Target) {
    t.platform in platforms && match t.platform
      case Macos => t.architecture.Aarch64?
      case Windows => t.architecture.X86_64?
      case Linux => t.architecture.X86_64?
      case Android => t.architecture.Aarch64? || t.architecture.Arm? || t.architecture.X86_64?
      case Other => false
  }

  lemma {:induction false} RequiredShips(platforms: set<Platform>, t: Target)
    ensures t in RequiredTargets(platforms) <==> Ships(platforms, t)
  {
  }

  ghost predicate AscendingIds(modules: seq<Module>) {
    forall i, j :: 0 <= i < j < |modules| ==> StringOrder.Precedes(modules[i].metadata.id, modules[j].metadata.id)
  }

  /** One release: `m` takes its place, everything else is carried over. */
  ghost predicate Released(previous: Catalog, m: Module, next: Catalog) {
    && next.schema == 1 && AscendingIds(next.modules)
    && (forall e :: e in next.modules <==> e == m || (e in previous.modules && e.metadata.id != m.metadata.id))
    && Advances(previous.modules, |previous.modules|, m.metadata)
    && OnePerTarget(m)
  }

  // ----- building

  /** The first `n` packages make up a release so far. */
  ghost predicate Gathers(entries: seq<Option<Entry>>, n: nat)
    requires n <= |entries|
  {
    Uniform(entries, n) && TargetsDiffer(entries, n)
  }

  lemma {:induction false} GathersStep(entries: seq<Option<Entry>>, k: nat)
    requires k < |entries| && Gathers(entries, k)
    ensures Gathers(entries, k + 1) <==>
            Matches(entries[k], entries[0]) && entries[k].value.artifact.target !in TargetsOf(entries, k)
    ensures Gathers(entries, k + 1) ==> TargetsOf(entries, k + 1) == TargetsOf(entries, k) + {entries[k].value.artifact.target}
    ensures Gathers(entries, |entries|) ==> Gathers(entries, k + 1)
  {
  }

  ghost predicate Carries(artifacts: seq<Artifact>, entries: seq<Option<Entry>>, n: nat)
    requires n <= |entries|
  {
    |artifacts| == n && forall i :: 0 <= i < n ==> entries[i].Some? && artifacts[i] == entries[i].value.artifact
  }

  /** The packages as one module, with their artifacts in order. */
  method Collect(entries: seq<Option<Entry>>) returns (r: Option<Module>)
    ensures r.Some? <==> Whole(entries)
    ensures r.Some? ==> r.value.metadata == entries[0].value.metadata && Carries(r.value.artifacts, entries, |entries|)
  {
    var targets: set<Target> := {};
    var found: Option<Module> := None;
    var schema: nat := 0;
    for k := 0 to |entries|
      invariant Gathers(entries, k) && targets == TargetsOf(entries, k)
      invariant found.Some? <==> k > 0
      invariant k > 0 ==> schema == entries[0].value.schema && found.value.metadata == entries[0].value.metadata
      invariant k > 0 ==> Carries(found.value.artifacts, entries, k)
    {
      GathersStep(entries, k);
      if entries[k].None? {
        return None;
      }
      var entry := entries[k].value;
      if found.Some? && entry.schema != schema {
        return None;
      }
      schema := entry.schema;
      if found.None? {
        found := Some(Module(entry.metadata, []));
      } else if entry.metadata != found.value.metadata {
        return None;
      }
      if entry.artifact.target in targets {
        return None;
      }
      targets := targets + {entry.artifact.target};
      found := Some(found.value.(artifacts := found.value.artifacts + [entry.artifact]));
    }
    if found.None? || targets != RequiredTargets(found.value.metadata.platforms) {
      return None;
    }
    return found;
  }

  lemma {:induction false} WholeIsOnePerTarget(entries: seq<Option<Entry>>, m: Module)
    requires Whole(entries) && m.metadata == entries[0].value.metadata && Carries(m.artifacts, entries, |entries|)
    ensures OnePerTarget(m)
  {
    forall t ensures Ships(m.metadata.platforms, t) <==> exists i :: 0 <= i < |m.artifacts| && m.artifacts[i].target == t {
      RequiredShips(m.metadata.platforms, t);
      if t in TargetsOf(entries, |entries|) {
        var i :| 0 <= i < |entries| && entries[i].value.artifact.target == t;
        assert m.artifacts[i].target == t;
      }
    }
  }

  /** The previous records by id, unless an id is repeated or the version at hand does
      not advance. */
  method CarryOver(modules: seq<Module>, m: Metadata) returns (ok: bool, records: map<string, Module>)
    ensures ok <==> UniqueIds(modules, |modules|) && Advances(modules, |modules|, m)
    ensures ok ==> Indexes(records, modules, |modules|)
  {
    records := map[];
    for k := 0 to |modules|
      invariant UniqueIds(modules, k) && Advances(modules, k, m) && Indexes(records, modules, k)
    {
      var existing := modules[k];
      if existing.metadata.id in records {
        return false, records;
      }
      if existing.metadata.id == m.id && !Older(existing.metadata.version, m.version) {
        return false, records;
      }
      StaysIndexed(records, modules, k);
      records := records[existing.metadata.id := existing];
    }
    return true, records;
  }

  ghost predicate Indexes(records: map<string, Module>, modules: seq<Module>, n: nat)
    requires n <= |modules|
  {
    && (forall i :: 0 <= i < n ==> modules[i].metadata.id in records && records[modules[i].metadata.id] == modules[i])
    && (forall id :: id in records ==> exists i :: 0 <= i < n && modules[i].metadata.id == id)
  }

  lemma {:induction false} StaysIndexed(records: map<string, Module>, modules: seq<Module>, k: nat)
    requires k < |modules| && UniqueIds(modules, k) && Indexes(records, modules, k) && modules[k].metadata.id !in records
    ensures UniqueIds(modules, k + 1) && Indexes(records[modules[k].metadata.id := modules[k]], modules, k + 1)
  {
  }

  /** The records in the order of their ids. */
  method InOrder(records: map<string, Module>) returns (s: seq<Module>)
    requires forall id :: id in records ==> records[id].metadata.id == id
    ensures AscendingIds(s) && forall e :: e in s <==> e.metadata.id in records && records[e.metadata.id] == e
  {
    var order := StringOrder.Sorted(set id | id in records :: [id]);
    assert forall i :: 0 <= i < |order| ==> order[i] in order;
    s := seq(|order|, i requires 0 <= i < |order| => records[order[i][0]]);
    forall i, j | 0 <= i < j < |s| ensures StringOrder.Precedes(s[i].metadata.id, s[j].metadata.id) {
      SingletonBefore(order[i], order[j]);
    }
    forall e: Module | e.metadata.id in records && records[e.metadata.id] == e ensures e in s {
      assert [e.metadata.id] in order;
      var i :| 0 <= i < |order| && order[i] == [e.metadata.id];
      assert s[i] == e;
    }
  }

  lemma {:induction false} SingletonBefore(a: seq<string>, b: seq<string>)
    requires |a| == |b| == 1 && StringOrder.PathBefore(a, b)
    ensures StringOrder.Precedes(a[0], b[0])
  {
    assert !StringOrder.PathBefore(a[1..], b[1..]);
  }

  // ----- what is listed of the packages

  /** A text that says something, within its limit. */
  ghost predicate Worded(s: string, limit: nat) {
    |s| <= limit && exists i :: 0 <= i < |s| && !Space(s[i])
  }

  /** The platforms a manifest lists, or those of the first schema; without repetition,
      known, its own among them, Linux only since the fifth schema. */
  ghost predicate Supports(m: Manifest, platforms: set<Platform>) {
    && (m.schema == 1 ==> m.supported.None?)
    && (forall p :: p in platforms <==> if m.supported.None? then p == Macos || p == Windows || p == Android else p in m.supported.value)
    && (m.supported.Some? ==> forall i, j :: 0 <= i < j < |m.supported.value| ==> m.supported.value[i] != m.supported.value[j])
    && m.target.platform in platforms && Other !in platforms && (Linux in platforms ==> m.schema >= 5)
  }

  /** What is listed for a package: everything of its manifest and its file. */
  ghost predicate Describes(p: Package, tag: Tag, d: Metadata, a: Artifact) {
    var m := p.manifest;
    && Worded(m.title, 200) && Worded(m.description, 4000) && Supports(m, d.platforms)
    && d.id == m.id && d.title == m.title && d.description == m.description && d.version == m.version && d.appVersions == m.appVersions
    && a.target == m.target && a.tag == tag && a.name == p.name && a.size == p.size && a.digest == p.digest && a.minimum == p.minimum
  }

  lemma {:induction false} SupportedIff(m: Manifest, platforms: set<Platform>)
    ensures SupportedPlatforms(m) == Some(platforms) <==> Supports(m, platforms)
  {
    var listed := if m.supported.Some? then m.supported.value else LEGACY_PLATFORMS;
    assert m.supported.None? ==> LEGACY_PLATFORMS == [Android, Macos, Windows] && Distinct(LEGACY_PLATFORMS);
    if Supports(m, platforms) {
      assert platforms == set p | p in listed;
    }
  }

  lemma {:induction false} EntryDescribes(p: Package, tag: Tag, schema: nat, d: Metadata, a: Artifact)
    ensures EntryOf(Some(p), tag) == Some(Entry(schema, d, a)) <==> p.manifest.schema == schema && Describes(p, tag, d, a)
  {
    SupportedIff(p.manifest, d.platforms);
    assert !Blank(p.manifest.title) <==> exists i :: 0 <= i < |p.manifest.title| && !Space(p.manifest.title[i]);
    assert !Blank(p.manifest.description) <==> exists i :: 0 <= i < |p.manifest.description| && !Space(p.manifest.description[i]);
  }

  /** The packages are those of this module, of one schema. */
  ghost predicate PackagesOf(packages: seq<Option<Package>>, tag: Tag, schema: nat, m: Module) {
    && 0 < |packages| == |m.artifacts|
    && forall i :: 0 <= i < |packages| ==>
         && packages[i].Some? && packages[i].value.manifest.schema == schema
         && Describes(packages[i].value, tag, m.metadata, m.artifacts[i])
  }

  lemma {:induction false} WholeIff(packages: seq<Option<Package>>, tag: Tag)
    ensures Whole(EntriesOf(packages, tag)) <==> exists schema, m :: PackagesOf(packages, tag, schema, m) && OnePerTarget(m)
  {
    var entries := EntriesOf(packages, tag);
    if Whole(entries) {
      var schema, m := WholeModule(packages, tag);
    }
    if schema, m :| PackagesOf(packages, tag, schema, m) && OnePerTarget(m) {
      ModuleWhole(packages, tag, schema, m);
    }
  }

  lemma {:induction false} WholeModule(packages: seq<Option<Package>>, tag: Tag) returns (schema: nat, m: Module)
    requires Whole(EntriesOf(packages, tag))
    ensures PackagesOf(packages, tag, schema, m) && OnePerTarget(m)
    ensures schema == EntriesOf(packages, tag)[0].value.schema && m.metadata == EntriesOf(packages, tag)[0].value.metadata
    ensures Carries(m.artifacts, EntriesOf(packages, tag), |packages|)
  {
    var entries := EntriesOf(packages, tag);
    schema := entries[0].value.schema;
    forall i | 0 <= i < |packages| ensures entries[i].Some? {
      assert Matches(entries[i], entries[0]);
    }
    m := Module(entries[0].value.metadata, seq(|packages|, i requires 0 <= i < |packages| => entries[i].value.artifact));
    WholeIsOnePerTarget(entries, m);
    CarriedDescribed(packages, tag, m);
  }

  lemma {:induction false} CarriedDescribed(packages: seq<Option<Package>>, tag: Tag, m: Module)
    requires Whole(EntriesOf(packages, tag)) && m.metadata == EntriesOf(packages, tag)[0].value.metadata
    requires Carries(m.artifacts, EntriesOf(packages, tag), |packages|)
    ensures PackagesOf(packages, tag, EntriesOf(packages, tag)[0].value.schema, m)
  {
    var entries := EntriesOf(packages, tag);
    var schema := entries[0].value.schema;
    forall i | 0 <= i < |packages|
      ensures packages[i].Some? && packages[i].value.manifest.schema == schema && Describes(packages[i].value, tag, m.metadata, m.artifacts[i])
    {
      assert Matches(entries[i], entries[0]) && entries[i] == EntryOf(packages[i], tag);
      assert entries[i] == Some(Entry(schema, m.metadata, m.artifacts[i]));
      EntryDescribes(packages[i].value, tag, schema, m.metadata, m.artifacts[i]);
    }
  }

  lemma {:induction false} ModuleWhole(packages: seq<Option<Package>>, tag: Tag, schema: nat, m: Module)
    requires PackagesOf(packages, tag, schema, m) && OnePerTarget(m)
    ensures Whole(EntriesOf(packages, tag)) && EntriesOf(packages, tag)[0].value.metadata == m.metadata
  {
    var entries := EntriesOf(packages, tag);
    forall i | 0 <= i < |packages| ensures entries[i] == Some(Entry(schema, m.metadata, m.artifacts[i])) {
      EntryDescribes(packages[i].value, tag, schema, m.metadata, m.artifacts[i]);
    }
    forall t ensures t in TargetsOf(entries, |entries|) <==> t in RequiredTargets(m.metadata.platforms) {
      RequiredShips(m.metadata.platforms, t);
      if t in TargetsOf(entries, |entries|) {
        var i :| 0 <= i < |entries| && entries[i].value.artifact.target == t;
        assert m.artifacts[i].target == t;
      }
      if Ships(m.metadata.platforms, t) {
        var i :| 0 <= i < |m.artifacts| && m.artifacts[i].target == t;
        assert entries[i].value.artifact.target == t;
      }
    }
  }

  /** Exactly these packages can be released after a catalog. */
  lemma {:induction false} ReleasableIff(packages: seq<Option<Package>>, tag: Tag, previous: Catalog)
    ensures Releasable(packages, tag, previous) <==>
            && previous.schema == 1 && UniqueIds(previous.modules, |previous.modules|)
            && exists schema, m :: PackagesOf(packages, tag, schema, m) && OnePerTarget(m)
                                   && tag == Tag(m.metadata.id, m.metadata.version) && Advances(previous.modules, |previous.modules|, m.metadata)
  {
    if Releasable(packages, tag, previous) {
      var schema, m := WholeModule(packages, tag);
    }
    if schema, m :| PackagesOf(packages, tag, schema, m) && OnePerTarget(m)
                    && tag == Tag(m.metadata.id, m.metadata.version) && Advances(previous.modules, |previous.modules|, m.metadata) {
      ModuleWhole(packages, tag, schema, m);
    }
  }

  /** A catalog is built exactly when the packages are releasable, and it is the
      previous one with the released module in its place. */
  method BuildCatalog(packages: seq<Option<Package>>, tag: Tag, previous: Option<Catalog>) returns (r: Option<Catalog>, released: Option<Module>)
    ensures r.Some? <==> Releasable(packages, tag, if previous.Some? then previous.value else EMPTY)
    ensures r.Some? ==> released.Some? && Released(if previous.Some? then previous.value else EMPTY, released.value, r.value)
    ensures r.Some? ==> tag == Tag(released.value.metadata.id, released.value.metadata.version)
    ensures r.Some? ==> exists schema :: PackagesOf(packages, tag, schema, released.value)
  {
    var base := if previous.Some? then previous.value else EMPTY;
    released := None;
    if base.schema != 1 {
      return None, None;
    }
    var entries := EntriesOf(packages, tag);
    released := Collect(entries);
    if released.None? {
      return None, None;
    }
    var m := released.value.metadata;
    if tag != Tag(m.id, m.version) {
      return None, None;
    }
    var ok, records := CarryOver(base.modules, m);
    if !ok {
      return None, None;
    }
    WholeIsOnePerTarget(entries, released.value);
    CarriedDescribed(packages, tag, released.value);
    var modules := InOrder(records[m.id := released.value]);
    r := Some(Catalog(1, modules));
    Substituted(base.modules, records, released.value, modules);
  }

  lemma {:induction false} Substituted(before: seq<Module>, records: map<string, Module>, m: Module, after: seq<Module>)
    requires Indexes(records, before, |before|)
    requires var now := records[m.metadata.id := m]; forall e :: e in after <==> e.metadata.id in now && now[e.metadata.id] == e
    ensures forall e :: e in after <==> e == m || (e in before && e.metadata.id != m.metadata.id)
  {
  }

  // ----- whole histories

  /** A chain of catalogs from any first one: releasing `modules[i]` leads from one
      catalog to the next. */
  ghost predicate History(chain: seq<Catalog>, modules: seq<Module>) {
    && |chain| == |modules| + 1
    && forall i {:trigger Follows(chain, modules, i)} :: 0 <= i < |modules| ==> Follows(chain, modules, i)
  }

  ghost predicate Follows(chain: seq<Catalog>, modules: seq<Module>, i: nat)
    requires i < |modules| && |chain| == |modules| + 1
  {
    Released(chain[i], modules[i], chain[i + 1])
  }

  lemma {:induction false} AscendingIsUnique(modules: seq<Module>)
    requires AscendingIds(modules)
    ensures UniqueIds(modules, |modules|)
  {
    forall i, j | 0 <= i < j < |modules| ensures modules[i].metadata.id != modules[j].metadata.id {
      StringOrder.PrecedesTotal(modules[i].metadata.id, modules[j].metadata.id);
    }
  }

  ghost predicate NotReleased(modules: seq<Module>, id: string, i: nat, j: nat) {
    forall k :: i <= k < j && k < |modules| ==> modules[k].metadata.id != id
  }

  /** Every catalog that was built is sorted, without an id listed twice. Between two
      catalogs of a chain a listed module stays listed: unchanged when it had no release
      in between, and at a strictly later version when it had. */
  lemma {:induction false} ModulesEvolve(chain: seq<Catalog>, modules: seq<Module>, i: nat, j: nat, e: Module)
    requires History(chain, modules) && i <= j < |chain| && e in chain[i].modules
    ensures j > 0 ==> UniqueIds(chain[j].modules, |chain[j].modules|) && AscendingIds(chain[j].modules)
    ensures exists x :: x in chain[j].modules && Succeeds(e, x, NotReleased(modules, e.metadata.id, i, j))
    decreases j
  {
    if j > 0 {
      assert Follows(chain, modules, j - 1);
      AscendingIsUnique(chain[j].modules);
    }
    if i == j {
      assert Succeeds(e, e, true);
    } else {
      ModulesEvolve(chain, modules, i, j - 1, e);
      var quiet := NotReleased(modules, e.metadata.id, i, j - 1);
      var x :| x in chain[j - 1].modules && Succeeds(e, x, quiet);
      OneRelease(chain[j - 1], modules[j - 1], chain[j], e, x, quiet);
      assert NotReleased(modules, e.metadata.id, i, j) == (quiet && modules[j - 1].metadata.id != e.metadata.id);
    }
  }

  ghost predicate Succeeds(e: Module, x: Module, quiet: bool) {
    x.metadata.id == e.metadata.id && (if quiet then x == e else Increases(e.metadata.version, x.metadata.version))
  }

  lemma {:induction false} OneRelease(previous: Catalog, m: Module, next: Catalog, e: Module, x: Module, quiet: bool)
    requires Released(previous, m, next) && x in previous.modules && Succeeds(e, x, quiet)
    ensures exists y :: y in next.modules && Succeeds(e, y, quiet && m.metadata.id != e.metadata.id)
  {
    if m.metadata.id == e.metadata.id {
      assert m in next.modules && Succeeds(e, m, false);
    } else {
      assert x in next.modules;
    }
  }

  /** Whatever is listed comes unchanged from the first catalog, or is the latest release
      of its module, with exactly one artifact for each required target. */
  lemma {:induction false} ListedWasReleased(chain: seq<Catalog>, modules: seq<Module>, j: nat, e: Module)
    requires History(chain, modules) && j < |chain| && e in chain[j].modules
    ensures || (e in chain[0].modules && NotReleased(modules, e.metadata.id, 0, j))
            || (OnePerTarget(e) && exists k :: 0 <= k < j && modules[k] == e && NotReleased(modules, e.metadata.id, k + 1, j))
    decreases j
  {
    if j > 0 {
      assert Follows(chain, modules, j - 1);
      if e != modules[j - 1] {
        assert e.metadata.id != modules[j - 1].metadata.id && e in chain[j - 1].modules;
        ListedWasReleased(chain, modules, j - 1, e);
        if !(e in chain[0].modules && NotReleased(modules, e.metadata.id, 0, j - 1)) {
          var k :| 0 <= k < j - 1 && modules[k] == e && NotReleased(modules, e.metadata.id, k + 1, j - 1);
          assert NotReleased(modules, e.metadata.id, k + 1, j);
        }
      }
    }
  }
}
