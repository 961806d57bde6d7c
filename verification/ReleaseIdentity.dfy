/** scripts/release/version.py: the release identity, its projections into manifests,
    `sync` with rollback, and `bump`. */
module ReleaseIdentity {
  import opened DecimalText
  import opened Options
  import opened ManifestText
  import opened ManifestLines
  import CacheKey

  /** The files of the checkout that carry or follow the release identity. */
  datatype Path = Source | Cargo | Pubspec | Manifest(id: string) | Lock(name: string)

  datatype Version = Version(major: nat, minor: nat, patch: nat)

  datatype Release = Release(version: Version, build: int, code: int)

  predicate Below(a: Version, b: Version) {
    || a.major < b.major
    || (a.major == b.major && (a.minor < b.minor || (a.minor == b.minor && a.patch < b.patch)))
  }

  /** Version tuples compare by their first component that differs. */
  ghost predicate Raises(a: Version, b: Version) {
    && a.major <= b.major
    && (a.major == b.major ==> a.minor <= b.minor && (a.minor == b.minor ==> a.patch < b.patch))
  }

  lemma {:induction false} BelowIff(a: Version, b: Version)
    ensures Below(a, b) <==> Raises(a, b)
  {
  }

  /** The bounds `validate` enforces. */
  predicate ValidRelease(r: Release) {
    1 <= r.build <= 65535 && 200000038 < r.code <= 2100000000
  }

  // ----- printed values

  function Dotted(v: Version): (s: string)
    ensures |s| > 0 && forall i :: 0 <= i < |s| ==> s[i] != '"'
  {
    Decimal(v.major) + "." + Decimal(v.minor) + "." + Decimal(v.patch)
  }

  function Quoted(v: Version): (s: string)
    ensures Literal(s)
  {
    "\"" + Dotted(v) + "\""
  }

  function Code(r: Release): (s: string)
    ensures Literal(s)
  {
    if r.code >= 0 then Decimal(r.code) else "0"
  }

  // ----- files

  /** `app_versions` of a module manifest, if it is a stable range. */
  datatype Range = Range(lower: Version, upper: Version)

  datatype Content = Identity(release: Release) | Lines(text: Text) | Module(range: Option<Range>)

  type Files = map<Path, Content>

  /** The module manifests and lockfiles found in the checkout. */
  datatype Layout = Layout(modules: set<string>, locks: set<string>) {
    ghost predicate Fits(files: Files) {
      && Source in files && files[Source].Identity?
      && Cargo in files && files[Cargo].Lines? && Pubspec in files && files[Pubspec].Lines?
      && (forall m :: m in modules ==> Manifest(m) in files && files[Manifest(m)].Module?)
      && (forall l :: l in locks ==> Lock(l) in files)
    }
  }

  // ----- projections

  predicate IsVersionEntry(line: string) {
    "version:" <= line
  }

  function Entries(text: Text, n: nat): (s: seq<nat>)
    requires n <= |text|
    ensures forall i :: i in s <==> 0 <= i < n && IsVersionEntry(text[i])
  {
    if n == 0 then [] else Entries(text, n - 1) + if IsVersionEntry(text[n - 1]) then [n - 1] else []
  }

  function PubspecLine(r: Release): string {
    "version: " + Dotted(r.version) + "+" + if r.build >= 0 then Decimal(r.build) else ""
  }

  function ProjectPubspec(text: Text, r: Release): Option<Text> {
    var entries := Entries(text, |text|);
    if |entries| != 1 then None else (assert entries[0] in entries; Some(text[entries[0] := PubspecLine(r)]))
  }

  function ProjectRange(range: Option<Range>, r: Release): Option<Range> {
    if range.None? || !Below(r.version, range.value.upper) then None else Some(Range(r.version, range.value.upper))
  }

  datatype Projected = Projected(cargo: Text, pubspec: Text, modules: map<string, Option<Range>>)

  function ProjectModules(modules: set<string>, files: Files, r: Release): (p: map<string, Option<Range>>)
    requires forall m :: m in modules ==> Manifest(m) in files && files[Manifest(m)].Module?
  {
    map m | m in modules :: ProjectRange(files[Manifest(m)].range, r)
  }

  /** What each projected file must contain; nothing where the source raises. */
  function Projections(layout: Layout, files: Files, r: Release): Option<Projected>
    requires layout.Fits(files)
  {
    Combine(ProjectCargo(files[Cargo].text, r), ProjectPubspec(files[Pubspec].text, r),
            ProjectModules(layout.modules, files, r))
  }

  function ProjectCargo(text: Text, r: Release): Option<Text> {
    CacheKey.ProjectManifest(text, Quoted(r.version), Code(r))
  }

  function Combine(cargo: Option<Text>, pubspec: Option<Text>, modules: map<string, Option<Range>>): Option<Projected> {
    if cargo.None? || pubspec.None? || (exists m :: m in modules && modules[m].None?) then None
    else Some(Projected(cargo.value, pubspec.value, modules))
  }

  /** The files say exactly what the projections say. */
  ghost predicate Holds(layout: Layout, files: Files, p: Projected)
    requires layout.Fits(files)
  {
    && files[Cargo].text == p.cargo && files[Pubspec].text == p.pubspec
    && p.modules.Keys == layout.modules && forall m :: m in layout.modules ==> files[Manifest(m)].range == p.modules[m]
  }

  lemma {:induction false} EntriesAlike(a: Text, b: Text, n: nat)
    requires |a| == |b| && n <= |a| && forall i :: 0 <= i < |a| ==> (IsVersionEntry(a[i]) <==> IsVersionEntry(b[i]))
    ensures Entries(a, n) == Entries(b, n)
  {
    if n > 0 {
      EntriesAlike(a, b, n - 1);
    }
  }

  lemma {:induction false} PubspecFixed(text: Text, r: Release)
    requires ProjectPubspec(text, r).Some?
    ensures ProjectPubspec(ProjectPubspec(text, r).value, r) == ProjectPubspec(text, r)
  {
    var other := ProjectPubspec(text, r).value;
    var i := Entries(text, |text|)[0];
    assert i in Entries(text, |text|);
    assert "version: " == "version:" + " ";
    assert IsVersionEntry(PubspecLine(r));
    EntriesAlike(text, other, |text|);
    assert other[i := other[i]] == other;
  }

  lemma {:induction false} CargoFixed(text: Text, r: Release)
    requires ProjectCargo(text, r).Some?
    ensures ProjectCargo(ProjectCargo(text, r).value, r) == ProjectCargo(text, r)
  {
    CacheKey.ProjectionIdempotent(text, Quoted(r.version), Code(r));
  }

  lemma {:induction false} ModulesFixed(modules: set<string>, files: Files, after: Files, r: Release)
    requires forall m :: m in modules ==> Manifest(m) in files && files[Manifest(m)].Module?
    requires forall m :: m in modules ==> Manifest(m) in after && after[Manifest(m)].Module?
    requires forall m :: m in modules ==> ProjectModules(modules, files, r)[m].Some?
    requires forall m :: m in modules ==> after[Manifest(m)].range == ProjectModules(modules, files, r)[m]
    ensures ProjectModules(modules, after, r) == ProjectModules(modules, files, r)
  {
    forall m | m in modules ensures ProjectModules(modules, after, r)[m] == ProjectModules(modules, files, r)[m] {
      assert ProjectModules(modules, files, r)[m].Some?;
    }
  }

  /** Projections reproduce their own output, whatever else changed meanwhile. */
  lemma {:induction false} ProjectionsFixed(layout: Layout, files: Files, after: Files, r: Release)
    requires layout.Fits(files) && layout.Fits(after) && Projections(layout, files, r).Some?
    requires Holds(layout, after, Projections(layout, files, r).value)
    ensures Projections(layout, after, r) == Projections(layout, files, r)
  {
    CargoFixed(files[Cargo].text, r);
    PubspecFixed(files[Pubspec].text, r);
    ModulesFixed(layout.modules, files, after, r);
  }

  // ----- what the projected files say

  ghost predicate OneField(text: Text, name: string, key: string) {
    exists h: nat, i: nat :: OnlyTable(text, name, h) && OnlyField(text, key, h, i)
  }

  /** The only line that begins with `version:`. */
  ghost predicate OnlyVersion(text: Text, i: nat) {
    i < |text| && forall k :: 0 <= k < |text| ==> ("version:" <= text[k] <==> k == i)
  }

  /** A line of the pubspec that names the version and the build number. */
  ghost predicate NamesRelease(line: string, r: Release) {
    r.build >= 0 && line == "version: " + Decimal(r.version.major) + "." + Decimal(r.version.minor) + "." + Decimal(r.version.patch)
                            + "+" + Decimal(r.build)
  }

  ghost predicate CargoSays(text: Text, r: Release) {
    && Says(text, "workspace.package", "version",
            "\"" + Decimal(r.version.major) + "." + Decimal(r.version.minor) + "." + Decimal(r.version.patch) + "\"")
    && r.code >= 0 && Says(text, "workspace.metadata.copypaste", "android-release-version-code", Decimal(r.code))
  }

  ghost predicate PubspecSays(before: Text, after: Text, r: Release) {
    exists i: nat :: OnlyVersion(before, i) && OnlyVersion(after, i) && NamesRelease(after[i], r) && after == before[i := after[i]]
  }

  /** The module runs from this release on, up to the bound it had. */
  ghost predicate Compatible(before: Option<Range>, after: Option<Range>, r: Release) {
    && before.Some? && after.Some? && after.value.lower == r.version && after.value.upper == before.value.upper
    && Raises(r.version, after.value.upper)
  }

  ghost predicate AllCompatible(layout: Layout, files: Files, p: Projected, r: Release)
    requires layout.Fits(files)
  {
    p.modules.Keys == layout.modules && forall m :: m in layout.modules ==> Compatible(files[Manifest(m)].range, p.modules[m], r)
  }

  lemma {:induction false} LocatedIff(text: Text, name: string, key: string)
    ensures Locate(text, name, key).Some? <==> OneField(text, name, key)
  {
    if Locate(text, name, key).Some? {
      var place := Locate(text, name, key).value;
      LocateIff(text, name, key, place.header, place.line);
    }
    if h: nat, i: nat :| OnlyTable(text, name, h) && OnlyField(text, key, h, i) {
      LocateIff(text, name, key, h, i);
    }
  }

  lemma {:induction false} CargoProjectedIff(text: Text, r: Release)
    ensures ProjectCargo(text, r).Some? <==>
              OneField(text, "workspace.package", "version") && OneField(text, "workspace.metadata.copypaste", "android-release-version-code")
  {
    CacheKey.KeyNames();
    LocatedIff(text, CacheKey.PACKAGE_TABLE, CacheKey.VERSION_KEY);
    LocatedIff(text, CacheKey.METADATA_TABLE, CacheKey.CODE_KEY);
    if Field(text, CacheKey.PACKAGE_TABLE, CacheKey.VERSION_KEY, Quoted(r.version)).Some? {
      FieldKeepsOthers(text, CacheKey.PACKAGE_TABLE, CacheKey.VERSION_KEY, Quoted(r.version), CacheKey.METADATA_TABLE, CacheKey.CODE_KEY);
    }
  }

  lemma {:induction false} CargoProjectedSays(text: Text, r: Release)
    requires ProjectCargo(text, r).Some? && r.code >= 0
    ensures CargoSays(ProjectCargo(text, r).value, r)
  {
    var first := Field(text, CacheKey.PACKAGE_TABLE, CacheKey.VERSION_KEY, Quoted(r.version)).value;
    CacheKey.KeyNames();
    FieldSays(text, CacheKey.PACKAGE_TABLE, CacheKey.VERSION_KEY, Quoted(r.version));
    SaysStill(first, CacheKey.PACKAGE_TABLE, CacheKey.VERSION_KEY, Quoted(r.version), CacheKey.METADATA_TABLE, CacheKey.CODE_KEY, Code(r));
    FieldSays(first, CacheKey.METADATA_TABLE, CacheKey.CODE_KEY, Code(r));
    QuotedText(r.version);
  }

  lemma {:induction false} QuotedText(v: Version)
    ensures Quoted(v) == "\"" + Decimal(v.major) + "." + Decimal(v.minor) + "." + Decimal(v.patch) + "\""
  {
  }

  lemma {:induction false} SingleSnoc(s: seq<nat>, x: nat, i: nat)
    ensures s + [x] == [i] <==> s == [] && x == i
  {
    assert (s + [x])[|s|] == x;
  }

  lemma {:induction false} OneEntryIff(text: Text, n: nat, i: nat)
    requires n <= |text|
    ensures Entries(text, n) == [i] <==> i < n && forall k :: 0 <= k < n ==> ("version:" <= text[k] <==> k == i)
  {
    if n > 0 && "version:" <= text[n - 1] {
      NoEntryIff(text, n - 1);
      SingleSnoc(Entries(text, n - 1), n - 1, i);
    } else if n > 0 {
      OneEntryIff(text, n - 1, i);
      assert Entries(text, n) == Entries(text, n - 1);
    }
  }

  lemma {:induction false} NoEntryIff(text: Text, n: nat)
    requires n <= |text|
    ensures Entries(text, n) == [] <==> forall k :: 0 <= k < n ==> !("version:" <= text[k])
  {
    if n > 0 {
      NoEntryIff(text, n - 1);
    }
  }

  lemma {:induction false} PubspecProjectedIff(text: Text, r: Release)
    ensures ProjectPubspec(text, r).Some? <==> exists i :: OnlyVersion(text, i)
  {
    if i :| OnlyVersion(text, i) {
      OneEntryIff(text, |text|, i);
    }
    var entries := Entries(text, |text|);
    if |entries| == 1 {
      OneEntryIff(text, |text|, entries[0]);
      assert OnlyVersion(text, entries[0]);
    }
  }

  lemma {:induction false} PubspecProjectedSays(text: Text, r: Release)
    requires ProjectPubspec(text, r).Some? && r.build >= 0
    ensures PubspecSays(text, ProjectPubspec(text, r).value, r)
  {
    var i := Entries(text, |text|)[0];
    var other := ProjectPubspec(text, r).value;
    OneEntryIff(text, |text|, i);
    assert NamesRelease(PubspecLine(r), r) && "version: " == "version:" + " ";
    assert OnlyVersion(text, i) && OnlyVersion(other, i) && other == text[i := other[i]];
  }

  /** A release can be projected exactly when the manifest has one field for each of its
      numbers, the pubspec one version line, and every module a range that ends after it. */
  lemma {:induction false} ProjectionsIff(layout: Layout, files: Files, r: Release)
    requires layout.Fits(files)
    ensures Projections(layout, files, r).Some? <==>
              && OneField(files[Cargo].text, "workspace.package", "version")
              && OneField(files[Cargo].text, "workspace.metadata.copypaste", "android-release-version-code")
              && (exists i :: OnlyVersion(files[Pubspec].text, i))
              && forall m :: m in layout.modules ==> files[Manifest(m)].range.Some? && Raises(r.version, files[Manifest(m)].range.value.upper)
  {
    CargoProjectedIff(files[Cargo].text, r);
    PubspecProjectedIff(files[Pubspec].text, r);
    var modules := ProjectModules(layout.modules, files, r);
    forall m | m in layout.modules
      ensures modules[m].Some? <==> files[Manifest(m)].range.Some? && Raises(r.version, files[Manifest(m)].range.value.upper)
    {
      if files[Manifest(m)].range.Some? {
        BelowIff(r.version, files[Manifest(m)].range.value.upper);
      }
    }
  }

  /** The projected files name the release: its version and code in the manifest, its
      version and build number in the pubspec, its version as the lower bound of every
      module. */
  lemma {:induction false} ProjectionsSay(layout: Layout, files: Files, r: Release)
    requires layout.Fits(files) && Projections(layout, files, r).Some? && r.build >= 0 && r.code >= 0
    ensures var p := Projections(layout, files, r).value;
            CargoSays(p.cargo, r) && PubspecSays(files[Pubspec].text, p.pubspec, r) && AllCompatible(layout, files, p, r)
  {
    CargoProjectedSays(files[Cargo].text, r);
    PubspecProjectedSays(files[Pubspec].text, r);
    var p := Projections(layout, files, r).value;
    forall m | m in layout.modules ensures Compatible(files[Manifest(m)].range, p.modules[m], r) {
      assert p.modules[m].Some?;
      BelowIff(r.version, files[Manifest(m)].range.value.upper);
    }
  }

  /** Every projected file names the release. */
  ghost predicate Announces(layout: Layout, files: Files, r: Release)
    requires layout.Fits(files)
  {
    && CargoSays(files[Cargo].text, r) && PubspecSays(files[Pubspec].text, files[Pubspec].text, r)
    && forall m :: m in layout.modules ==> Compatible(files[Manifest(m)].range, files[Manifest(m)].range, r)
  }

  /** Written projections are those of the written files, and name the release. */
  lemma {:induction false} WrittenAnnounce(layout: Layout, files: Files, after: Files, r: Release)
    requires layout.Fits(files) && layout.Fits(after) && Projections(layout, files, r).Some? && ValidRelease(r)
    requires Holds(layout, after, Projections(layout, files, r).value)
    ensures Projections(layout, after, r) == Projections(layout, files, r) && Announces(layout, after, r)
  {
    ProjectionsFixed(layout, files, after, r);
    ProjectionsSay(layout, after, r);
  }
}
