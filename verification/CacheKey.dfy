/** scripts/ci/flutter-cache-key.py: `normalize_manifest`, which must make the build
    cache key blind to a release bump done by scripts/release/version.py. */
module CacheKey {
  import opened Options
  import opened ManifestText

  predicate Space(c: char) {
    c == ' ' || 9 <= c as int <= 13
  }

  function SkipSpaces(s: string, i: nat): (j: nat)
    requires i <= |s|
    ensures i <= j <= |s| && (forall k :: i <= k < j ==> Space(s[k])) && (j < |s| ==> !Space(s[j]))
    decreases |s| - i
  {
    if i == |s| || !Space(s[i]) then i else SkipSpaces(s, i + 1)
  }

  function FindBracket(s: string, i: nat): (j: nat)
    requires i <= |s|
    ensures i <= j <= |s| && (forall k :: i <= k < j ==> s[k] != '[' && s[k] != ']')
    ensures j < |s| ==> s[j] == '[' || s[j] == ']'
    decreases |s| - i
  {
    if i == |s| || s[i] == '[' || s[i] == ']' then i else FindBracket(s, i + 1)
  }

  /** The table named by a header line; indentation and a trailing comment are allowed. */
  function HeaderName(line: string): Option<string> {
    var i := SkipSpaces(line, 0);
    if i == |line| || line[i] != '[' then None
    else
      var j := FindBracket(line, i + 1);
      if j == |line| || line[j] != ']' || j == i + 1 then None
      else
        var k := SkipSpaces(line, j + 1);
        if k < |line| && line[k] != '#' then None else Some(line[i + 1..j])
  }

  predicate VersionLine(line: string) {
    var i := SkipSpaces(line, 0);
    && i + 7 <= |line| && line[i..i + 7] == "version"
    && var j := SkipSpaces(line, i + 7); j < |line| && line[j] == '='
  }

  predicate Metadata(section: string) {
    section == "workspace.metadata" || "workspace.metadata." <= section
  }

  predicate Package(section: string) {
    section == "package" || section == "workspace.package"
  }

  predicate Dropped(section: string, line: string) {
    Metadata(section) || (Package(section) && VersionLine(line))
  }

  function Enter(section: string, line: string): string {
    if HeaderName(line).Some? then HeaderName(line).value else section
  }

  /** The section in force after the first `n` lines. */
  function SectionAfter(text: Text, n: nat): string
    requires n <= |text|
  {
    if n == 0 then "" else Enter(SectionAfter(text, n - 1), text[n - 1])
  }

  /** The lines kept among the first `n`. */
  function Kept(text: Text, n: nat): Text
    requires n <= |text|
  {
    if n == 0 then []
    else Kept(text, n - 1) + if Dropped(SectionAfter(text, n), text[n - 1]) then [] else [text[n - 1]]
  }

  function Normalized(text: Text): Text {
    Kept(text, |text|)
  }

  /** The loop: one section and the lines kept so far. */
  method NormalizeManifest(text: Text) returns (lines: Text)
    ensures lines == Normalized(text)
  {
    lines := [];
    var section := "";
    for i := 0 to |text|
      invariant section == SectionAfter(text, i) && lines == Kept(text, i)
    {
      section, lines := Pass(section, lines, text[i]);
    }
  }

  method Pass(section: string, lines: Text, line: string) returns (next: string, kept: Text)
    ensures next == Enter(section, line)
    ensures kept == lines + if Dropped(next, line) then [] else [line]
  {
    next, kept := section, lines;
    if HeaderName(line).Some? {
      next := HeaderName(line).value;
    }
    assert lines + [] == lines;
    if Metadata(next) {
      return;
    }
    if Package(next) && VersionLine(line) {
      return;
    }
    kept := kept + [line];
  }

  // ----- which lines the key covers

  ghost predicate Spaces(line: string, i: nat, j: nat) {
    i <= j <= |line| && forall k :: i <= k < j ==> Space(line[k])
  }

  /** The line is a header: a bracketed name at `i`, closed at `j`, and from `k` a comment. */
  ghost predicate Headed(line: string, name: string, i: nat, j: nat, k: nat) {
    && i < j < |line| && Spaces(line, 0, i) && line[i] == '[' && line[j] == ']'
    && name == line[i + 1..j] && name != "" && '[' !in name && ']' !in name
    && Spaces(line, j + 1, k) && (k < |line| ==> line[k] == '#')
  }

  ghost predicate Heads(line: string, name: string) {
    exists i: nat, j: nat, k: nat :: Headed(line, name, i, j, k)
  }

  lemma {:induction false} SkipSpacesTo(line: string, i: nat, j: nat)
    requires Spaces(line, i, j) && (j < |line| ==> !Space(line[j]))
    ensures SkipSpaces(line, i) == j
  {
  }

  lemma {:induction false} FindBracketTo(line: string, i: nat, j: nat)
    requires i <= j < |line| && line[j] == ']' && '[' !in line[i..j] && ']' !in line[i..j]
    ensures FindBracket(line, i) == j
  {
    forall k | i <= k < j ensures line[k] != '[' && line[k] != ']' {
      assert line[k] == line[i..j][k - i];
    }
  }

  lemma {:induction false} HeadedName(line: string, name: string, i: nat, j: nat, k: nat)
    requires Headed(line, name, i, j, k)
    ensures HeaderName(line) == Some(name)
  {
    SkipSpacesTo(line, 0, i);
    FindBracketTo(line, i + 1, j);
    SkipSpacesTo(line, j + 1, k);
  }

  lemma {:induction false} NameHeaded(line: string)
    requires HeaderName(line).Some?
    ensures Heads(line, HeaderName(line).value)
  {
    var i := SkipSpaces(line, 0);
    var j := FindBracket(line, i + 1);
    assert Headed(line, HeaderName(line).value, i, j, SkipSpaces(line, j + 1));
  }

  lemma {:induction false} HeadsIff(line: string, name: string)
    ensures HeaderName(line) == Some(name) <==> Heads(line, name)
  {
    if i: nat, j: nat, k: nat :| Headed(line, name, i, j, k) {
      HeadedName(line, name, i, j, k);
    }
    if HeaderName(line) == Some(name) {
      NameHeaded(line);
    }
  }

  /** The line assigns to `version`: the key is at `i` and the sign at `j`. */
  ghost predicate Assigns(line: string, i: nat, j: nat) {
    i + 7 <= j < |line| && Spaces(line, 0, i) && line[i..i + 7] == "version" && Spaces(line, i + 7, j) && line[j] == '='
  }

  lemma {:induction false} VersionLineIff(line: string)
    ensures VersionLine(line) <==> exists i: nat, j: nat :: Assigns(line, i, j)
  {
    if i: nat, j: nat :| Assigns(line, i, j) {
      assert line[i] == line[i..i + 7][0] == 'v';
      SkipSpacesTo(line, 0, i);
      SkipSpacesTo(line, i + 7, j);
    }
    if VersionLine(line) {
      var i := SkipSpaces(line, 0);
      assert Assigns(line, i, SkipSpaces(line, i + 7));
    }
  }

  /** A line is in the table of the last header up to and including itself. */
  ghost predicate InTable(text: Text, i: nat, h: nat, name: string) {
    h <= i < |text| && Heads(text[h], name) && forall k, other :: h < k <= i ==> !Heads(text[k], other)
  }

  lemma {:induction false} InTableSection(text: Text, i: nat, h: nat, name: string)
    requires InTable(text, i, h, name)
    ensures SectionAfter(text, i + 1) == name
  {
    HeadsIff(text[h], name);
    forall k | h < k <= i ensures HeaderName(text[k]).None? {
      if HeaderName(text[k]).Some? {
        HeadsIff(text[k], HeaderName(text[k]).value);
      }
    }
    SectionHolds(text, h, i + 1);
  }

  /** Before any header no table is in force. */
  lemma {:induction false} NoTableSection(text: Text, n: nat)
    requires n <= |text| && forall k, name :: 0 <= k < n ==> !Heads(text[k], name)
    ensures SectionAfter(text, n) == ""
  {
    if n > 0 {
      if HeaderName(text[n - 1]).Some? {
        HeadsIff(text[n - 1], HeaderName(text[n - 1]).value);
      }
      NoTableSection(text, n - 1);
    }
  }

  /** Tables that do not count, and those whose version does not. */
  ghost predicate Uncounted(name: string, line: string) {
    || name == "workspace.metadata"
    || (exists rest :: name == "workspace.metadata." + rest)
    || (name in {"package", "workspace.package"} && exists i: nat, j: nat :: Assigns(line, i, j))
  }

  lemma {:induction false} UncountedIff(name: string, line: string)
    ensures Dropped(name, line) <==> Uncounted(name, line)
  {
    VersionLineIff(line);
    if "workspace.metadata." <= name {
      assert name == "workspace.metadata." + name[|"workspace.metadata."|..];
    }
  }

  /** The normal form keeps a line exactly when its table counts and it is not the
      version of a package table: that of a dependency's table stays. */
  lemma {:induction false} LineKeptIff(text: Text, i: nat, h: nat, name: string)
    requires InTable(text, i, h, name)
    ensures Kept(text, i + 1) == Kept(text, i) + if Uncounted(name, text[i]) then [] else [text[i]]
  {
    InTableSection(text, i, h, name);
    UncountedIff(name, text[i]);
  }

  /** Lines before the first header are kept. */
  lemma {:induction false} HeadlessKept(text: Text, i: nat)
    requires i < |text| && forall k, name :: 0 <= k <= i ==> !Heads(text[k], name)
    ensures Kept(text, i + 1) == Kept(text, i) + [text[i]]
  {
    NoTableSection(text, i + 1);
  }

  // ----- normalising twice is normalising once

  lemma {:induction false} PrefixOnly(a: Text, b: Text, n: nat)
    requires n <= |a| && n <= |b| && forall i :: 0 <= i < n ==> a[i] == b[i]
    ensures SectionAfter(a, n) == SectionAfter(b, n) && Kept(a, n) == Kept(b, n)
  {
    if n > 0 {
      PrefixOnly(a, b, n - 1);
    }
  }

  lemma {:induction false} Append(text: Text, line: string)
    ensures SectionAfter(text + [line], |text| + 1) == Enter(SectionAfter(text, |text|), line)
    ensures Normalized(text + [line]) ==
            Normalized(text) + if Dropped(Enter(SectionAfter(text, |text|), line), line) then [] else [line]
  {
    PrefixOnly(text, text + [line], |text|);
  }

  lemma {:induction false} VersionIsNoHeader(line: string)
    requires VersionLine(line)
    ensures HeaderName(line).None?
  {
    var i := SkipSpaces(line, 0);
    assert line[i] == line[i..i + 7][0];
  }

  /** Between passes: the section of the kept lines is the section in force, unless
      that one is being dropped. */
  ghost predicate InStep(kept: string, so: string) {
    kept == so || Metadata(so)
  }

  lemma {:induction false} DroppedStep(kept: string, so: string, line: string)
    requires InStep(kept, so) && Dropped(Enter(so, line), line)
    ensures InStep(kept, Enter(so, line))
  {
    if VersionLine(line) {
      VersionIsNoHeader(line);
    }
  }

  lemma {:induction false} KeptStep(kept: string, so: string, line: string)
    requires InStep(kept, so) && !Dropped(Enter(so, line), line)
    ensures Enter(kept, line) == Enter(so, line)
  {
  }

  ghost predicate Stable(text: Text, section: string) {
    Normalized(text) == text && InStep(SectionAfter(text, |text|), section)
  }

  lemma {:induction false} StableStep(before: Text, so: string, line: string)
    requires Stable(before, so)
    ensures Stable(before + if Dropped(Enter(so, line), line) then [] else [line], Enter(so, line))
  {
    var kept := SectionAfter(before, |before|);
    if Dropped(Enter(so, line), line) {
      DroppedStep(kept, so, line);
      assert before + [] == before;
    } else {
      KeptStep(kept, so, line);
      Append(before, line);
    }
  }

  lemma {:induction false} KeptAgain(text: Text, n: nat)
    requires n <= |text|
    ensures Stable(Kept(text, n), SectionAfter(text, n))
  {
    if n > 0 {
      KeptAgain(text, n - 1);
      StableStep(Kept(text, n - 1), SectionAfter(text, n - 1), text[n - 1]);
    }
  }

  /** Normalisation is idempotent. */
  lemma {:induction false} NormalizeIdempotent(text: Text)
    ensures Normalized(Normalized(text)) == Normalized(text)
  {
    KeptAgain(text, |text|);
  }

  // ----- texts of the same shape

  /** Line by line the same headers, and version lines at the same places. */
  ghost predicate SameShape(a: Text, b: Text) {
    |a| == |b| && forall i {:trigger LikeLine(a[i], b[i])} :: 0 <= i < |a| ==> LikeLine(a[i], b[i])
  }

  ghost predicate LikeLine(x: string, y: string) {
    HeaderName(x) == HeaderName(y) && (VersionLine(x) <==> VersionLine(y))
  }

  lemma {:induction false} SectionsStay(a: Text, b: Text, n: nat)
    requires SameShape(a, b) && n <= |a|
    ensures SectionAfter(b, n) == SectionAfter(a, n)
  {
    if n > 0 {
      SectionsStay(a, b, n - 1);
      assert LikeLine(a[n - 1], b[n - 1]);
    }
  }

  lemma {:induction false} SameSnoc(s: Text, x: string, r: Text, y: string)
    ensures s + [x] == r + [y] <==> s == r && x == y
  {
    if s + [x] == r + [y] {
      assert s == (s + [x])[..|s|] && r == (r + [y])[..|s|];
      assert x == (s + [x])[|s|] && y == (r + [y])[|s|];
    }
  }

  /** The `i`th line is the same, or in a part the key does not cover. */
  ghost predicate Unseen(a: Text, b: Text, i: nat)
    requires i < |a| == |b|
  {
    a[i] == b[i] || Dropped(SectionAfter(a, i + 1), a[i])
  }

  ghost predicate AllUnseen(a: Text, b: Text, n: nat)
    requires n <= |a| == |b|
  {
    forall i {:trigger Unseen(a, b, i)} :: 0 <= i < n ==> Unseen(a, b, i)
  }

  lemma {:induction false} KeptSameStep(a: Text, b: Text, n: nat)
    requires SameShape(a, b) && n < |a|
    ensures Kept(a, n + 1) == Kept(b, n + 1) <==> Kept(a, n) == Kept(b, n) && Unseen(a, b, n)
  {
    SectionsStay(a, b, n + 1);
    assert LikeLine(a[n], b[n]);
    var section := SectionAfter(a, n + 1);
    assert Dropped(section, a[n]) <==> Dropped(section, b[n]);
    SameSnoc(Kept(a, n), a[n], Kept(b, n), b[n]);
  }

  lemma {:induction false} KeptSameIff(a: Text, b: Text, n: nat)
    requires SameShape(a, b) && n <= |a|
    ensures Kept(a, n) == Kept(b, n) <==> AllUnseen(a, b, n)
  {
    if n > 0 {
      KeptSameIff(a, b, n - 1);
      KeptSameStep(a, b, n - 1);
      AllUnseenStep(a, b, n - 1);
    }
  }

  lemma {:induction false} AllUnseenStep(a: Text, b: Text, n: nat)
    requires n < |a| == |b|
    ensures AllUnseen(a, b, n + 1) <==> AllUnseen(a, b, n) && Unseen(a, b, n)
  {
  }

  /** Changes that keep the shape of a manifest are invisible exactly when every
      changed line is in a part of it that the key does not cover. */
  lemma {:induction false} ChangeInvisibleIff(a: Text, b: Text)
    requires SameShape(a, b)
    ensures Normalized(b) == Normalized(a) <==> AllUnseen(a, b, |a|)
  {
    KeptSameIff(a, b, |a|);
  }

  // ----- the fields a release bump rewrites

  const PACKAGE_TABLE: string := "workspace.package"
  const VERSION_KEY: string := "version"
  const METADATA_TABLE: string := "workspace.metadata.copypaste"
  const CODE_KEY: string := "android-release-version-code"

  /** Table headers start in the first column. */
  ghost predicate NoIndentedHeader(text: Text) {
    forall i :: 0 <= i < |text| && HeaderName(text[i]).Some? ==> Bracketed(text[i])
  }

  lemma {:induction false} PlainStart(line: string)
    requires line != "" && !Space(line[0]) && line[0] != '['
    ensures HeaderName(line).None?
  {
    assert SkipSpaces(line, 0) == 0;
  }

  lemma {:induction false} HeaderNames(line: string, name: string)
    requires IsHeader(line, name) && name != "" && '[' !in name && ']' !in name
    ensures HeaderName(line) == Some(name)
  {
    var head := "[" + name + "]";
    assert line[..|head|] == head;
    assert line[0] == head[0] == '[' && SkipSpaces(line, 0) == 0;
    var close := |name| + 1;
    assert line[close] == head[close] == ']';
    assert forall k :: 1 <= k < close ==> line[k] == head[k] == name[k - 1];
    assert FindBracket(line, 1) == close;
    assert line[1..close] == name;
    assert SkipSpaces(line, close + 1) == |line| by {
      assert forall k :: |head| <= k < |line| ==> Blank(line[k]);
    }
  }

  lemma {:induction false} SectionHolds(text: Text, h: nat, i: nat)
    requires h < i <= |text| && HeaderName(text[h]).Some? && forall k :: h < k < i ==> HeaderName(text[k]).None?
    ensures SectionAfter(text, i) == HeaderName(text[h]).value
    decreases i
  {
    if i > h + 1 {
      SectionHolds(text, h, i - 1);
    }
  }

  /** Without indented headers the normaliser sees a field in the table that holds it. */
  lemma {:induction false} SectionOfField(text: Text, name: string, key: string)
    requires NoIndentedHeader(text) && Locate(text, name, key).Some?
    requires name != "" && '[' !in name && ']' !in name
    ensures SectionAfter(text, Locate(text, name, key).value.line) == name
  {
    var place := Locate(text, name, key).value;
    var kinds := Kinds(text, name, key);
    HeaderNames(text[place.header], name);
    forall k | place.header < k < place.line ensures HeaderName(text[k]).None? {
      assert !kinds[k].Header? && !kinds[k].Bracket? && kinds[k] == KindOf(text[k], name, key);
    }
    SectionHolds(text, place.header, place.line);
  }

  lemma {:induction false} VersionFieldIsVersionLine(line: string)
    requires FieldSpan(line, VERSION_KEY).Some?
    ensures VersionLine(line)
  {
    var eq := SkipBlanks(line, 7);
    assert line[..7] == VERSION_KEY && line[0] == VERSION_KEY[0];
    assert SkipSpaces(line, 0) == 0 && line[0..7] == "version";
    assert SkipSpaces(line, 7) == eq;
  }

  lemma {:induction false} CodeFieldIsNot(line: string)
    requires line != "" && line[0] == 'a'
    ensures !VersionLine(line)
  {
    assert SkipSpaces(line, 0) == 0;
    if |line| >= 7 {
      assert line[0..7][0] == 'a';
    }
  }

  /** Rewriting its value makes of a field line one of the same kind. */
  lemma {:induction false} VersionRewritten(line: string, v: string)
    requires FieldSpan(line, VERSION_KEY).Some? && Literal(v)
    ensures VersionLine(line) && LikeLine(line, Rewritten(line, VERSION_KEY, v)) && HeaderName(line).None?
  {
    var other := Rewritten(line, VERSION_KEY, v);
    ReplacedSpan(line, VERSION_KEY, v);
    ReplacedHead(line, VERSION_KEY, v);
    VersionFieldIsVersionLine(line);
    VersionFieldIsVersionLine(other);
    PlainStart(line);
    PlainStart(other);
  }

  lemma {:induction false} CodeRewritten(line: string, v: string)
    requires FieldSpan(line, CODE_KEY).Some?
    ensures !VersionLine(line) && LikeLine(line, Rewritten(line, CODE_KEY, v)) && HeaderName(line).None?
  {
    var other := Rewritten(line, CODE_KEY, v);
    ReplacedHead(line, CODE_KEY, v);
    CodeFieldIsNot(line);
    CodeFieldIsNot(other);
    PlainStart(line);
    PlainStart(other);
  }

  lemma {:induction false} TableNames()
    ensures Package(PACKAGE_TABLE) && Metadata(METADATA_TABLE)
    ensures PACKAGE_TABLE != "" && '[' !in PACKAGE_TABLE && ']' !in PACKAGE_TABLE
    ensures METADATA_TABLE != "" && '[' !in METADATA_TABLE && ']' !in METADATA_TABLE
  {
  }

  lemma {:induction false} KeyNames()
    ensures BareKey(VERSION_KEY) && BareKey(CODE_KEY) && VERSION_KEY != CODE_KEY
  {
    assert VERSION_KEY[0] == 'v' && CODE_KEY[0] == 'a';
  }

  /** The manifest projection of version.py: both fields, in order. */
  function ProjectManifest(text: Text, version: string, code: string): Option<Text> {
    var first := Field(text, PACKAGE_TABLE, VERSION_KEY, version);
    if first.None? then None else Field(first.value, METADATA_TABLE, CODE_KEY, code)
  }

  /** The line of the version and of the code, and the section in force at each. */
  ghost function VersionAt(text: Text): nat
    requires Locate(text, PACKAGE_TABLE, VERSION_KEY).Some?
  {
    Locate(text, PACKAGE_TABLE, VERSION_KEY).value.line
  }

  ghost function CodeAt(text: Text): nat
    requires Locate(text, METADATA_TABLE, CODE_KEY).Some?
  {
    Locate(text, METADATA_TABLE, CODE_KEY).value.line
  }

  /** A bump rewrites the version line and the code line and nothing else. */
  lemma {:induction false} BumpedLines(text: Text, version: string, code: string)
    requires ProjectManifest(text, version, code).Some?
    ensures Locate(text, PACKAGE_TABLE, VERSION_KEY).Some? && Locate(text, METADATA_TABLE, CODE_KEY).Some?
    ensures var i, j := VersionAt(text), CodeAt(text);
            && i != j && FieldSpan(text[i], VERSION_KEY).Some? && FieldSpan(text[j], CODE_KEY).Some?
            && ProjectManifest(text, version, code).value ==
               text[i := Rewritten(text[i], VERSION_KEY, version)][j := Rewritten(text[j], CODE_KEY, code)]
  {
    KeyNames();
    BothFields(text, PACKAGE_TABLE, VERSION_KEY, version, METADATA_TABLE, CODE_KEY, code);
  }

  /** Two changed lines that keep the shape, seen one by one. */
  lemma {:induction false} TwoChanges(a: Text, i: nat, x: string, j: nat, y: string)
    requires i < |a| && j < |a| && i != j && LikeLine(a[i], x) && LikeLine(a[j], y)
    requires HeaderName(a[i]).None? && HeaderName(a[j]).None?
    ensures Normalized(a[i := x][j := y]) == Normalized(a) <==>
            (a[i] == x || Dropped(SectionAfter(a, i), a[i])) && (a[j] == y || Dropped(SectionAfter(a, j), a[j]))
  {
    var b := a[i := x][j := y];
    ChangeInvisibleIff(a, b);
    assert Unseen(a, b, i) <==> a[i] == x || Dropped(SectionAfter(a, i), a[i]);
    assert Unseen(a, b, j) <==> a[j] == y || Dropped(SectionAfter(a, j), a[j]);
  }

  lemma {:induction false} OneChange(a: Text, i: nat, x: string)
    requires i < |a| && LikeLine(a[i], x) && HeaderName(a[i]).None?
    ensures Normalized(a[i := x]) == Normalized(a) <==> a[i] == x || Dropped(SectionAfter(a, i), a[i])
  {
    var b := a[i := x];
    ChangeInvisibleIff(a, b);
    assert Unseen(a, b, i) <==> a[i] == x || Dropped(SectionAfter(a, i), a[i]);
  }

  /** A version rewrite alone is invisible exactly when it changes nothing or the section
      in force at the version line is a package table or a dropped one. */
  lemma {:induction false} VersionInvisibleIff(text: Text, v: string)
    requires Field(text, PACKAGE_TABLE, VERSION_KEY, v).Some? && Literal(v)
    ensures var i := VersionAt(text);
            Normalized(Field(text, PACKAGE_TABLE, VERSION_KEY, v).value) == Normalized(text) <==>
            text[i] == Rewritten(text[i], VERSION_KEY, v) || Package(SectionAfter(text, i)) || Metadata(SectionAfter(text, i))
  {
    var i := VersionAt(text);
    VersionRewritten(text[i], v);
    OneChange(text, i, Rewritten(text[i], VERSION_KEY, v));
  }

  /** A code rewrite alone is invisible exactly when it changes nothing or the section in
      force at the code line is a dropped one. */
  lemma {:induction false} CodeInvisibleIff(text: Text, v: string)
    requires Field(text, METADATA_TABLE, CODE_KEY, v).Some?
    ensures var j := CodeAt(text);
            Normalized(Field(text, METADATA_TABLE, CODE_KEY, v).value) == Normalized(text) <==>
            text[j] == Rewritten(text[j], CODE_KEY, v) || Metadata(SectionAfter(text, j))
  {
    var j := CodeAt(text);
    CodeRewritten(text[j], v);
    OneChange(text, j, Rewritten(text[j], CODE_KEY, v));
  }

  /** Each of the two rewrites either changes nothing or meets a line where the section
      in force is one the key does not cover. */
  ghost predicate BumpHidden(text: Text, version: string, code: string)
    requires Locate(text, PACKAGE_TABLE, VERSION_KEY).Some? && Locate(text, METADATA_TABLE, CODE_KEY).Some?
  {
    var i, j := VersionAt(text), CodeAt(text);
    && (text[i] == Rewritten(text[i], VERSION_KEY, version) || Package(SectionAfter(text, i)) || Metadata(SectionAfter(text, i)))
    && (text[j] == Rewritten(text[j], CODE_KEY, code) || Metadata(SectionAfter(text, j)))
  }

  /** A bump is invisible exactly when both of its rewrites are hidden where they are. */
  lemma {:induction false} BumpInvisibleIff(text: Text, version: string, code: string)
    requires Literal(version) && ProjectManifest(text, version, code).Some?
    ensures Locate(text, PACKAGE_TABLE, VERSION_KEY).Some? && Locate(text, METADATA_TABLE, CODE_KEY).Some?
    ensures Normalized(ProjectManifest(text, version, code).value) == Normalized(text) <==> BumpHidden(text, version, code)
  {
    BumpedLines(text, version, code);
    var i, j := VersionAt(text), CodeAt(text);
    VersionRewritten(text[i], version);
    CodeRewritten(text[j], code);
    TwoChanges(text, i, Rewritten(text[i], VERSION_KEY, version), j, Rewritten(text[j], CODE_KEY, code));
  }

  /** A release bump is invisible to the build cache key, for every manifest whose
      table headers are not indented. */
  lemma {:induction false} BumpInvisible(text: Text, version: string, code: string)
    requires NoIndentedHeader(text) && Literal(version) && ProjectManifest(text, version, code).Some?
    ensures Normalized(ProjectManifest(text, version, code).value) == Normalized(text)
  {
    TableNames();
    BumpInvisibleIff(text, version, code);
    SectionOfField(text, PACKAGE_TABLE, VERSION_KEY);
    SectionOfField(text, METADATA_TABLE, CODE_KEY);
  }

  /** The projection rewrites its own output to itself. */
  lemma {:induction false} ProjectionIdempotent(text: Text, version: string, code: string)
    requires Literal(version) && Literal(code) && ProjectManifest(text, version, code).Some?
    ensures ProjectManifest(ProjectManifest(text, version, code).value, version, code) == ProjectManifest(text, version, code)
  {
    var once := Field(text, PACKAGE_TABLE, VERSION_KEY, version).value;
    KeyNames();
    FieldFixed(text, PACKAGE_TABLE, VERSION_KEY, version);
    FieldFixed(once, METADATA_TABLE, CODE_KEY, code);
    FixedAfterOther(once, PACKAGE_TABLE, VERSION_KEY, version, METADATA_TABLE, CODE_KEY, code);
  }
}
