/** A family of manifests for which a release bump changes the build cache key: the
    normaliser of scripts/ci/flutter-cache-key.py reads an indented header that
    scripts/release/version.py reads past. */
module IndentedManifest {
  import opened Options
  import opened ManifestText
  import opened CacheKey

  /** Two tables with a field each, and an indented header in front of the second field. */
  function TwoTables(name: string, key: string, v: string, name': string, key': string, w: string): Text {
    ["[" + name + "]", key + "=" + v, "[" + name' + "]", " [x]", key' + "=" + w]
  }

  /** Such a manifest with the two fields of a release. */
  function Indented(v: string, c: string): Text {
    TwoTables(PACKAGE_TABLE, VERSION_KEY, v, METADATA_TABLE, CODE_KEY, c)
  }

  lemma {:induction false} HeaderOfOther(name: string, name': string)
    requires name != name' && ']' !in name && ']' !in name'
    ensures !IsHeader("[" + name + "]", name')
  {
    var line, head := "[" + name + "]", "[" + name' + "]";
    if head <= line {
      OnlyPrefix(name, name');
    }
  }

  lemma {:induction false} OnlyPrefix(name: string, name': string)
    requires ']' !in name && ']' !in name' && "[" + name' + "]" <= "[" + name + "]"
    ensures name == name'
  {
    var line, head := "[" + name + "]", "[" + name' + "]";
    assert line[..|head|] == head && head[|name'| + 1] == ']';
    assert line[|name'| + 1] == ']';
    assert forall k :: 1 <= k <= |name| ==> line[k] == name[k - 1];
    assert |name| == |name'|;
    assert line[1..|name| + 1] == name && head[1..|name'| + 1] == name';
  }

  ghost predicate Apart(name: string, key: string, name': string, key': string) {
    name != name' && ']' !in name && ']' !in name' && BareKey(key) && BareKey(key') && key != key'
  }

  lemma {:induction false} FiveKinds(text: Text, name: string, key: string, kinds: seq<Kind>)
    requires |text| == |kinds| == 5 && KindOf(text[0], name, key) == kinds[0] && KindOf(text[1], name, key) == kinds[1]
    requires KindOf(text[2], name, key) == kinds[2] && KindOf(text[3], name, key) == kinds[3] && KindOf(text[4], name, key) == kinds[4]
    ensures Kinds(text, name, key) == kinds
  {
    var found := Kinds(text, name, key);
    assert found[0] == kinds[0] && found[1] == kinds[1] && found[2] == kinds[2] && found[3] == kinds[3] && found[4] == kinds[4];
    SameFive(found, kinds);
  }

  lemma {:induction false} SameFive(a: seq<Kind>, b: seq<Kind>)
    requires |a| == |b| == 5 && a[0] == b[0] && a[1] == b[1] && a[2] == b[2] && a[3] == b[3] && a[4] == b[4]
    ensures a == b
  {
  }

  lemma {:induction false} HeaderKinds(name: string, name': string, key: string)
    requires name != name' && ']' !in name && ']' !in name'
    ensures KindOf("[" + name + "]", name, key) == Header && KindOf("[" + name' + "]", name, key) == Bracket
  {
    PlainHeader(name);
    HeaderOfOther(name', name);
  }

  lemma {:induction false} FieldFirst(l0: string, l1: string, l2: string, l3: string, l4: string, name: string, key: string)
    requires KindOf(l0, name, key) == Header && KindOf(l1, name, key) == FieldLine && KindOf(l2, name, key) == Bracket
    requires KindOf(l3, name, key) == Other && KindOf(l4, name, key) == Other
    ensures Locate([l0, l1, l2, l3, l4], name, key) == Some(Place(0, 1))
  {
    FiveKinds([l0, l1, l2, l3, l4], name, key, [Header, FieldLine, Bracket, Other, Other]);
    LocateFirst();
  }

  lemma {:induction false} FieldLast(l0: string, l1: string, l2: string, l3: string, l4: string, name: string, key: string)
    requires KindOf(l0, name, key) == Bracket && KindOf(l1, name, key) == Other && KindOf(l2, name, key) == Header
    requires KindOf(l3, name, key) == Other && KindOf(l4, name, key) == FieldLine
    ensures Locate([l0, l1, l2, l3, l4], name, key) == Some(Place(2, 4))
  {
    FiveKinds([l0, l1, l2, l3, l4], name, key, [Bracket, Other, Header, Other, FieldLine]);
    LocateSecond();
  }

  lemma {:induction false} TwoTablesFirst(name: string, key: string, v: string, name': string, key': string, w: string)
    requires Apart(name, key, name', key') && Literal(v) && Literal(w)
    ensures Locate(TwoTables(name, key, v, name', key', w), name, key) == Some(Place(0, 1))
  {
    HeaderKinds(name, name', key);
    FieldKinds(key, v, name, key', name');
    FieldKinds(key', w, name', key, name);
    IndentKind(name, key);
    FieldFirst("[" + name + "]", key + "=" + v, "[" + name' + "]", " [x]", key' + "=" + w, name, key);
  }

  lemma {:induction false} TwoTablesSecond(name: string, key: string, v: string, name': string, key': string, w: string)
    requires Apart(name, key, name', key') && Literal(v) && Literal(w)
    ensures Locate(TwoTables(name, key, v, name', key', w), name', key') == Some(Place(2, 4))
  {
    HeaderKinds(name', name, key');
    FieldKinds(key, v, name, key', name');
    FieldKinds(key', w, name', key, name);
    IndentKind(name', key');
    FieldLast("[" + name + "]", key + "=" + v, "[" + name' + "]", " [x]", key' + "=" + w, name', key');
  }

  lemma {:induction false} FieldAt(text: Text, name: string, key: string, v: string, place: Place, line: string, other: Text)
    requires Locate(text, name, key) == Some(place) && Rewritten(text[place.line], key, v) == line && other == text[place.line := line]
    ensures Field(text, name, key, v) == Some(other)
  {
  }

  lemma {:induction false} TwoTablesUpdated(name: string, key: string, v: string, name': string, key': string, w: string, v': string, w': string)
    ensures TwoTables(name, key, v, name', key', w)[1 := key + "=" + v'] == TwoTables(name, key, v', name', key', w)
    ensures TwoTables(name, key, v, name', key', w)[4 := key' + "=" + w'] == TwoTables(name, key, v, name', key', w')
    ensures TwoTables(name, key, v, name', key', w)[1] == key + "=" + v && TwoTables(name, key, v, name', key', w)[4] == key' + "=" + w
  {
  }

  lemma {:induction false} FirstWritten(name: string, key: string, v: string, name': string, key': string, w: string, v': string)
    requires Apart(name, key, name', key') && Literal(v) && Literal(w)
    ensures Field(TwoTables(name, key, v, name', key', w), name, key, v') == Some(TwoTables(name, key, v', name', key', w))
  {
    TwoTablesFirst(name, key, v, name', key', w);
    TwoTablesUpdated(name, key, v, name', key', w, v', w);
    PlainFieldRewritten(key, v, v');
    FieldAt(TwoTables(name, key, v, name', key', w), name, key, v', Place(0, 1), key + "=" + v', TwoTables(name, key, v', name', key', w));
  }

  lemma {:induction false} SecondWritten(name: string, key: string, v: string, name': string, key': string, w: string, w': string)
    requires Apart(name, key, name', key') && Literal(v) && Literal(w)
    ensures Field(TwoTables(name, key, v, name', key', w), name', key', w') == Some(TwoTables(name, key, v, name', key', w'))
  {
    TwoTablesSecond(name, key, v, name', key', w);
    TwoTablesUpdated(name, key, v, name', key', w, v, w');
    PlainFieldRewritten(key', w, w');
    FieldAt(TwoTables(name, key, v, name', key', w), name', key', w', Place(2, 4), key' + "=" + w', TwoTables(name, key, v, name', key', w'));
  }

  lemma {:induction false} FieldKinds(key: string, v: string, name: string, key': string, name': string)
    requires BareKey(key) && BareKey(key') && key != key' && Literal(v)
    ensures KindOf(key + "=" + v, name, key) == FieldLine && KindOf(key + "=" + v, name', key') == Other
  {
    var line := key + "=" + v;
    PlainField(key, v);
    assert line[..|key|] == key && line[0] == key[0] && line[|key|] == '=';
    KindByHead(line, name, key);
    KindByHead(line, name', key');
    OtherKeyAbsent(line, key, key');
  }

  lemma {:induction false} IndentKind(name: string, key: string)
    requires BareKey(key)
    ensures KindOf(" [x]", name, key) == Other
  {
    assert " [x]"[0] == ' ' && !Bracketed(" [x]");
    KindByHead(" [x]", name, key);
    assert !(key <= " [x]");
  }

  lemma {:induction false} LocateFirst()
    ensures LocateKinds([Header, FieldLine, Bracket, Other, Other]) == Some(Place(0, 1))
  {
    var kinds := [Header, FieldLine, Bracket, Other, Other];
    assert Positions(kinds, Header, 0, 5) == [0] && TableEnd(kinds, 1) == 2 && Positions(kinds, FieldLine, 1, 2) == [1];
  }

  lemma {:induction false} LocateSecond()
    ensures LocateKinds([Bracket, Other, Header, Other, FieldLine]) == Some(Place(2, 4))
  {
    var kinds := [Bracket, Other, Header, Other, FieldLine];
    assert Positions(kinds, Header, 0, 5) == [2] && TableEnd(kinds, 3) == 5 && Positions(kinds, FieldLine, 3, 5) == [4];
  }

  lemma {:induction false} IndentedSection(v: string, c: string)
    ensures SectionAfter(Indented(v, c), 4) == "x" && !Metadata("x")
  {
    var line := " [x]";
    assert SkipSpaces(line, 0) == 1 && FindBracket(line, 2) == 3 && SkipSpaces(line, 4) == 4 && line[2..3] == "x";
    assert HeaderName(line) == Some("x");
    SectionHolds(Indented(v, c), 3, 4);
  }

  /** A bump of such a manifest succeeds and shows: the normaliser takes the code to be
      in the indented table. */
  lemma {:induction false} IndentedHeaderShows(v: string, c: string, version: string, code: string)
    requires Literal(v) && Literal(c) && Literal(version) && Literal(code) && code != c
    ensures ProjectManifest(Indented(v, c), version, code) == Some(Indented(version, code))
    ensures Normalized(Indented(version, code)) != Normalized(Indented(v, c))
  {
    ApartNames();
    TwoTablesSecond(PACKAGE_TABLE, VERSION_KEY, v, METADATA_TABLE, CODE_KEY, c);
    FirstWritten(PACKAGE_TABLE, VERSION_KEY, v, METADATA_TABLE, CODE_KEY, c, version);
    SecondWritten(PACKAGE_TABLE, VERSION_KEY, version, METADATA_TABLE, CODE_KEY, c, code);
    BumpInvisibleIff(Indented(v, c), version, code);
    IndentedSection(v, c);
    PlainFieldRewritten(CODE_KEY, c, code);
    SameTail(CODE_KEY + "=", c, code);
  }

  lemma {:induction false} ApartNames()
    ensures Apart(PACKAGE_TABLE, VERSION_KEY, METADATA_TABLE, CODE_KEY)
  {
    TableNames();
    KeyNames();
    assert |PACKAGE_TABLE| != |METADATA_TABLE|;
  }

  lemma {:induction false} SameTail(head: string, x: string, y: string)
    requires x != y
    ensures head + x != head + y
  {
    assert (head + x)[|head|..] == x && (head + y)[|head|..] == y;
  }
}
