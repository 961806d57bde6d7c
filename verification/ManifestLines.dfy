/** scripts/release/version.py: what `table` and `field` look for in a manifest and what
    they write, in terms of lines and characters. */
module ManifestLines {
  import opened Options
  import opened ManifestText
  import opened DecimalText

  ghost predicate Blanks(line: string, i: nat, j: nat) {
    i <= j <= |line| && forall k :: i <= k < j ==> line[k] == ' ' || line[k] == '\t'
  }

  ghost predicate QuotedAt(line: string, i: nat, j: nat) {
    i + 1 < j <= |line| && line[i] == '"' && line[j - 1] == '"' && forall k :: i < k < j - 1 ==> line[k] != '"'
  }

  ghost predicate NumberAt(line: string, i: nat, j: nat) {
    i < j <= |line| && forall k :: i <= k < j ==> '0' <= line[k] <= '9'
  }

  /** The line assigns the value between two positions to the key: the sign is at `eq`, and
      from `n` on there is nothing or a comment. */
  ghost predicate AssignedBy(line: string, key: string, at: Span, eq: nat, n: nat) {
    && key <= line && Blanks(line, |key|, eq) && eq < |line| && line[eq] == '=' && Blanks(line, eq + 1, at.start)
    && (QuotedAt(line, at.start, at.end) || NumberAt(line, at.start, at.end))
    && Blanks(line, at.end, n) && (n < |line| ==> line[n] == '#')
  }

  ghost predicate Assigned(line: string, key: string, at: Span) {
    exists eq: nat, n: nat :: AssignedBy(line, key, at, eq, n)
  }

  lemma {:induction false} SkipBlanksTo(line: string, i: nat, j: nat)
    requires Blanks(line, i, j) && (j < |line| ==> line[j] != ' ' && line[j] != '\t')
    ensures SkipBlanks(line, i) == j
  {
  }

  lemma {:induction false} ValueEndAt(line: string, i: nat, j: nat, n: nat)
    requires QuotedAt(line, i, j) || NumberAt(line, i, j)
    requires Blanks(line, j, n) && (n < |line| ==> line[n] == '#')
    ensures ValueEnd(line, i) == j
  {
    if QuotedAt(line, i, j) {
      assert FindQuote(line, i + 1) == j - 1;
    } else {
      assert j < |line| ==> !Digit(line[j]);
    }
  }

  lemma {:induction false} AssignedSpan(line: string, key: string, at: Span, eq: nat, n: nat)
    requires AssignedBy(line, key, at, eq, n)
    ensures FieldSpan(line, key) == Some(at)
  {
    SkipBlanksTo(line, |key|, eq);
    SkipBlanksTo(line, eq + 1, at.start);
    ValueEndAt(line, at.start, at.end, n);
    SkipBlanksTo(line, at.end, n);
  }

  lemma {:induction false} SpanAssigned(line: string, key: string)
    requires FieldSpan(line, key).Some?
    ensures Assigned(line, key, FieldSpan(line, key).value)
  {
    var at := FieldSpan(line, key).value;
    var eq, n := SkipBlanks(line, |key|), SkipBlanks(line, at.end);
    assert QuotedAt(line, at.start, at.end) || NumberAt(line, at.start, at.end);
    assert AssignedBy(line, key, at, eq, n);
  }

  /** A field is found exactly where the line assigns a string or a number to the key. */
  lemma {:induction false} FieldSpanIff(line: string, key: string, at: Span)
    ensures FieldSpan(line, key) == Some(at) <==> Assigned(line, key, at)
  {
    if eq: nat, n: nat :| AssignedBy(line, key, at, eq, n) {
      AssignedSpan(line, key, at, eq, n);
    }
    if FieldSpan(line, key) == Some(at) {
      SpanAssigned(line, key);
    }
  }

  // ----- the one field of the one table

  /** The header of the table: its name in brackets in the first column, and blanks. */
  ghost predicate Opens(line: string, name: string) {
    "[" + name + "]" <= line && Blanks(line, |name| + 2, |line|)
  }

  /** The line comes after the header and before any other line with a bracket in front. */
  ghost predicate Inside(text: Text, h: nat, i: nat) {
    h < i < |text| && forall k :: h < k <= i ==> text[k] == "" || text[k][0] != '['
  }

  ghost predicate Assigns(line: string, key: string) {
    exists at :: Assigned(line, key, at)
  }

  ghost predicate OnlyTable(text: Text, name: string, h: nat) {
    h < |text| && forall k :: 0 <= k < |text| ==> (Opens(text[k], name) <==> k == h)
  }

  ghost predicate OnlyField(text: Text, key: string, h: nat, i: nat) {
    i < |text| && forall k :: 0 <= k < |text| ==> (Inside(text, h, k) && Assigns(text[k], key) <==> k == i)
  }

  lemma {:induction false} OpensIff(line: string, name: string)
    ensures IsHeader(line, name) <==> Opens(line, name)
  {
    if Opens(line, name) {
      SkipBlanksTo(line, |name| + 2, |line|);
    }
  }

  lemma {:induction false} AssignsIff(line: string, key: string)
    ensures FieldSpan(line, key).Some? <==> Assigns(line, key)
  {
    if FieldSpan(line, key).Some? {
      SpanAssigned(line, key);
    }
    if at :| Assigned(line, key, at) {
      FieldSpanIff(line, key, at);
    }
  }

  lemma {:induction false} PositionsNone(kinds: seq<Kind>, kind: Kind, lo: nat, hi: nat)
    requires lo <= hi <= |kinds| && forall k :: lo <= k < hi ==> kinds[k] != kind
    ensures Positions(kinds, kind, lo, hi) == []
    decreases hi
  {
    if lo < hi {
      PositionsNone(kinds, kind, lo, hi - 1);
    }
  }

  lemma {:induction false} PositionsOne(kinds: seq<Kind>, kind: Kind, lo: nat, hi: nat, p: nat)
    requires lo <= p < hi <= |kinds| && forall k :: lo <= k < hi ==> (kinds[k] == kind <==> k == p)
    ensures Positions(kinds, kind, lo, hi) == [p]
    decreases hi
  {
    if p == hi - 1 {
      PositionsNone(kinds, kind, lo, hi - 1);
    } else {
      PositionsOne(kinds, kind, lo, hi - 1, p);
    }
  }

  lemma {:induction false} PositionsSingle(kinds: seq<Kind>, kind: Kind, lo: nat, hi: nat, k: nat)
    requires lo <= k < hi <= |kinds| && |Positions(kinds, kind, lo, hi)| == 1
    ensures kinds[k] == kind <==> k == Positions(kinds, kind, lo, hi)[0]
  {
    var s := Positions(kinds, kind, lo, hi);
    assert s[0] in s;
  }

  /** A table ends at the next line with a bracket in front. */
  lemma {:induction false} TableEndBracket(kinds: seq<Kind>, i: nat)
    requires i <= |kinds|
    ensures var e := TableEnd(kinds, i); e < |kinds| ==> kinds[e].Header? || kinds[e].Bracket?
    decreases |kinds| - i
  {
    if i < |kinds| && !kinds[i].Header? && !kinds[i].Bracket? {
      TableEndBracket(kinds, i + 1);
    }
  }

  lemma {:induction false} KindMeans(line: string, name: string, key: string)
    ensures KindOf(line, name, key).Header? <==> Opens(line, name)
    ensures KindOf(line, name, key).Header? || KindOf(line, name, key).Bracket? <==> line != "" && line[0] == '['
    ensures (line == "" || line[0] != '[') ==> (KindOf(line, name, key).FieldLine? <==> Assigns(line, key))
  {
    OpensIff(line, name);
    AssignsIff(line, key);
    if IsHeader(line, name) {
      BracketedHeaders(line, name);
    }
  }

  /** A line of the table, by kinds. */
  ghost predicate Within(kinds: seq<Kind>, h: nat, i: nat) {
    h < i < |kinds| && i < TableEnd(kinds, h + 1)
  }

  lemma {:induction false} WithinIff(text: Text, name: string, key: string, h: nat, i: nat)
    requires h < i < |text|
    ensures Within(Kinds(text, name, key), h, i) <==> Inside(text, h, i)
  {
    var kinds := Kinds(text, name, key);
    TableEndBracket(kinds, h + 1);
    forall k | 0 <= k < |text| ensures kinds[k].Header? || kinds[k].Bracket? <==> text[k] != "" && text[k][0] == '[' {
      KindMeans(text[k], name, key);
    }
  }

  ghost predicate OnlyHeaderKind(kinds: seq<Kind>, h: nat) {
    h < |kinds| && forall k :: 0 <= k < |kinds| ==> (kinds[k] == Header <==> k == h)
  }

  ghost predicate OnlyFieldKind(kinds: seq<Kind>, h: nat, i: nat) {
    i < |kinds| && forall k :: 0 <= k < |kinds| ==> (Within(kinds, h, k) && kinds[k] == FieldLine <==> k == i)
  }

  lemma {:induction false} LocateKindsFinds(kinds: seq<Kind>, h: nat, i: nat)
    requires OnlyHeaderKind(kinds, h) && OnlyFieldKind(kinds, h, i)
    ensures LocateKinds(kinds) == Some(Place(h, i))
  {
    PositionsOne(kinds, Header, 0, |kinds|, h);
    assert Within(kinds, h, i);
    var e := TableEnd(kinds, h + 1);
    assert forall k :: h + 1 <= k < e ==> Within(kinds, h, k);
    PositionsOne(kinds, FieldLine, h + 1, e, i);
  }

  lemma {:induction false} LocateKindsFound(kinds: seq<Kind>, h: nat, i: nat)
    requires LocateKinds(kinds) == Some(Place(h, i))
    ensures OnlyHeaderKind(kinds, h) && OnlyFieldKind(kinds, h, i)
  {
    forall k | 0 <= k < |kinds| ensures kinds[k] == Header <==> k == h {
      PositionsSingle(kinds, Header, 0, |kinds|, k);
    }
    var e := TableEnd(kinds, h + 1);
    forall k | 0 <= k < |kinds| ensures Within(kinds, h, k) && kinds[k] == FieldLine <==> k == i {
      if h + 1 <= k < e {
        PositionsSingle(kinds, FieldLine, h + 1, e, k);
      }
    }
  }

  lemma {:induction false} OnlyTableIff(text: Text, name: string, key: string, h: nat)
    ensures OnlyHeaderKind(Kinds(text, name, key), h) <==> OnlyTable(text, name, h)
  {
    var kinds := Kinds(text, name, key);
    forall k | 0 <= k < |text| ensures kinds[k] == Header <==> Opens(text[k], name) {
      KindMeans(text[k], name, key);
    }
  }

  lemma {:induction false} OnlyFieldIff(text: Text, name: string, key: string, h: nat, i: nat)
    ensures OnlyFieldKind(Kinds(text, name, key), h, i) <==> OnlyField(text, key, h, i)
  {
    var kinds := Kinds(text, name, key);
    forall k | 0 <= k < |text| ensures Within(kinds, h, k) && kinds[k] == FieldLine <==> Inside(text, h, k) && Assigns(text[k], key) {
      if h < k {
        WithinIff(text, name, key, h, k);
        KindMeans(text[k], name, key);
      }
    }
  }

  /** A field is located exactly when one line opens its table and one line in it assigns
      to the key. */
  lemma {:induction false} LocateIff(text: Text, name: string, key: string, h: nat, i: nat)
    ensures Locate(text, name, key) == Some(Place(h, i)) <==> OnlyTable(text, name, h) && OnlyField(text, key, h, i)
  {
    var kinds := Kinds(text, name, key);
    OnlyTableIff(text, name, key, h);
    OnlyFieldIff(text, name, key, h, i);
    if OnlyHeaderKind(kinds, h) && OnlyFieldKind(kinds, h, i) {
      LocateKindsFinds(kinds, h, i);
    }
    if LocateKinds(kinds) == Some(Place(h, i)) {
      LocateKindsFound(kinds, h, i);
    }
  }

  // ----- what a rewrite leaves

  /** The one table has one line for the key, and that line gives it this value. */
  ghost predicate Says(text: Text, name: string, key: string, v: string) {
    exists h: nat, i: nat, at :: OnlyTable(text, name, h) && OnlyField(text, key, h, i) && Gives(text[i], key, at, v)
  }

  ghost predicate Gives(line: string, key: string, at: Span, v: string) {
    at.start <= at.end <= |line| && Assigned(line, key, at) && line[at.start..at.end] == v
  }

  /** Only the value on this line differs. */
  ghost predicate OnlyValueDiffers(before: Text, after: Text, i: nat, key: string, at: Span, v: string) {
    && i < |before| == |after| && at.start <= at.end <= |before[i]| && Assigned(before[i], key, at)
    && (forall k :: 0 <= k < |before| && k != i ==> after[k] == before[k])
    && after[i] == before[i][..at.start] + v + before[i][at.end..]
  }

  lemma {:induction false} LineGives(line: string, key: string, v: string)
    requires FieldSpan(line, key).Some? && Literal(v)
    ensures exists at :: Gives(Rewritten(line, key, v), key, at, v)
  {
    var at := FieldSpan(line, key).value;
    ReplacedSpan(line, key, v);
    ReplacedShape(line, at, v);
    FieldSpanIff(Rewritten(line, key, v), key, Span(at.start, at.start + |v|));
    assert Gives(Rewritten(line, key, v), key, Span(at.start, at.start + |v|), v);
  }

  /** A rewritten manifest says the new value. */
  lemma {:induction false} FieldSays(text: Text, name: string, key: string, v: string)
    requires Field(text, name, key, v).Some? && Literal(v) && key != "" && key[0] != '['
    ensures Says(Field(text, name, key, v).value, name, key, v)
  {
    var other := Field(text, name, key, v).value;
    var place := Locate(text, name, key).value;
    FieldTwice(text, name, key, v, v);
    LocateIff(other, name, key, place.header, place.line);
    LineGives(text[place.line], key, v);
  }

  /** A rewrite changes nothing but the value. */
  lemma {:induction false} FieldChanges(text: Text, name: string, key: string, v: string)
    requires Field(text, name, key, v).Some?
    ensures exists i, at :: OnlyValueDiffers(text, Field(text, name, key, v).value, i, key, at, v)
  {
    var i := Locate(text, name, key).value.line;
    var at := FieldSpan(text[i], key).value;
    FieldSpanIff(text[i], key, at);
    assert OnlyValueDiffers(text, Field(text, name, key, v).value, i, key, at, v);
  }

  /** Writing another field leaves what this one says. */
  lemma {:induction false} SaysStill(text: Text, n1: string, k1: string, v1: string, n2: string, k2: string, v2: string)
    requires Says(text, n1, k1, v1) && Field(text, n2, k2, v2).Some? && BareKey(k1) && BareKey(k2) && k1 != k2
    ensures Says(Field(text, n2, k2, v2).value, n1, k1, v1)
  {
    var other := Field(text, n2, k2, v2).value;
    var h: nat, i: nat, at :| OnlyTable(text, n1, h) && OnlyField(text, k1, h, i) && Gives(text[i], k1, at, v1);
    LocateIff(text, n1, k1, h, i);
    FieldKeepsOthers(text, n2, k2, v2, n1, k1);
    LocateIff(other, n1, k1, h, i);
    var j := Locate(text, n2, k2).value.line;
    KeyEnds(text[j], k2);
    OtherKeyAbsent(text[j], k2, k1);
    FieldSpanIff(text[i], k1, at);
    assert i != j && other[i] == text[i];
  }
}
