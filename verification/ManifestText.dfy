/** scripts/release/version.py: `table` and `field`, which rewrite one `key = value`
    line of one table of a Cargo manifest. A manifest is the list of its lines. */
module ManifestText {
  import opened DecimalText
  import opened Options

  type Text = seq<string>

  predicate Blank(c: char) { c == ' ' || c == '\t' }

  /** First position from `i` on that is not a blank, or a quote. */
  function SkipBlanks(s: string, i: nat): (j: nat)
    requires i <= |s|
    ensures i <= j <= |s| && (forall k :: i <= k < j ==> Blank(s[k])) && (j < |s| ==> !Blank(s[j]))
    decreases |s| - i
  {
    if i == |s| || !Blank(s[i]) then i else SkipBlanks(s, i + 1)
  }

  function FindQuote(s: string, i: nat): (j: nat)
    requires i <= |s|
    ensures i <= j <= |s| && (forall k :: i <= k < j ==> s[k] != '"') && (j < |s| ==> s[j] == '"')
    decreases |s| - i
  {
    if i == |s| || s[i] == '"' then i else FindQuote(s, i + 1)
  }

  // ----- one line: key, "=", a quoted string or a number, an optional comment

  /** Where the value of `key = value` starts, if the line starts that way. */
  function ValueStart(line: string, key: string): (r: Option<nat>)
    ensures r.Some? ==> key <= line && |key| < r.value <= |line|
  {
    if !(key <= line) then None
    else
      var eq := SkipBlanks(line, |key|);
      if eq == |line| || line[eq] != '=' then None else Some(SkipBlanks(line, eq + 1))
  }

  /** Where the quoted string or number at `start` ends; `start` if there is none. */
  function ValueEnd(line: string, start: nat): (end: nat)
    requires start <= |line|
    ensures start <= end <= |line|
  {
    if start == |line| then start
    else if line[start] == '"' then (var q := FindQuote(line, start + 1); if q < |line| then q + 1 else start)
    else SkipDigits(line, start)
  }

  /** Blanks and then nothing or a comment. */
  predicate Trails(line: string, end: nat)
    requires end <= |line|
  {
    var n := SkipBlanks(line, end);
    n == |line| || line[n] == '#'
  }

  /** The span of the value of a field line. */
  datatype Span = Span(start: nat, end: nat)

  function FieldSpan(line: string, key: string): (r: Option<Span>)
    ensures r.Some? ==> key <= line && |key| < r.value.start < r.value.end <= |line|
  {
    var start := ValueStart(line, key);
    if start.None? then None
    else
      var end := ValueEnd(line, start.value);
      if end == start.value || !Trails(line, end) then None else Some(Span(start.value, end))
  }

  function Replaced(line: string, at: Span, v: string): string
    requires at.start <= at.end <= |line|
  {
    line[..at.start] + v + line[at.end..]
  }

  /** A quoted string without quotes inside, or a number. */
  predicate Literal(v: string) {
    && |v| > 0
    && (if v[0] == '"' then |v| >= 2 && v[|v| - 1] == '"' && (forall i :: 0 < i < |v| - 1 ==> v[i] != '"')
        else forall i :: 0 <= i < |v| ==> Digit(v[i]))
  }

  lemma {:induction false} SkipUnique(s: string, i: nat, j: nat)
    requires i <= j <= |s| && (forall k :: i <= k < j ==> Blank(s[k])) && (j < |s| ==> !Blank(s[j]))
    ensures SkipBlanks(s, i) == j
  {
  }

  /** The start of the value depends on the text before it only. */
  lemma {:induction false} SameStart(line: string, other: string, key: string, n: nat)
    requires ValueStart(line, key) == Some(n) && n < |other| && !Blank(other[n])
    requires forall i :: 0 <= i < n ==> other[i] == line[i]
    ensures ValueStart(other, key) == Some(n)
  {
    var eq := SkipBlanks(line, |key|);
    SkipUnique(other, |key|, eq);
    SkipUnique(other, eq + 1, n);
  }

  lemma {:induction false} SameTrail(line: string, other: string, end: nat, end': nat)
    requires end <= |line| && end' <= |other| && line[end..] == other[end'..]
    ensures Trails(line, end) <==> Trails(other, end')
  {
    var n := SkipBlanks(line, end);
    assert forall k :: end <= k < |line| ==> line[k] == line[end..][k - end] == other[k - end + end'];
    SkipUnique(other, end', n - end + end');
  }

  lemma {:induction false} LiteralEnds(other: string, start: nat, v: string)
    requires Literal(v) && start + |v| <= |other| && other[start..start + |v|] == v && Trails(other, start + |v|)
    ensures ValueEnd(other, start) == start + |v|
  {
    var end := start + |v|;
    if v[0] == '"' {
      assert other[end - 1] == v[|v| - 1];
      assert forall k :: start < k < end - 1 ==> other[k] == v[k - start];
    } else {
      assert forall k :: start <= k < end ==> other[k] == v[k - start];
    }
  }

  lemma {:induction false} ReplacedShape(line: string, at: Span, v: string)
    requires at.start <= at.end <= |line|
    ensures var other, end := Replaced(line, at, v), at.start + |v|;
            end <= |other| && other[..at.start] == line[..at.start] && other[at.start..end] == v && other[end..] == line[at.end..]
  {
  }

  lemma {:induction false} SpanStart(line: string, other: string, key: string, n: nat, v: string)
    requires ValueStart(line, key) == Some(n) && Literal(v) && n + |v| <= |other|
    requires other[..n] == line[..n] && other[n..n + |v|] == v
    ensures ValueStart(other, key) == Some(n)
  {
    assert other[n] == other[n..n + |v|][0];
    forall i | 0 <= i < n ensures other[i] == line[i] {
      assert other[i] == other[..n][i] && line[i] == line[..n][i];
    }
    SameStart(line, other, key, n);
  }

  lemma {:induction false} SpanTail(line: string, other: string, at: Span, v: string)
    requires at.start <= at.end <= |line| && Trails(line, at.end) && Literal(v) && at.start + |v| <= |other|
    requires other[at.start..at.start + |v|] == v && other[at.start + |v|..] == line[at.end..]
    ensures Trails(other, at.start + |v|) && ValueEnd(other, at.start) == at.start + |v|
  {
    SameTrail(line, other, at.end, at.start + |v|);
    LiteralEnds(other, at.start, v);
  }

  lemma {:induction false} MakeSpan(line: string, key: string, start: nat, end: nat)
    requires ValueStart(line, key) == Some(start) && ValueEnd(line, start) == end && end > start && Trails(line, end)
    ensures FieldSpan(line, key) == Some(Span(start, end))
  {
  }

  /** Replacing the value leaves a field line whose value is the new one. */
  lemma {:induction false} ReplacedSpan(line: string, key: string, v: string)
    requires FieldSpan(line, key).Some? && Literal(v)
    ensures var at := FieldSpan(line, key).value;
            FieldSpan(Replaced(line, at, v), key) == Some(Span(at.start, at.start + |v|))
  {
    ReplacedShape(line, FieldSpan(line, key).value, v);
    SpanOfShape(line, Replaced(line, FieldSpan(line, key).value, v), key, FieldSpan(line, key).value, v);
  }

  lemma {:induction false} SpanOfShape(line: string, other: string, key: string, at: Span, v: string)
    requires FieldSpan(line, key) == Some(at) && Literal(v) && at.start + |v| <= |other|
    requires other[..at.start] == line[..at.start] && other[at.start..at.start + |v|] == v && other[at.start + |v|..] == line[at.end..]
    ensures FieldSpan(other, key) == Some(Span(at.start, at.start + |v|))
  {
    SpanStart(line, other, key, at.start, v);
    SpanTail(line, other, at, v);
    MakeSpan(other, key, at.start, at.start + |v|);
  }

  /** Replacing again gives the same line. */
  lemma {:induction false} ReplacedTwice(line: string, at: Span, v: string, w: string)
    requires at.start <= at.end <= |line|
    ensures Replaced(Replaced(line, at, v), Span(at.start, at.start + |v|), w) == Replaced(line, at, w)
  {
    var other := Replaced(line, at, v);
    assert other[..at.start] == line[..at.start] && other[at.start + |v|..] == line[at.end..];
  }

  // ----- one table of the manifest

  predicate Bracketed(line: string) {
    line != "" && line[0] == '['
  }

  /** `[name]` at the start of the line, then blanks. */
  predicate IsHeader(line: string, name: string) {
    var head := "[" + name + "]";
    head <= line && SkipBlanks(line, |head|) == |line|
  }

  /** What a line is to a search for `key` in table `name`. */
  datatype Kind = Header | Bracket | FieldLine | Other

  function KindOf(line: string, name: string, key: string): Kind {
    if IsHeader(line, name) then Header
    else if Bracketed(line) then Bracket
    else if FieldSpan(line, key).Some? then FieldLine
    else Other
  }

  function Kinds(text: Text, name: string, key: string): (kinds: seq<Kind>)
    ensures |kinds| == |text| && forall i :: 0 <= i < |text| ==> kinds[i] == KindOf(text[i], name, key)
  {
    seq(|text|, i requires 0 <= i < |text| => KindOf(text[i], name, key))
  }

  /** Positions of one kind in a range. */
  function Positions(kinds: seq<Kind>, k: Kind, lo: nat, hi: nat): (s: seq<nat>)
    requires lo <= hi <= |kinds|
    ensures forall i :: i in s <==> lo <= i < hi && kinds[i] == k
    decreases hi - lo
  {
    if lo == hi then [] else Positions(kinds, k, lo, hi - 1) + if kinds[hi - 1] == k then [hi - 1] else []
  }

  /** The table ends before the next line that starts with a bracket. */
  function TableEnd(kinds: seq<Kind>, i: nat): (j: nat)
    requires i <= |kinds|
    ensures i <= j <= |kinds| && forall k :: i <= k < j ==> !kinds[k].Header? && !kinds[k].Bracket?
    decreases |kinds| - i
  {
    if i == |kinds| || kinds[i].Header? || kinds[i].Bracket? then i else TableEnd(kinds, i + 1)
  }

  /** The header of the only such table, and its only field line. */
  datatype Place = Place(header: nat, line: nat)

  function LocateKinds(kinds: seq<Kind>): (r: Option<Place>)
    ensures r.Some? ==>
      && r.value.header < r.value.line < |kinds| && kinds[r.value.header].Header? && kinds[r.value.line].FieldLine?
      && forall k :: r.value.header < k <= r.value.line ==> !kinds[k].Header? && !kinds[k].Bracket?
  {
    var headers := Positions(kinds, Header, 0, |kinds|);
    if |headers| != 1 then None
    else
      assert headers[0] in headers;
      var fields := Positions(kinds, FieldLine, headers[0] + 1, TableEnd(kinds, headers[0] + 1));
      if |fields| != 1 then None
      else
        assert fields[0] in fields;
        Some(Place(headers[0], fields[0]))
  }

  /** The one line that holds `key` in the one table `name`, if there is one of each. */
  function Locate(text: Text, name: string, key: string): (r: Option<Place>)
    ensures r.Some? ==> r.value.header < r.value.line < |text| && FieldSpan(text[r.value.line], key).Some?
  {
    LocateKinds(Kinds(text, name, key))
  }

  /** `field`: the manifest with that value replaced, or nothing where the source raises. */
  function Field(text: Text, name: string, key: string, v: string): Option<Text> {
    var at := Locate(text, name, key);
    if at.None? then None
    else
      var i := at.value.line;
      Some(text[i := Replaced(text[i], FieldSpan(text[i], key).value, v)])
  }

  lemma {:induction false} BracketedHeaders(line: string, name: string)
    requires IsHeader(line, name)
    ensures Bracketed(line)
  {
    assert ("[" + name + "]")[0] == '[';
  }

  lemma {:induction false} ReplacedHead(line: string, key: string, v: string)
    requires key != "" && key[0] != '[' && FieldSpan(line, key).Some?
    ensures var other := Replaced(line, FieldSpan(line, key).value, v);
            other != "" && line != "" && other[0] == line[0] == key[0]
  {
    assert line[0] == key[0];
  }

  lemma {:induction false} KindByHead(line: string, name: string, key: string)
    requires line != "" && line[0] != '['
    ensures KindOf(line, name, key) == if FieldSpan(line, key).Some? then FieldLine else Other
  {
    if IsHeader(line, name) {
      BracketedHeaders(line, name);
    }
  }

  /** A key without quotes around it: no blank and no equals sign. */
  ghost predicate BareKey(key: string) {
    key != "" && key[0] != '[' && forall i :: 0 <= i < |key| ==> !Blank(key[i]) && key[i] != '='
  }

  /** The line starts with this key, and the key ends there. */
  ghost predicate StartsWithKey(line: string, key: string) {
    key <= line && |key| < |line| && (Blank(line[|key|]) || line[|key|] == '=')
  }

  lemma {:induction false} OneKeyOnly(line: string, key: string, key': string)
    requires BareKey(key) && BareKey(key') && StartsWithKey(line, key) && StartsWithKey(line, key')
    ensures key == key'
  {
    assert line[..|key|] == key && line[..|key'|] == key';
  }

  lemma {:induction false} KeyEnds(line: string, key: string)
    requires ValueStart(line, key).Some?
    ensures StartsWithKey(line, key)
  {
    var eq := SkipBlanks(line, |key|);
    assert eq == |key| || Blank(line[|key|]);
  }

  /** A line that starts with one key is not a field of another. */
  lemma {:induction false} OtherKeyAbsent(line: string, key: string, key': string)
    requires BareKey(key) && BareKey(key') && key != key' && StartsWithKey(line, key)
    ensures FieldSpan(line, key').None?
  {
    if ValueStart(line, key').Some? {
      KeyEnds(line, key');
      OneKeyOnly(line, key, key');
    }
  }

  lemma {:induction false} ReplacedKey(line: string, key: string, v: string)
    requires FieldSpan(line, key).Some?
    ensures var other := Replaced(line, FieldSpan(line, key).value, v);
            StartsWithKey(line, key) && StartsWithKey(other, key)
  {
    KeyEnds(line, key);
    var at := FieldSpan(line, key).value;
    assert Replaced(line, at, v)[..at.start] == line[..at.start];
    assert line[..|key|] == line[..at.start][..|key|];
  }

  lemma {:induction false} SameKinds(a: Text, b: Text, i: nat, name: string, key: string)
    requires i < |a| && |b| == |a| && (forall j :: 0 <= j < |a| && j != i ==> a[j] == b[j])
    requires KindOf(a[i], name, key) == KindOf(b[i], name, key)
    ensures Locate(a, name, key) == Locate(b, name, key)
  {
    assert Kinds(a, name, key) == Kinds(b, name, key);
  }

  /** Writing one field leaves every other field where it was. */
  lemma {:induction false} FieldKeepsOthers(text: Text, name: string, key: string, v: string, name': string, key': string)
    requires Field(text, name, key, v).Some? && BareKey(key) && BareKey(key') && key != key'
    ensures Locate(Field(text, name, key, v).value, name', key') == Locate(text, name', key')
  {
    var i := Locate(text, name, key).value.line;
    var other := Field(text, name, key, v).value;
    ReplacedHead(text[i], key, v);
    KindByHead(text[i], name', key');
    KindByHead(other[i], name', key');
    ReplacedKey(text[i], key, v);
    OtherKeyAbsent(text[i], key, key');
    OtherKeyAbsent(other[i], key, key');
    SameKinds(text, other, i, name', key');
  }

  /** Writing a field again leaves it at its place, with the later value. */
  lemma {:induction false} FieldTwice(text: Text, name: string, key: string, v: string, w: string)
    requires Field(text, name, key, v).Some? && Literal(v) && key != "" && key[0] != '['
    ensures Locate(Field(text, name, key, v).value, name, key) == Locate(text, name, key)
    ensures Field(Field(text, name, key, v).value, name, key, w) == Field(text, name, key, w)
  {
    var i := Locate(text, name, key).value.line;
    var at := FieldSpan(text[i], key).value;
    var other := Field(text, name, key, v).value;
    ReplacedHead(text[i], key, v);
    ReplacedSpan(text[i], key, v);
    KindByHead(text[i], name, key);
    KindByHead(other[i], name, key);
    SameKinds(text, other, i, name, key);
    ReplacedTwice(text[i], at, v, w);
    assert other[i := Replaced(text[i], at, w)] == text[i := Replaced(text[i], at, w)];
  }

  /** A manifest that already holds the value is left alone. */
  lemma {:induction false} FieldFixed(text: Text, name: string, key: string, v: string)
    requires Field(text, name, key, v).Some? && Literal(v) && key != "" && key[0] != '['
    ensures Field(Field(text, name, key, v).value, name, key, v) == Field(text, name, key, v)
  {
    FieldTwice(text, name, key, v, v);
  }

  /** Writing another field does not disturb one that already holds its value. */
  lemma {:induction false} FixedAfterOther(once: Text, n1: string, k1: string, v1: string, n2: string, k2: string, v2: string)
    requires Field(once, n1, k1, v1) == Some(once) && Field(once, n2, k2, v2).Some?
    requires BareKey(k1) && BareKey(k2) && k1 != k2
    ensures Field(Field(once, n2, k2, v2).value, n1, k1, v1) == Field(once, n2, k2, v2)
  {
    FieldKeepsOthers(once, n2, k2, v2, n1, k1);
    var twice := Field(once, n2, k2, v2).value;
    var i, j := Locate(once, n1, k1).value.line, Locate(once, n2, k2).value.line;
    KeyEnds(once[j], k2);
    OtherKeyAbsent(once[j], k2, k1);
    assert i != j && twice[i] == once[i];
    assert once[i := Replaced(once[i], FieldSpan(once[i], k1).value, v1)][i] == once[i];
    assert twice[i := twice[i]] == twice;
  }

  /** A field line with its value replaced; any other line as it is. */
  function Rewritten(line: string, key: string, v: string): string {
    var at := FieldSpan(line, key);
    if at.None? then line else Replaced(line, at.value, v)
  }

  /** Writing two fields changes two lines, each as writing that field alone does. */
  lemma {:induction false} BothFields(text: Text, n1: string, k1: string, v1: string, n2: string, k2: string, v2: string)
    requires BareKey(k1) && BareKey(k2) && k1 != k2
    requires Field(text, n1, k1, v1).Some? && Field(Field(text, n1, k1, v1).value, n2, k2, v2).Some?
    ensures Locate(text, n1, k1).Some? && Locate(text, n2, k2).Some?
    ensures var i, j := Locate(text, n1, k1).value.line, Locate(text, n2, k2).value.line;
            && i != j
            && Field(Field(text, n1, k1, v1).value, n2, k2, v2).value ==
               text[i := Rewritten(text[i], k1, v1)][j := Rewritten(text[j], k2, v2)]
  {
    FieldKeepsOthers(text, n1, k1, v1, n2, k2);
    var i, j := Locate(text, n1, k1).value.line, Locate(text, n2, k2).value.line;
    KeyEnds(text[i], k1);
    OtherKeyAbsent(text[i], k1, k2);
  }

  // ----- lines made up of a key and a value

  lemma {:induction false} PlainField(key: string, v: string)
    requires Literal(v)
    ensures FieldSpan(key + "=" + v, key) == Some(Span(|key| + 1, |key| + 1 + |v|))
  {
    var line := key + "=" + v;
    assert line[..|key|] == key && line[|key|] == '=' && line[|key| + 1] == v[0];
    assert SkipBlanks(line, |key|) == |key| && SkipBlanks(line, |key| + 1) == |key| + 1;
    assert line[|key| + 1..|key| + 1 + |v|] == v && SkipBlanks(line, |line|) == |line|;
    LiteralEnds(line, |key| + 1, v);
  }

  lemma {:induction false} PlainFieldRewritten(key: string, v: string, w: string)
    requires Literal(v)
    ensures Rewritten(key + "=" + v, key, w) == key + "=" + w
  {
    PlainField(key, v);
    var line := key + "=" + v;
    assert line[..|key| + 1] == key + "=" && line[|key| + 1 + |v|..] == "";
  }

  lemma {:induction false} PlainHeader(name: string)
    ensures IsHeader("[" + name + "]", name)
  {
  }
}
