/** scripts/release/linux-wayland-geometry-broker.c, `parse_rect`: five comma-separated
    numbers read with `g_ascii_strtoll`. Its 64-bit saturation needs no modelling, as
    saturated values are out of range like the values they stand for. */
module RectangleText {
  import opened DecimalText
  import opened Options

  datatype Rect = Rect(x: int, y: int, width: int, height: int)

  predicate Space(c: char) { c == ' ' || '\t' <= c <= '\r' }

  predicate InRange(v: int) { -32768 <= v <= 32768 }

  function SkipSpace(s: string, i: nat): (j: nat)
    requires i <= |s|
    ensures i <= j <= |s| && (j < |s| ==> !Space(s[j]))
    decreases |s| - i
  {
    if i == |s| || !Space(s[i]) then i else SkipSpace(s, i + 1)
  }

  function DigitValue(c: char): nat
    requires Digit(c)
  {
    c as int - '0' as int
  }

  function ValueOf(s: string, p: nat, q: nat): nat
    requires p <= q <= |s| && forall k :: p <= k < q ==> Digit(s[k])
    decreases q
  {
    if p == q then 0 else ValueOf(s, p, q - 1) * 10 + DigitValue(s[q - 1])
  }

  datatype Scan = Scan(value: int, end: nat)

  /** The digits from `p` on as a number; none if there are no digits. */
  function Unsigned(s: string, p: nat): (r: Option<Scan>)
    requires p <= |s|
    ensures r.Some? ==> p < r.value.end <= |s|
  {
    var end := SkipDigits(s, p);
    if p == end then None else Some(Scan(ValueOf(s, p, end), end))
  }

  /** The number at `p` and where it ends. Without digits it is zero and ends at `p`. */
  function Number(s: string, p: nat): (r: Scan)
    requires p <= |s|
    ensures p <= r.end <= |s|
  {
    var start := SkipSpace(s, p);
    var signed := start < |s| && (s[start] == '-' || s[start] == '+');
    var digits := Unsigned(s, if signed then start + 1 else start);
    if digits.None? then Scan(0, p)
    else if signed && s[start] == '-' then digits.value.(value := -digits.value.value)
    else digits.value
  }

  /** How one number is read from a position of a text. */
  type Lexer = nat -> Scan

  function LexerOf(s: string): Lexer {
    (p: nat) => if p <= |s| then Number(s, p) else Scan(0, p)
  }

  /** White space in front of a number is passed over. */
  lemma {:induction false} SpacePassedOver(s: string, p: nat, q: nat)
    requires p <= q <= |s| && forall k :: p <= k < q ==> (s[k] == ' ' || 9 <= s[k] as int <= 13)
    requires Number(s, q).end > q
    ensures Number(s, p) == Number(s, q)
  {
    SameStart(s, p, q);
  }

  lemma {:induction false} SameStart(s: string, p: nat, q: nat)
    requires p <= q <= |s| && forall k :: p <= k < q ==> (s[k] == ' ' || 9 <= s[k] as int <= 13)
    ensures SkipSpace(s, p) == SkipSpace(s, q)
    decreases q - p
  {
    if p < q {
      SameStart(s, p + 1, q);
    }
  }

  /** Five numbers in range, `done` and those from `p` to the end of the text. */
  function Numbers(next: Lexer, s: string, p: nat, done: seq<int>): (r: Option<seq<int>>)
    requires |done| < 5 && forall i :: 0 <= i < |done| ==> InRange(done[i])
    ensures r.Some? ==> |r.value| == 5 && forall i :: 0 <= i < 5 ==> InRange(r.value[i])
    decreases 5 - |done|
  {
    var scan := next(p);
    var now := done + [scan.value];
    if !InRange(scan.value) then None
    else if |now| == 5 then if scan.end == |s| then Some(now) else None
    else if scan.end >= |s| || s[scan.end] != ',' then None
    else Numbers(next, s, scan.end + 1, now)
  }

  /** A rectangle in range and of positive size, with its stacking position. */
  predicate Drawable(r: Rect, stacking: int) {
    InRange(r.x) && InRange(r.y) && 0 < r.width <= 32768 && 0 < r.height <= 32768 && InRange(stacking)
  }

  function RectOf(s: string): Option<(Rect, int)> {
    var vs := Numbers(LexerOf(s), s, 0, []);
    if vs.None? || vs.value[2] <= 0 || vs.value[3] <= 0 then None
    else Some((Rect(vs.value[0], vs.value[1], vs.value[2], vs.value[3]), vs.value[4]))
  }

  /** The cursor loop of `parse_rect`, for any way of reading a number. */
  method ReadNumbers(next: Lexer, text: string) returns (r: Option<seq<int>>)
    requires forall p: nat :: p <= |text| ==> next(p).end <= |text|
    ensures r == Numbers(next, text, 0, [])
  {
    var output: seq<int> := [];
    var start, end := 0, 0;
    for index := 0 to 5
      invariant |output| == index && 0 <= start <= |text| && 0 <= end <= |text|
      invariant forall i :: 0 <= i < index ==> InRange(output[i])
      invariant Numbers(next, text, 0, []) == if index < 5 then Numbers(next, text, start, output)
                                              else if end == |text| then Some(output) else None
    {
      var scan := next(start);
      if (index < 4 && (scan.end == |text| || text[scan.end] != ',')) || !InRange(scan.value) {
        return None;
      }
      if index < 4 {
        start := scan.end + 1;
      }
      output, end := output + [scan.value], scan.end;
    }
    return if end == |text| then Some(output) else None;
  }

  method ParseRect(text: string) returns (r: Option<(Rect, int)>)
    ensures r == RectOf(text)
    ensures r.Some? ==> Drawable(r.value.0, r.value.1)
  {
    var output := ReadNumbers(LexerOf(text), text);
    if output.None? || output.value[2] <= 0 || output.value[3] <= 0 {
      return None;
    }
    return Some((Rect(output.value[0], output.value[1], output.value[2], output.value[3]), output.value[4]));
  }

  // ----- printing, as the compositor script joins the numbers

  function Signed(v: int): (s: string)
    ensures |s| > 0
  {
    if v < 0 then "-" + Decimal(-v) else Decimal(v)
  }

  function Joined(parts: seq<string>): string
    requires parts != []
  {
    if |parts| == 1 then parts[0] else parts[0] + "," + Joined(parts[1..])
  }

  function SignedAll(vs: seq<int>): seq<string> {
    seq(|vs|, i requires 0 <= i < |vs| => Signed(vs[i]))
  }

  function Printed(r: Rect, stacking: int): string {
    Joined(SignedAll([r.x, r.y, r.width, r.height, stacking]))
  }

  ghost predicate At(s: string, p: nat, part: string) {
    p + |part| <= |s| && s[p..p + |part|] == part
  }

  lemma {:induction false} AtParts(s: string, p: nat, a: string, b: string)
    requires At(s, p, a + b)
    ensures At(s, p, a) && At(s, p + |a|, b)
  {
    var part := s[p..p + |a + b|];
    assert s[p..p + |a|] == part[..|a|] == a;
    assert s[p + |a|..p + |a| + |b|] == part[|a|..] == b;
  }

  lemma {:induction false} AtIndex(s: string, p: nat, part: string, k: nat)
    requires At(s, p, part) && k < |part|
    ensures s[p + k] == part[k]
  {
    assert s[p..p + |part|][k] == part[k];
  }

  lemma {:induction false} ValueOfDecimal(s: string, p: nat, n: nat)
    requires At(s, p, Decimal(n))
    ensures forall k :: p <= k < p + |Decimal(n)| ==> Digit(s[k])
    ensures ValueOf(s, p, p + |Decimal(n)|) == n
    decreases n
  {
    var d := Decimal(n);
    forall k | p <= k < p + |d| ensures Digit(s[k]) {
      AtIndex(s, p, d, k - p);
    }
    AtIndex(s, p, d, |d| - 1);
    if n >= 10 {
      AtParts(s, p, Decimal(n / 10), [('0' as int + n % 10) as char]);
      ValueOfDecimal(s, p, n / 10);
    }
  }

  lemma {:induction false} DigitsEnd(s: string, p: nat, q: nat)
    requires p <= q <= |s| && (forall k :: p <= k < q ==> Digit(s[k])) && (q < |s| ==> !Digit(s[q]))
    ensures SkipDigits(s, p) == q
  {
  }

  lemma {:induction false} UnsignedOfDecimal(s: string, p: nat, n: nat)
    requires At(s, p, Decimal(n))
    requires p + |Decimal(n)| < |s| ==> !Digit(s[p + |Decimal(n)|])
    ensures Unsigned(s, p) == Some(Scan(n, p + |Decimal(n)|)) && Digit(s[p])
  {
    ValueOfDecimal(s, p, n);
    DigitsEnd(s, p, p + |Decimal(n)|);
  }

  /** Reading a printed number gives it back and stops right behind it. */
  lemma {:induction false} NumberOfSigned(s: string, p: nat, v: int)
    requires At(s, p, Signed(v)) && (p + |Signed(v)| < |s| ==> !Digit(s[p + |Signed(v)|]))
    ensures Number(s, p) == Scan(v, p + |Signed(v)|)
  {
    if v < 0 {
      AtParts(s, p, "-", Decimal(-v));
      AtIndex(s, p, "-", 0);
      UnsignedOfDecimal(s, p + 1, -v);
    } else {
      UnsignedOfDecimal(s, p, v);
    }
  }

  /** A plus sign changes nothing. */
  lemma {:induction false} NumberOfPlus(s: string, p: nat, n: nat)
    requires At(s, p, "+" + Decimal(n)) && (p + 1 + |Decimal(n)| < |s| ==> !Digit(s[p + 1 + |Decimal(n)|]))
    ensures Number(s, p) == Scan(n, p + 1 + |Decimal(n)|)
  {
    AtParts(s, p, "+", Decimal(n));
    AtIndex(s, p, "+", 0);
    UnsignedOfDecimal(s, p + 1, n);
  }

  /** The text from `p` on is the parts from the `k`th on. */
  ghost predicate SpellsFrom(s: string, p: nat, parts: seq<string>, k: nat) {
    k < |parts| && At(s, p, Joined(parts[k..])) && p + |Joined(parts[k..])| == |s|
  }

  /** The `k`th number is read from its place, up to a comma or the end of the text. */
  ghost predicate ReadAt(next: Lexer, s: string, vs: seq<int>, ends: seq<nat>, k: nat)
    requires k < |ends| <= |vs|
  {
    && next(Place(ends, k)) == Scan(vs[k], ends[k])
    && (if k + 1 == |vs| then ends[k] == |s| else ends[k] < |s| && s[ends[k]] == ',')
  }

  ghost function Place(ends: seq<nat>, k: nat): nat
    requires k <= |ends|
  {
    if k == 0 then 0 else ends[k - 1] + 1
  }

  /** Wherever the part stands before a comma or at the end, its number is read. */
  ghost predicate Understands(next: Lexer, s: string, part: string, v: int) {
    forall p: nat :: At(s, p, part) ==> (p + |part| < |s| ==> s[p + |part|] == ',') ==> next(p) == Scan(v, p + |part|)
  }

  lemma {:induction false} SignedUnderstood(s: string, v: int, part: string)
    requires part == Signed(v)
    ensures Understands(LexerOf(s), s, part, v)
  {
    forall p: nat | At(s, p, part) && (p + |part| < |s| ==> s[p + |part|] == ',')
      ensures LexerOf(s)(p) == Scan(v, p + |part|)
    {
      NumberOfSigned(s, p, v);
    }
  }

  lemma {:induction false} JoinedReads(next: Lexer, s: string, parts: seq<string>, vs: seq<int>) returns (ends: seq<nat>)
    requires SpellsFrom(s, 0, parts, 0) && |parts| == |vs| && forall k :: 0 <= k < |vs| ==> Understands(next, s, parts[k], vs[k])
    ensures |ends| == |vs| && forall k :: 0 <= k < |vs| ==> ReadAt(next, s, vs, ends, k)
  {
    ends := [];
    while |ends| < |vs|
      invariant |ends| <= |vs| && forall k :: 0 <= k < |ends| ==> ReadAt(next, s, vs, ends, k)
      invariant |ends| < |vs| ==> SpellsFrom(s, Place(ends, |ends|), parts, |ends|)
    {
      var p := Place(ends, |ends|);
      var end := SpellsNext(s, p, parts, |ends|);
      ReadsKept(next, s, vs, ends, end);
      ends := ends + [end];
    }
  }

  lemma {:induction false} ReadsKept(next: Lexer, s: string, vs: seq<int>, ends: seq<nat>, end: nat)
    requires |ends| < |vs| && forall k :: 0 <= k < |ends| ==> ReadAt(next, s, vs, ends, k)
    requires next(Place(ends, |ends|)) == Scan(vs[|ends|], end)
    requires if |ends| + 1 == |vs| then end == |s| else end < |s| && s[end] == ','
    ensures forall k :: 0 <= k < |ends| + 1 ==> ReadAt(next, s, vs, ends + [end], k)
  {
    forall k | 0 <= k < |ends| + 1 ensures ReadAt(next, s, vs, ends + [end], k) {
      assert Place(ends + [end], k) == Place(ends, k);
      if k < |ends| {
        assert ReadAt(next, s, vs, ends, k);
      }
    }
  }

  lemma {:induction false} NumbersOfReads(next: Lexer, s: string, vs: seq<int>, ends: seq<nat>)
    requires |ends| == |vs| == 5 && forall k :: 0 <= k < 5 ==> ReadAt(next, s, vs, ends, k)
    ensures Numbers(next, s, 0, []) == if forall i :: 0 <= i < 5 ==> -32768 <= vs[i] <= 32768 then Some(vs) else None
  {
    var k := 0;
    assert vs[..0] == [];
    while k < 4 && InRange(vs[k])
      invariant 0 <= k <= 4 && forall i :: 0 <= i < k ==> InRange(vs[i])
      invariant Numbers(next, s, 0, []) == Numbers(next, s, Place(ends, k), vs[..k])
    {
      assert ReadAt(next, s, vs, ends, k);
      TakeOne(vs, k);
      k := k + 1;
    }
    assert ReadAt(next, s, vs, ends, k);
    TakeOne(vs, k);
  }

  lemma {:induction false} TakeOne(vs: seq<int>, k: nat)
    requires k < |vs|
    ensures vs[..k] + [vs[k]] == vs[..k + 1] && (k + 1 == |vs| ==> vs[..k + 1] == vs)
  {
  }

  lemma {:induction false} SpellsNext(s: string, p: nat, parts: seq<string>, k: nat) returns (end: nat)
    requires SpellsFrom(s, p, parts, k)
    ensures At(s, p, parts[k]) && end == p + |parts[k]| && end <= |s| && (end == |s| <==> k + 1 == |parts|)
    ensures end < |s| ==> s[end] == ',' && SpellsFrom(s, end + 1, parts, k + 1)
  {
    end := p + |parts[k]|;
    if k + 1 < |parts| {
      assert parts[k..][1..] == parts[k + 1..];
      AtComma(s, p, parts[k], Joined(parts[k + 1..]));
    }
  }

  lemma {:induction false} AtComma(s: string, p: nat, a: string, b: string)
    requires At(s, p, a + "," + b) && p + |a + "," + b| == |s|
    ensures At(s, p, a) && p + |a| < |s| && s[p + |a|] == ',' && At(s, p + |a| + 1, b) && p + |a| + 1 + |b| == |s|
  {
    AtParts(s, p, a + ",", b);
    AtParts(s, p, a, ",");
    AtIndex(s, p + |a|, ",", 0);
  }

  /** Parsing inverts printing, for exactly the rectangles with numbers in range and a
      positive size. */
  lemma {:induction false} ParsingInvertsPrinting(r: Rect, stacking: int)
    ensures RectOf(Printed(r, stacking)) ==
            if && -32768 <= r.x <= 32768 && -32768 <= r.y <= 32768 && 0 < r.width <= 32768 && 0 < r.height <= 32768
               && -32768 <= stacking <= 32768
            then Some((r, stacking)) else None
  {
    var vs := [r.x, r.y, r.width, r.height, stacking];
    var parts := SignedAll(vs);
    assert parts[0..] == parts;
    forall k | 0 <= k < |vs| ensures Understands(LexerOf(Joined(parts)), Joined(parts), parts[k], vs[k]) {
      SignedUnderstood(Joined(parts), vs[k], parts[k]);
    }
    var ends := JoinedReads(LexerOf(Joined(parts)), Joined(parts), parts, vs);
    NumbersOfReads(LexerOf(Joined(parts)), Joined(parts), vs, ends);
  }

  /** Parsing also accepts texts that are not printed: a missing number reads as zero. */
  lemma {:induction false} MissingNumberIsZero(s: string, p: nat)
    requires p <= |s| && (p < |s| ==> s[p] == ',')
    ensures Number(s, p) == Scan(0, p)
  {
  }
}
