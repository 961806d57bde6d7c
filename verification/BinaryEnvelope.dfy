/** crates/copypaste-core/src/binary.rs: the chunked, encrypted binary payload. The
    ciphers and the digest are given as functions with the laws the format relies on. */
module BinaryEnvelope {
  import opened Options

  type byte = x: int | 0 <= x < 256
  type Bytes = seq<byte>

  /** What one chunk of a stream is bound to: key, stream nonce, item id and envelope
      header, its position, and whether it is the last. */
  datatype Slot = Slot(key: Bytes, nonce: Bytes, id: Bytes, header: Bytes, index: nat, last: bool)

  /** What a sealed row value is bound to. */
  datatype Row = Row(key: Bytes, nonce: Bytes, id: Bytes)

  datatype Crypto = Crypto(
    sealChunk: (Slot, Bytes) -> Bytes,
    openChunk: (Slot, Bytes) -> Option<Bytes>,
    encrypt: (Row, Bytes) -> Bytes,
    decrypt: (Row, Bytes) -> Option<Bytes>,
    digest: Bytes -> Bytes)

  const TAG_BYTES: nat := 16
  const NONCE_BYTES: nat := 24
  const STREAM_NONCE_BYTES: nat := 19
  const CHUNK_BYTES: nat := 0x8_0000
  const MAX_BYTES: nat := 0x40_0000
  const HEADER_BYTES: nat := 64

  /** Authenticated ciphers: opening accepts exactly what sealing produces in the same
      place, and sealing adds a tag. */
  ghost predicate Lawful(c: Crypto) {
    && (forall s: Slot, x: Bytes :: |c.sealChunk(s, x)| == |x| + TAG_BYTES)
    && (forall s: Slot, x: Bytes, y: Bytes {:trigger c.openChunk(s, y), c.sealChunk(s, x)} :: c.openChunk(s, y) == Some(x) <==> y == c.sealChunk(s, x))
    && (forall r: Row, x: Bytes :: |c.encrypt(r, x)| == |x| + TAG_BYTES)
    && (forall r: Row, x: Bytes, y: Bytes {:trigger c.decrypt(r, y), c.encrypt(r, x)} :: c.decrypt(r, y) == Some(x) <==> y == c.encrypt(r, x))
    && (forall x: Bytes :: |c.digest(x)| == 32)
  }

  const ZERO_TAG: Bytes := seq(TAG_BYTES, i => 0)

  /** The laws are consistent: a constant tag already satisfies them. */
  lemma {:induction false} LawfulCryptoExists()
    ensures exists c :: Lawful(c)
  {
    var add := (x: Bytes) => x + ZERO_TAG;
    var strip := (y: Bytes) =>
      if |y| >= TAG_BYTES && y[|y| - TAG_BYTES..] == ZERO_TAG then Some(y[..|y| - TAG_BYTES]) else None;
    var c := Crypto((s: Slot, x) => add(x), (s: Slot, y) => strip(y), (r: Row, x) => add(x), (r: Row, y) => strip(y),
                    (x: Bytes) => seq(32, i => 0));
    forall x: Bytes, y: Bytes ensures strip(y) == Some(x) <==> y == add(x) {
      if y == add(x) {
        assert y[|y| - TAG_BYTES..] == ZERO_TAG && y[..|y| - TAG_BYTES] == x;
      }
      if strip(y) == Some(x) {
        assert y == y[..|y| - TAG_BYTES] + y[|y| - TAG_BYTES..];
      }
    }
    assert Lawful(c);
  }

  // ----- big-endian numbers

  function BigEndian(v: nat, width: nat): (b: Bytes)
    ensures |b| == width
  {
    if width == 0 then [] else BigEndian(v / 256, width - 1) + [v % 256]
  }

  function Value(b: Bytes): nat {
    if b == [] then 0 else Value(b[..|b| - 1]) * 256 + b[|b| - 1]
  }

  function Bound(width: nat): nat {
    if width == 0 then 1 else Bound(width - 1) * 256
  }

  lemma {:induction false} ValueOfBigEndian(v: nat, width: nat)
    requires v < Bound(width)
    ensures Value(BigEndian(v, width)) == v
  {
    if width > 0 {
      ValueOfBigEndian(v / 256, width - 1);
      assert BigEndian(v, width)[..width - 1] == BigEndian(v / 256, width - 1);
    }
  }

  lemma {:induction false} BigEndianOfValue(b: Bytes)
    ensures Value(b) < Bound(|b|) && BigEndian(Value(b), |b|) == b
    decreases |b|
  {
    if b != [] {
      BigEndianOfValue(b[..|b| - 1]);
      assert b == b[..|b| - 1] + [b[|b| - 1]];
    }
  }

  // ----- the stream of chunks

  function Chunks(n: nat): nat {
    if n == 0 then 1 else (n + CHUNK_BYTES - 1) / CHUNK_BYTES
  }

  /** Length of the sealed chunks of `n` bytes. */
  function SealedSize(n: nat): nat {
    n + TAG_BYTES * Chunks(n)
  }

  lemma {:induction false} ChunksStep(n: nat)
    ensures Chunks(n) == if n <= CHUNK_BYTES then 1 else 1 + Chunks(n - CHUNK_BYTES)
    ensures SealedSize(n) == if n <= CHUNK_BYTES then n + TAG_BYTES else CHUNK_BYTES + TAG_BYTES + SealedSize(n - CHUNK_BYTES)
  {
  }

  /** The sealed chunks, the last one marked as such. */
  function SealedChunks(c: Crypto, s: Slot, bytes: Bytes): Bytes
    decreases |bytes|
  {
    if |bytes| <= CHUNK_BYTES then c.sealChunk(s.(last := true), bytes)
    else c.sealChunk(s.(last := false), bytes[..CHUNK_BYTES]) + SealedChunks(c, s.(index := s.index + 1), bytes[CHUNK_BYTES..])
  }

  /** A chunk that opens to the length it has to have. */
  function OpenedChunk(c: Crypto, s: Slot, sealed: Bytes, n: nat): Option<Bytes> {
    var chunk := c.openChunk(s, sealed);
    if chunk.None? || |chunk.value| != n then None else chunk
  }

  /** The plaintext of `n` bytes in as many chunks, if every chunk opens in its place. */
  function OpenedChunks(c: Crypto, s: Slot, sealed: Bytes, n: nat): Option<Bytes>
    decreases n
  {
    if n <= CHUNK_BYTES then
      if |sealed| != n + TAG_BYTES then None else OpenedChunk(c, s.(last := true), sealed, n)
    else if |sealed| < CHUNK_BYTES + TAG_BYTES then None
    else
      var first := OpenedChunk(c, s.(last := false), sealed[..CHUNK_BYTES + TAG_BYTES], CHUNK_BYTES);
      if first.None? then None
      else Preceded(first.value, OpenedChunks(c, s.(index := s.index + 1), sealed[CHUNK_BYTES + TAG_BYTES..], n - CHUNK_BYTES))
  }

  function Preceded(plain: Bytes, rest: Option<Bytes>): Option<Bytes> {
    if rest.None? then None else Some(plain + rest.value)
  }

  lemma {:induction false} SealedLength(c: Crypto, s: Slot, bytes: Bytes)
    requires Lawful(c)
    ensures |SealedChunks(c, s, bytes)| == SealedSize(|bytes|)
    decreases |bytes|
  {
    ChunksStep(|bytes|);
    if |bytes| > CHUNK_BYTES {
      SealedLength(c, s.(index := s.index + 1), bytes[CHUNK_BYTES..]);
    }
  }

  /** Opening accepts exactly the sealed streams of that length. */
  lemma {:induction false} ChunksOpenIffSealed(c: Crypto, s: Slot, sealed: Bytes, n: nat, bytes: Bytes)
    requires Lawful(c)
    ensures OpenedChunks(c, s, sealed, n) == Some(bytes) <==> |bytes| == n && sealed == SealedChunks(c, s, bytes)
    decreases n
  {
    if n <= CHUNK_BYTES {
      assert c.openChunk(s.(last := true), sealed) == Some(bytes) <==> sealed == c.sealChunk(s.(last := true), bytes);
    } else {
      if OpenedChunks(c, s, sealed, n) == Some(bytes) {
        OpenedIsSealed(c, s, sealed, n, bytes);
      }
      if |bytes| == n && sealed == SealedChunks(c, s, bytes) {
        SealedOpens(c, s, sealed, bytes);
      }
    }
  }

  lemma {:induction false} OpenedIsSealed(c: Crypto, s: Slot, sealed: Bytes, n: nat, bytes: Bytes)
    requires Lawful(c) && n > CHUNK_BYTES && OpenedChunks(c, s, sealed, n) == Some(bytes)
    ensures |bytes| == n && sealed == SealedChunks(c, s, bytes)
    decreases n, 0
  {
    var head, tail := sealed[..CHUNK_BYTES + TAG_BYTES], sealed[CHUNK_BYTES + TAG_BYTES..];
    var first := c.openChunk(s.(last := false), head).value;
    var rest := OpenedChunks(c, s.(index := s.index + 1), tail, n - CHUNK_BYTES).value;
    assert head == c.sealChunk(s.(last := false), first);
    ChunksOpenIffSealed(c, s.(index := s.index + 1), tail, n - CHUNK_BYTES, rest);
    assert bytes[..CHUNK_BYTES] == first && bytes[CHUNK_BYTES..] == rest;
    assert sealed == head + tail;
  }

  lemma {:induction false} SealedOpens(c: Crypto, s: Slot, sealed: Bytes, bytes: Bytes)
    requires Lawful(c) && |bytes| > CHUNK_BYTES && sealed == SealedChunks(c, s, bytes)
    ensures OpenedChunks(c, s, sealed, |bytes|) == Some(bytes)
    decreases |bytes|, 0
  {
    var head := c.sealChunk(s.(last := false), bytes[..CHUNK_BYTES]);
    var tail := SealedChunks(c, s.(index := s.index + 1), bytes[CHUNK_BYTES..]);
    assert |head| == CHUNK_BYTES + TAG_BYTES;
    assert sealed[..CHUNK_BYTES + TAG_BYTES] == head && sealed[CHUNK_BYTES + TAG_BYTES..] == tail;
    ChunksOpenIffSealed(c, s.(index := s.index + 1), tail, |bytes| - CHUNK_BYTES, bytes[CHUNK_BYTES..]);
    assert bytes == bytes[..CHUNK_BYTES] + bytes[CHUNK_BYTES..];
  }

  // ----- the envelope

  const MAGIC: Bytes := [67, 80, 66, 50] // "CPB2"
  const FORMAT_VERSION: byte := 3

  function Header(digest: Bytes, n: nat, nonce: Bytes): Bytes {
    MAGIC + [FORMAT_VERSION] + BigEndian(n, 8) + digest + nonce
  }

  lemma {:induction false} HeaderParts(digest: Bytes, n: nat, nonce: Bytes, rest: Bytes)
    requires |digest| == 32 && |nonce| == STREAM_NONCE_BYTES && n <= MAX_BYTES
    ensures var e := Header(digest, n, nonce) + rest;
            && |e| == HEADER_BYTES + |rest| && e[..4] == MAGIC && e[4] == FORMAT_VERSION && Value(e[5..13]) == n
            && e[13..45] == digest && e[45..64] == nonce && e[..64] == Header(digest, n, nonce) && e[64..] == rest
  {
    var e := Header(digest, n, nonce) + rest;
    assert e[5..13] == BigEndian(n, 8);
    assert Bound(3) == 0x100_0000;
    BoundGrows(3, 8);
    ValueOfBigEndian(n, 8);
  }

  lemma {:induction false} BoundGrows(a: nat, b: nat)
    requires a <= b
    ensures Bound(a) <= Bound(b)
    decreases b
  {
    if a < b {
      BoundGrows(a, b - 1);
    }
  }

  lemma {:induction false} HeaderRebuilt(e: Bytes)
    requires |e| >= HEADER_BYTES && e[..4] == MAGIC && e[4] == FORMAT_VERSION
    ensures e[..64] == Header(e[13..45], Value(e[5..13]), e[45..64])
  {
    BigEndianOfValue(e[5..13]);
    assert e[..64] == e[..4] + [e[4]] + e[5..13] + e[13..45] + e[45..64];
  }

  /** The envelope of a payload under a given stream nonce. */
  function Sealed(c: Crypto, bytes: Bytes, digest: Bytes, key: Bytes, id: Bytes, nonce: Bytes): Bytes {
    var header := Header(digest, |bytes|, nonce);
    header + SealedChunks(c, Slot(key, nonce, id, header, 0, false), bytes)
  }

  /** The payload in an envelope: header, length, every chunk and the digest agree. */
  function Opened(c: Crypto, e: Bytes, key: Bytes, id: Bytes): Option<Bytes> {
    if |e| < HEADER_BYTES || e[..4] != MAGIC || e[4] != FORMAT_VERSION then None
    else
      var n := Value(e[5..13]);
      if n > MAX_BYTES || |e| != HEADER_BYTES + SealedSize(n) then None
      else
        var plain := OpenedChunks(c, Slot(key, e[45..64], id, e[..64], 0, false), e[64..], n);
        if plain.None? || c.digest(plain.value) != e[13..45] then None else plain
  }

  /** `e` is an envelope that sealing `bytes` for this id can produce. */
  ghost predicate IsSealOf(c: Crypto, e: Bytes, bytes: Bytes, key: Bytes, id: Bytes) {
    |bytes| <= MAX_BYTES && exists nonce :: |nonce| == STREAM_NONCE_BYTES && e == Sealed(c, bytes, c.digest(bytes), key, id, nonce)
  }

  lemma {:induction false} SealOpens(c: Crypto, bytes: Bytes, key: Bytes, id: Bytes, nonce: Bytes)
    requires Lawful(c) && |bytes| <= MAX_BYTES && |nonce| == STREAM_NONCE_BYTES
    ensures Opened(c, Sealed(c, bytes, c.digest(bytes), key, id, nonce), key, id) == Some(bytes)
  {
    var header := Header(c.digest(bytes), |bytes|, nonce);
    var s := Slot(key, nonce, id, header, 0, false);
    var chunks := SealedChunks(c, s, bytes);
    HeaderParts(c.digest(bytes), |bytes|, nonce, chunks);
    SealedLength(c, s, bytes);
    ChunksOpenIffSealed(c, s, chunks, |bytes|, bytes);
  }

  /** An envelope opens to a payload exactly when it is a seal of that payload. */
  lemma {:induction false} OpensIffSealed(c: Crypto, e: Bytes, bytes: Bytes, key: Bytes, id: Bytes)
    requires Lawful(c)
    ensures Opened(c, e, key, id) == Some(bytes) <==> IsSealOf(c, e, bytes, key, id)
  {
    if Opened(c, e, key, id) == Some(bytes) {
      var n, nonce := Value(e[5..13]), e[45..64];
      HeaderRebuilt(e);
      ChunksOpenIffSealed(c, Slot(key, nonce, id, e[..64], 0, false), e[64..], n, bytes);
      assert e == e[..64] + e[64..];
      assert e == Sealed(c, bytes, c.digest(bytes), key, id, nonce);
    }
    if IsSealOf(c, e, bytes, key, id) {
      var nonce :| |nonce| == STREAM_NONCE_BYTES && e == Sealed(c, bytes, c.digest(bytes), key, id, nonce);
      SealOpens(c, bytes, key, id, nonce);
    }
  }

  /** Seals chunk by chunk into one buffer. */
  method Seal(c: Crypto, bytes: Bytes, digest: Bytes, key: Bytes, id: Bytes, nonce: Bytes) returns (r: Option<Bytes>)
    ensures r == if |bytes| <= 4 * 1024 * 1024 then Some(Sealed(c, bytes, digest, key, id, nonce)) else None
  {
    if |bytes| > MAX_BYTES {
      return None;
    }
    var header := Header(digest, |bytes|, nonce);
    var slot := Slot(key, nonce, id, header, 0, false);
    var out, start := header, 0;
    var final := Chunks(|bytes|) - 1;
    assert bytes[0..] == bytes;
    for index := 0 to final
      invariant 0 <= start <= |bytes| && Chunks(|bytes| - start) == Chunks(|bytes|) - index
      invariant out + SealedChunks(c, slot.(index := index), bytes[start..]) == Sealed(c, bytes, digest, key, id, nonce)
    {
      ChunksStep(|bytes| - start);
      SealedNext(c, slot.(index := index), bytes, start, out);
      out := out + c.sealChunk(slot.(index := index, last := false), bytes[start..start + CHUNK_BYTES]);
      start := start + CHUNK_BYTES;
    }
    ChunksStep(|bytes| - start);
    return Some(out + c.sealChunk(slot.(index := final, last := true), bytes[start..]));
  }

  lemma {:induction false} SealedNext(c: Crypto, s: Slot, bytes: Bytes, start: nat, out: Bytes)
    requires start + CHUNK_BYTES < |bytes|
    ensures out + SealedChunks(c, s, bytes[start..]) ==
            out + c.sealChunk(s.(last := false), bytes[start..start + CHUNK_BYTES]) + SealedChunks(c, s.(index := s.index + 1), bytes[start + CHUNK_BYTES..])
  {
    assert bytes[start..][..CHUNK_BYTES] == bytes[start..start + CHUNK_BYTES] && bytes[start..][CHUNK_BYTES..] == bytes[start + CHUNK_BYTES..];
  }

  /** Opens chunk by chunk, once the length is one this envelope carries. */
  method Open(c: Crypto, e: Bytes, key: Bytes, id: Bytes) returns (r: Option<Bytes>)
    ensures r == Opened(c, e, key, id)
  {
    if |e| < HEADER_BYTES || e[..4] != MAGIC || e[4] != FORMAT_VERSION {
      return None;
    }
    var n := Value(e[5..13]);
    if n > MAX_BYTES || |e| != HEADER_BYTES + SealedSize(n) {
      return None;
    }
    r := OpenChunks(c, Slot(key, e[45..64], id, e[..64], 0, false), e[64..], n);
    if r.Some? && c.digest(r.value) != e[13..45] {
      return None;
    }
  }

  /** The loop of `open`. That every chunk lies within the envelope follows from the
      length checked before. */
  method OpenChunks(c: Crypto, slot: Slot, sealed: Bytes, n: nat) returns (r: Option<Bytes>)
    requires slot.index == 0 && |sealed| == SealedSize(n)
    ensures r == OpenedChunks(c, slot, sealed, n)
  {
    var plain: Bytes, offset, final := [], 0, Chunks(n) - 1;
    Beginning(c, slot, sealed, n);
    for index := 0 to final
      invariant |plain| <= n && 0 <= offset <= |sealed| && Chunks(n - |plain|) == Chunks(n) - index
      invariant |sealed| - offset == SealedSize(n - |plain|)
      invariant OpenedChunks(c, slot, sealed, n) == Outcome(c, slot, index, sealed, offset, n, plain)
    {
      ChunksStep(n - |plain|);
      var end := offset + CHUNK_BYTES + TAG_BYTES;
      OpenedNext(c, slot, index, sealed, offset, n, plain);
      var chunk := OpenedChunk(c, slot.(index := index, last := false), sealed[offset..end], CHUNK_BYTES);
      if chunk.None? {
        return None;
      }
      plain := plain + chunk.value;
      offset := end;
    }
    ChunksStep(n - |plain|);
    var chunk := OpenedChunk(c, slot.(index := final, last := true), sealed[offset..], n - |plain|);
    return Preceded(plain, chunk);
  }

  /** What opening will come to, with `plain` recovered and `offset` reached. */
  ghost function Outcome(c: Crypto, slot: Slot, index: nat, sealed: Bytes, offset: nat, n: nat, plain: Bytes): Option<Bytes>
    requires |plain| <= n && offset <= |sealed|
  {
    Preceded(plain, OpenedChunks(c, slot.(index := index), sealed[offset..], n - |plain|))
  }

  lemma {:induction false} Beginning(c: Crypto, slot: Slot, sealed: Bytes, n: nat)
    requires slot.index == 0
    ensures OpenedChunks(c, slot, sealed, n) == Outcome(c, slot, 0, sealed, 0, n, [])
  {
    assert sealed[0..] == sealed && slot.(index := 0) == slot;
    var r := OpenedChunks(c, slot, sealed, n);
    assert r.Some? ==> [] + r.value == r.value;
  }

  lemma {:induction false} OpenedNext(c: Crypto, slot: Slot, index: nat, sealed: Bytes, offset: nat, n: nat, plain: Bytes)
    requires |plain| + CHUNK_BYTES < n && offset + CHUNK_BYTES + TAG_BYTES <= |sealed|
    ensures var end := offset + CHUNK_BYTES + TAG_BYTES;
            var first := OpenedChunk(c, slot.(index := index, last := false), sealed[offset..end], CHUNK_BYTES);
            Outcome(c, slot, index, sealed, offset, n, plain) ==
            if first.None? then None else Outcome(c, slot, index + 1, sealed, end, n, plain + first.value)
  {
    var end := offset + CHUNK_BYTES + TAG_BYTES;
    var here := sealed[offset..];
    assert here[..CHUNK_BYTES + TAG_BYTES] == sealed[offset..end] && here[CHUNK_BYTES + TAG_BYTES..] == sealed[end..];
    var first := OpenedChunk(c, slot.(index := index, last := false), sealed[offset..end], CHUNK_BYTES);
    var rest := OpenedChunks(c, slot.(index := index + 1), sealed[end..], n - |plain| - CHUNK_BYTES);
    if first.Some? && rest.Some? {
      assert plain + (first.value + rest.value) == plain + first.value + rest.value;
    }
  }
}
