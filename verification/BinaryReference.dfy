/** crates/copypaste-core/src/binary_reference.rs: a row-authenticated reference followed
    by the encrypted payload it refers to, which rows may share. */
module BinaryReference {
  import opened Options

  import opened BinaryEnvelope

  const REFERENCE_MAGIC: Bytes := [67, 80, 82, 49] // "CPR1"
  const PREFIX_BYTES: nat := 32
  const REFERENCE_BYTES: nat := 80 // 64 hex digits and a tag
  const PAYLOAD_OFFSET: nat := 112

  function HexDigit(n: nat): byte
    requires n < 16
  {
    if n < 10 then 48 + n else 87 + n
  }

  predicate IsHexDigit(b: byte) {
    48 <= b <= 57 || 65 <= b <= 70 || 97 <= b <= 102
  }

  function Hex(d: Bytes): (h: Bytes)
    ensures |h| == 2 * |d| && forall i :: 0 <= i < |h| ==> IsHexDigit(h[i])
  {
    if d == [] then [] else [HexDigit(d[0] / 16), HexDigit(d[0] % 16)] + Hex(d[1..])
  }

  predicate IsReference(e: Bytes) {
    |e| >= 4 && e[..4] == REFERENCE_MAGIC
  }

  /** Reference and payload of an envelope. */
  function Split(e: Bytes): (r: Option<(Bytes, Bytes)>)
    ensures r.Some? <==> |e| >= PAYLOAD_OFFSET && IsReference(e) && Value(e[28..32]) == REFERENCE_BYTES
    ensures r.Some? ==> |r.value.0| == PAYLOAD_OFFSET && r.value.0 + r.value.1 == e
  {
    if !IsReference(e) || |e| < PREFIX_BYTES then None
    else
      var n := Value(e[28..32]);
      if n != REFERENCE_BYTES || |e| < PREFIX_BYTES + n then None else Some((e[..PREFIX_BYTES + n], e[PREFIX_BYTES + n..]))
  }

  /** The part that binds a payload to a row. */
  function Reference(c: Crypto, digest: Bytes, key: Bytes, id: Bytes, nonce: Bytes): Bytes {
    var sealed := c.encrypt(Row(key, nonce, id), Hex(digest));
    REFERENCE_MAGIC + nonce + BigEndian(|sealed|, 4) + sealed
  }

  function SealedReference(c: Crypto, bytes: Bytes, digest: Bytes, key: Bytes, id: Bytes, nonce: Bytes, streamNonce: Bytes): Bytes {
    Reference(c, digest, key, id, nonce) + Sealed(c, bytes, digest, key, Hex(digest), streamNonce)
  }

  predicate BlobId(b: Bytes) {
    |b| == 64 && forall i :: 0 <= i < |b| ==> IsHexDigit(b[i])
  }

  function OpenedReference(c: Crypto, e: Bytes, key: Bytes, id: Bytes): Option<Bytes> {
    var parts := Split(e);
    if parts.None? then None
    else
      var blobId := c.decrypt(Row(key, e[4..28], id), e[32..112]);
      if blobId.None? || !BlobId(blobId.value) || |parts.value.1| < 4 || parts.value.1[..4] != MAGIC then None
      else
        var bytes := Opened(c, parts.value.1, key, blobId.value);
        if bytes.None? || Hex(c.digest(bytes.value)) != blobId.value then None else bytes
  }

  /** Opening either kind of envelope, as stored rows are read. */
  function OpenedAny(c: Crypto, e: Bytes, key: Bytes, id: Bytes): Option<Bytes> {
    if IsReference(e) then OpenedReference(c, e, key, id) else Opened(c, e, key, id)
  }

  lemma {:induction false} ReferenceParts(c: Crypto, bytes: Bytes, key: Bytes, id: Bytes, nonce: Bytes, blob: Bytes)
    requires Lawful(c) && |nonce| == NONCE_BYTES
    ensures var e := Reference(c, c.digest(bytes), key, id, nonce) + blob;
            && Split(e) == Some((Reference(c, c.digest(bytes), key, id, nonce), blob)) && e[4..28] == nonce
            && e[32..112] == c.encrypt(Row(key, nonce, id), Hex(c.digest(bytes)))
  {
    var e := Reference(c, c.digest(bytes), key, id, nonce) + blob;
    assert e[28..32] == BigEndian(REFERENCE_BYTES, 4);
    assert Bound(1) == 256;
    BoundGrows(1, 4);
    ValueOfBigEndian(REFERENCE_BYTES, 4);
    assert e[..112] == Reference(c, c.digest(bytes), key, id, nonce) && e[112..] == blob;
  }

  lemma {:induction false} ReferenceRebuilt(c: Crypto, e: Bytes, key: Bytes, id: Bytes, digest: Bytes)
    requires Lawful(c) && Split(e).Some? && e[32..112] == c.encrypt(Row(key, e[4..28], id), Hex(digest))
    ensures e[..112] == Reference(c, digest, key, id, e[4..28])
  {
    BigEndianOfValue(e[28..32]);
    assert e[..112] == e[..4] + e[4..28] + e[28..32] + e[32..112];
  }

  lemma {:induction false} SealedStartsWithMagic(c: Crypto, bytes: Bytes, digest: Bytes, key: Bytes, id: Bytes, nonce: Bytes)
    ensures var e := Sealed(c, bytes, digest, key, id, nonce); |e| >= 4 && e[..4] == MAGIC && !IsReference(e)
  {
    var e := Sealed(c, bytes, digest, key, id, nonce);
    assert e[2] == 66;
  }

  /** The payload part may come from any row that holds the same bytes. */
  lemma {:induction false} SharedPayloadOpens(c: Crypto, bytes: Bytes, key: Bytes, id: Bytes, nonce: Bytes, other: Bytes, otherNonce: Bytes, streamNonce: Bytes)
    requires Lawful(c) && |bytes| <= MAX_BYTES && |nonce| == |otherNonce| == NONCE_BYTES && |streamNonce| == STREAM_NONCE_BYTES
    ensures var mine := Reference(c, c.digest(bytes), key, id, nonce);
            var theirs := Split(SealedReference(c, bytes, c.digest(bytes), key, other, otherNonce, streamNonce));
            theirs.Some? && OpenedReference(c, mine + theirs.value.1, key, id) == Some(bytes)
  {
    var d := c.digest(bytes);
    var blob := Sealed(c, bytes, d, key, Hex(d), streamNonce);
    ReferenceParts(c, bytes, key, other, otherNonce, blob);
    ReferenceParts(c, bytes, key, id, nonce, blob);
    var r := Row(key, nonce, id);
    assert c.decrypt(r, c.encrypt(r, Hex(d))) == Some(Hex(d));
    SealedStartsWithMagic(c, bytes, d, key, Hex(d), streamNonce);
    SealOpens(c, bytes, key, Hex(d), streamNonce);
  }

  /** `e` is an envelope that sealing `bytes` for this row can produce. */
  ghost predicate IsReferenceTo(c: Crypto, e: Bytes, bytes: Bytes, key: Bytes, id: Bytes) {
    |bytes| <= MAX_BYTES &&
    exists nonce, streamNonce :: |nonce| == NONCE_BYTES && |streamNonce| == STREAM_NONCE_BYTES
                                 && e == SealedReference(c, bytes, c.digest(bytes), key, id, nonce, streamNonce)
  }

  lemma {:induction false} OpenedIsReference(c: Crypto, e: Bytes, bytes: Bytes, key: Bytes, id: Bytes)
    requires Lawful(c) && OpenedReference(c, e, key, id) == Some(bytes)
    ensures c.decrypt(Row(key, e[4..28], id), e[32..112]) == Some(Hex(c.digest(bytes)))
    ensures IsReferenceTo(c, e, bytes, key, id)
  {
    var d, r := c.digest(bytes), Row(key, e[4..28], id);
    assert e[32..112] == c.encrypt(r, Hex(d));
    ReferenceRebuilt(c, e, key, id, d);
    OpensIffSealed(c, e[112..], bytes, key, Hex(d));
    var streamNonce :| |streamNonce| == STREAM_NONCE_BYTES && e[112..] == Sealed(c, bytes, d, key, Hex(d), streamNonce);
    assert e == e[..112] + e[112..];
    assert e == SealedReference(c, bytes, d, key, id, e[4..28], streamNonce);
  }

  /** An envelope opens to a payload for a row exactly when it was sealed from that
      payload for that row; the reference then authenticates the payload's digest. */
  lemma {:induction false} ReferenceOpensIffSealed(c: Crypto, e: Bytes, bytes: Bytes, key: Bytes, id: Bytes)
    requires Lawful(c)
    ensures OpenedReference(c, e, key, id) == Some(bytes) <==> IsReferenceTo(c, e, bytes, key, id)
    ensures OpenedReference(c, e, key, id) == Some(bytes) ==>
              c.decrypt(Row(key, e[4..28], id), e[32..112]) == Some(Hex(c.digest(bytes)))
  {
    if OpenedReference(c, e, key, id) == Some(bytes) {
      OpenedIsReference(c, e, bytes, key, id);
    }
    if IsReferenceTo(c, e, bytes, key, id) {
      var nonce, streamNonce :| |nonce| == NONCE_BYTES && |streamNonce| == STREAM_NONCE_BYTES
                                && e == SealedReference(c, bytes, c.digest(bytes), key, id, nonce, streamNonce);
      SharedPayloadOpens(c, bytes, key, id, nonce, id, nonce, streamNonce);
      ReferenceParts(c, bytes, key, id, nonce, Sealed(c, bytes, c.digest(bytes), key, Hex(c.digest(bytes)), streamNonce));
    }
  }

  /** A row that is read back opens exactly the two kinds of envelopes. */
  lemma {:induction false} AnyOpensIffSealed(c: Crypto, e: Bytes, bytes: Bytes, key: Bytes, id: Bytes)
    requires Lawful(c)
    ensures OpenedAny(c, e, key, id) == Some(bytes) <==> IsReferenceTo(c, e, bytes, key, id) || IsSealOf(c, e, bytes, key, id)
  {
    ReferenceOpensIffSealed(c, e, bytes, key, id);
    OpensIffSealed(c, e, bytes, key, id);
    if IsReference(e) && IsSealOf(c, e, bytes, key, id) {
      NotBoth(c, e, bytes, key, id);
    }
  }

  lemma {:induction false} NotBoth(c: Crypto, e: Bytes, bytes: Bytes, key: Bytes, id: Bytes)
    requires IsSealOf(c, e, bytes, key, id)
    ensures !IsReference(e)
  {
    var nonce :| |nonce| == STREAM_NONCE_BYTES && e == Sealed(c, bytes, c.digest(bytes), key, id, nonce);
    SealedStartsWithMagic(c, bytes, c.digest(bytes), key, id, nonce);
  }

  /** Appends the parts of the envelope to one buffer. */
  method SealReference(c: Crypto, bytes: Bytes, digest: Bytes, key: Bytes, id: Bytes, nonce: Bytes, streamNonce: Bytes) returns (r: Option<Bytes>)
    ensures r == if |bytes| <= 4 * 1024 * 1024 then Some(SealedReference(c, bytes, digest, key, id, nonce, streamNonce)) else None
  {
    var blobId := Hex(digest);
    var reference := c.encrypt(Row(key, nonce, id), blobId);
    var blob := Seal(c, bytes, digest, key, blobId, streamNonce);
    if blob.None? {
      return None;
    }
    var envelope := REFERENCE_MAGIC;
    envelope := envelope + nonce;
    envelope := envelope + BigEndian(|reference|, 4);
    envelope := envelope + reference;
    return Some(envelope + blob.value);
  }
}
