/** crates/copypaste-core/src/binary.rs and binary_reference.rs: the layout of both kinds of
    envelopes, byte by byte. */
module BinaryLayout {
  import opened Options
  import opened BinaryEnvelope
  import opened BinaryReference

  /** Where the `k`th chunk of `n` bytes starts, ends, and lies in the sealed stream. */
  ghost predicate ChunkOf(n: nat, k: nat, from: nat, to: nat) {
    from == k * 524_288 && (k == 0 || from < n) && to == if from + 524_288 < n then from + 524_288 else n
  }

  /** Every chunk but the last has 512 KiB; it is sealed in its place and followed by a tag
      of 16 bytes, and only the chunk that ends the payload is marked as the last. */
  lemma {:induction false} ChunkPlaced(c: Crypto, s: Slot, bytes: Bytes, k: nat, from: nat, to: nat)
    requires Lawful(c) && from <= to <= |bytes| && ChunkOf(|bytes|, k, from, to)
    ensures var stream := SealedChunks(c, s, bytes);
            && k * 524_304 + (to - from) + 16 <= |stream|
            && stream[k * 524_304..k * 524_304 + (to - from) + 16] ==
               c.sealChunk(s.(index := s.index + k, last := to == |bytes|), bytes[from..to])
    decreases k
  {
    if |bytes| > CHUNK_BYTES {
      var head := c.sealChunk(s.(last := false), bytes[..CHUNK_BYTES]);
      var tail := SealedChunks(c, s.(index := s.index + 1), bytes[CHUNK_BYTES..]);
      assert |head| == 524_304 && SealedChunks(c, s, bytes) == head + tail;
      if k == 0 {
        assert (head + tail)[0..524_304] == head;
      } else {
        ChunkPlaced(c, s.(index := s.index + 1), bytes[CHUNK_BYTES..], k - 1, from - CHUNK_BYTES, to - CHUNK_BYTES);
        ChunkShifted(head, tail, bytes, k, from, to);
      }
    } else {
      assert bytes[0..|bytes|] == bytes && c.sealChunk(s.(last := true), bytes)[0..|bytes| + 16] == c.sealChunk(s.(last := true), bytes);
    }
  }

  lemma {:induction false} ChunkShifted(head: Bytes, tail: Bytes, bytes: Bytes, k: nat, from: nat, to: nat)
    requires 0 < k && CHUNK_BYTES <= from <= to <= |bytes| && |head| == 524_304 && (k - 1) * 524_304 + (to - from) + 16 <= |tail|
    ensures (head + tail)[k * 524_304..k * 524_304 + (to - from) + 16] == tail[(k - 1) * 524_304..(k - 1) * 524_304 + (to - from) + 16]
    ensures bytes[CHUNK_BYTES..][from - CHUNK_BYTES..to - CHUNK_BYTES] == bytes[from..to]
  {
  }

  /** The magic and version, the length as eight big-endian bytes, digest and nonce, and the
      chunks, each bound to these 64 bytes. */
  lemma {:induction false} EnvelopeLayout(c: Crypto, bytes: Bytes, digest: Bytes, key: Bytes, id: Bytes, nonce: Bytes)
    requires |digest| == 32 && |nonce| == 19 && |bytes| <= 4 * 1024 * 1024
    ensures var e := Sealed(c, bytes, digest, key, id, nonce);
            && |e| >= 64 && e[..5] == [0x43, 0x50, 0x42, 0x32, 3] // "CPB2", 3
            && e[5..13] == [0, 0, 0, 0, 0, |bytes| / 0x1_0000, |bytes| / 0x100 % 0x100, |bytes| % 0x100]
            && e[13..45] == digest && e[45..64] == nonce
            && e[64..] == SealedChunks(c, Slot(key, nonce, id, e[..64], 0, false), bytes)
  {
    var header := Header(digest, |bytes|, nonce);
    HeaderParts(digest, |bytes|, nonce, SealedChunks(c, Slot(key, nonce, id, header, 0, false), bytes));
    LengthBytes(|bytes|);
    assert header[..5] == MAGIC + [FORMAT_VERSION] && header[5..13] == BigEndian(|bytes|, 8);
  }

  lemma {:induction false} LengthBytes(n: nat)
    requires n < 0x100_0000
    ensures BigEndian(n, 8) == [0, 0, 0, 0, 0, n / 0x1_0000, n / 0x100 % 0x100, n % 0x100]
  {
    assert BigEndian(0, 0) == [];
    ZeroBytes(5);
    assert BigEndian(n / 0x1_0000, 6) == BigEndian(0, 5) + [n / 0x1_0000];
    assert BigEndian(n / 0x100, 7) == BigEndian(n / 0x1_0000, 6) + [n / 0x100 % 0x100];
  }

  lemma {:induction false} ZeroBytes(width: nat)
    ensures BigEndian(0, width) == seq(width, i => 0)
  {
    if width > 0 {
      ZeroBytes(width - 1);
    }
  }

  /** A digest is spelled with lower-case digits, the high half of each byte first. */
  lemma {:induction false} HexSpells(d: Bytes, i: nat)
    requires i < |d|
    ensures |Hex(d)| == 2 * |d|
    ensures Hex(d)[2 * i] as char == "0123456789abcdef"[d[i] / 16] && Hex(d)[2 * i + 1] as char == "0123456789abcdef"[d[i] % 16]
  {
    if i > 0 {
      HexSpells(d[1..], i - 1);
    } else {
      DigitSpells(d[0] / 16);
      DigitSpells(d[0] % 16);
    }
  }

  lemma {:induction false} DigitSpells(n: nat)
    requires n < 16
    ensures HexDigit(n) as char == "0123456789abcdef"[n]
  {
  }

  /** The magic, the row's nonce, the length of the sealed reference, the reference sealed
      for this row, and the payload sealed under the digest's spelling. */
  lemma {:induction false} ReferenceLayout(c: Crypto, bytes: Bytes, key: Bytes, id: Bytes, nonce: Bytes, streamNonce: Bytes)
    requires Lawful(c) && |nonce| == 24
    ensures var d := c.digest(bytes);
            var e := SealedReference(c, bytes, d, key, id, nonce, streamNonce);
            && |e| >= 112 && e[..4] == [0x43, 0x50, 0x52, 0x31] // "CPR1"
            && e[4..28] == nonce && e[28..32] == [0, 0, 0, 80] && e[32..112] == c.encrypt(Row(key, nonce, id), Hex(d))
            && e[112..] == Sealed(c, bytes, d, key, Hex(d), streamNonce)
  {
    var d := c.digest(bytes);
    var blob := Sealed(c, bytes, d, key, Hex(d), streamNonce);
    ReferenceParts(c, bytes, key, id, nonce, blob);
    var e := Reference(c, d, key, id, nonce) + blob;
    assert e[28..32] == BigEndian(80, 4);
    ZeroBytes(3);
  }
}
