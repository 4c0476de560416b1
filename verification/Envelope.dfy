/** The chunked AEAD envelope: its header bytes, its chunks, and the streaming encryptor that writes it. */
module Envelope {
  import opened Base
  import opened Padme

  const HEADER_LEN: nat := 36
  const PREAMBLE_LEN: nat := 1124
  const TAG_LEN: nat := 16
  const MAGIC: Bytes := [0x59, 0x32, 0x51, 0x33]

  // ----- Header bytes -----

  function Be32(n: nat): (b: Bytes)
    requires n < U32_LIMIT
    ensures |b| == 4
  {
    [n / 0x100_0000, n / 0x1_0000 % 256, n / 0x100 % 256, n % 256]
  }

  function Be32At(b: Bytes, at: nat): nat
    requires at + 4 <= |b|
  {
    0x100_0000 * (b[at] as int) + 0x1_0000 * (b[at + 1] as int) + 0x100 * (b[at + 2] as int) + b[at + 3] as int
  }

  lemma {:induction false} Be32RoundTrip(n: nat)
    requires n < U32_LIMIT
    ensures Be32At(Be32(n), 0) == n
  {
    BytesAddUp(n);
    var b := Be32(n);
    assert b[0] == n / 0x100_0000 && b[1] == n / 0x1_0000 % 256 && b[2] == n / 0x100 % 256 && b[3] == n % 256;
  }

  lemma {:induction false} BytesAddUp(n: nat)
    ensures 0x100_0000 * (n / 0x100_0000) + 0x1_0000 * (n / 0x1_0000 % 256) + 0x100 * (n / 0x100 % 256) + n % 256 == n
  {
    assert n / 0x100 == n / 0x1_0000 * 256 + n / 0x100 % 256;
    assert n / 0x1_0000 == n / 0x100_0000 * 256 + n / 0x1_0000 % 256;
  }

  function Be64(n: nat): (b: Bytes)
    requires n < U64_LIMIT
    ensures |b| == 8
  {
    Be32(n / U32_LIMIT) + Be32(n % U32_LIMIT)
  }

  function Be16At(b: Bytes, at: nat): nat
    requires at + 2 <= |b|
  {
    256 * (b[at] as int) + b[at + 1] as int
  }

  function Be64At(b: Bytes, at: nat): nat
    requires at + 8 <= |b|
  {
    U32_LIMIT * Be32At(b, at) + Be32At(b, at + 4)
  }

  lemma {:induction false} Be64RoundTrip(n: nat)
    requires n < U64_LIMIT
    ensures Be64At(Be64(n), 0) == n
  {
    var high, low := Be32(n / U32_LIMIT), Be32(n % U32_LIMIT);
    assert forall i :: 0 <= i < 4 ==> Be64(n)[i] == high[i] && Be64(n)[4 + i] == low[i];
    Be32RoundTrip(n / U32_LIMIT);
    Be32RoundTrip(n % U32_LIMIT);
  }

  /** A number is read from the bytes at its place and from nothing else. */
  lemma {:induction false} ReadsInPlace(b: Bytes, at: nat, field: Bytes)
    requires at + |field| <= |b| && b[at..at + |field|] == field
    ensures |field| == 4 ==> Be32At(b, at) == Be32At(field, 0)
    ensures |field| == 8 ==> Be64At(b, at) == Be64At(field, 0)
  {
    assert forall i :: 0 <= i < |field| ==> field[i] == b[at + i];
  }

  /** The current-format fixed header: magic, version 4, algorithms, epoch, nonce, length, chunk size. */
  function Header(epoch: nat, nonce: Bytes, plaintextLen: nat, chunkSize: nat): (h: Bytes)
    requires epoch < U32_LIMIT && |nonce| == 12 && plaintextLen < U64_LIMIT && chunkSize < U32_LIMIT
    ensures |h| == HEADER_LEN
  {
    MAGIC + [0, 4, 1, 1] + Be32(epoch) + nonce + Be64(plaintextLen) + Be32(chunkSize)
  }

  predicate StartsWithMagic(header: Bytes)
    requires |header| >= 4
  {
    header[0] == MAGIC[0] && header[1] == MAGIC[1] && header[2] == MAGIC[2] && header[3] == MAGIC[3]
  }

  /** The chunk size a reader extracts for format `version`, or `None` when the header is refused. */
  function ParseGeometry(header: Bytes, version: nat): Option<nat> {
    if |header| < HEADER_LEN || !StartsWithMagic(header) || Be16At(header, 4) != version
       || header[6] != 1 || header[7] != 1 || Be32At(header, 32) == 0
    then None
    else Some(Be32At(header, 32))
  }

  lemma {:induction false} ParseOfHeader(epoch: nat, nonce: Bytes, plaintextLen: nat, chunkSize: nat, rest: Bytes)
    requires epoch < U32_LIMIT && |nonce| == 12 && plaintextLen < U64_LIMIT && 0 < chunkSize < U32_LIMIT
    ensures var h := Header(epoch, nonce, plaintextLen, chunkSize) + rest;
            && ParseGeometry(h, 4) == Some(chunkSize)
            && Be32At(h, 8) == epoch && h[12..24] == nonce && Be64At(h, 24) == plaintextLen
  {
    var h := Header(epoch, nonce, plaintextLen, chunkSize) + rest;
    assert h[8..12] == Be32(epoch) && h[24..32] == Be64(plaintextLen) && h[32..36] == Be32(chunkSize);
    ReadsInPlace(h, 8, Be32(epoch));
    ReadsInPlace(h, 24, Be64(plaintextLen));
    ReadsInPlace(h, 32, Be32(chunkSize));
    Be32RoundTrip(epoch);
    Be64RoundTrip(plaintextLen);
    Be32RoundTrip(chunkSize);
  }

  lemma {:induction false} Be32Onto(b: Bytes)
    requires |b| == 4
    ensures Be32At(b, 0) < U32_LIMIT && Be32(Be32At(b, 0)) == b
  {
    var n := Be32At(b, 0);
    assert n / 0x100_0000 == b[0] && n / 0x1_0000 == 256 * (b[0] as int) + b[1];
    assert n / 0x100 == 0x1_0000 * (b[0] as int) + 256 * (b[1] as int) + b[2];
  }

  lemma {:induction false} Be64Onto(b: Bytes) returns (n: nat)
    requires |b| == 8
    ensures n < U64_LIMIT && Be64(n) == b
  {
    var high, low := Be32At(b[..4], 0), Be32At(b[4..], 0);
    Be32Onto(b[..4]);
    Be32Onto(b[4..]);
    n := U32_LIMIT * high + low;
    assert n / U32_LIMIT == high && n % U32_LIMIT == low;
    assert b == b[..4] + b[4..];
  }

  /** A version-4 reader accepts a header exactly if it is one that a writer writes, and takes its chunk size. */
  lemma {:induction false} AcceptedIffWritten(header: Bytes, chunkSize: nat)
    requires |header| >= HEADER_LEN
    ensures ParseGeometry(header, 4) == Some(chunkSize) <==>
              && 0 < chunkSize < U32_LIMIT
              && exists epoch: nat, nonce: Bytes, len: nat ::
                   && epoch < U32_LIMIT && |nonce| == 12 && len < U64_LIMIT
                   && header[..HEADER_LEN] == Header(epoch, nonce, len, chunkSize)
  {
    var front := header[..HEADER_LEN];
    assert header == front + header[HEADER_LEN..];
    if ParseGeometry(header, 4) == Some(chunkSize) {
      var len := Be64Onto(header[24..32]);
      HeaderOfFields(header, Be32At(header[8..12], 0), header[12..24], len, chunkSize);
    }
    forall epoch: nat, nonce: Bytes, len: nat |
      && epoch < U32_LIMIT && |nonce| == 12 && len < U64_LIMIT && 0 < chunkSize < U32_LIMIT
      && front == Header(epoch, nonce, len, chunkSize)
      ensures ParseGeometry(header, 4) == Some(chunkSize)
    {
      ParseOfHeader(epoch, nonce, len, chunkSize, header[HEADER_LEN..]);
    }
  }

  lemma {:induction false} HeaderOfFields(header: Bytes, epoch: nat, nonce: Bytes, len: nat, chunkSize: nat)
    requires |header| >= HEADER_LEN && ParseGeometry(header, 4) == Some(chunkSize)
    requires epoch == Be32At(header[8..12], 0) && nonce == header[12..24] && len < U64_LIMIT
              && Be64(len) == header[24..32]
    ensures epoch < U32_LIMIT && 0 < chunkSize < U32_LIMIT
    ensures header[..HEADER_LEN] == Header(epoch, nonce, len, chunkSize)
  {
    Be32Onto(header[8..12]);
    Be32Onto(header[32..36]);
    assert header[..4] == MAGIC && header[4..8] == [0, 4, 1, 1];
    assert header[..HEADER_LEN] ==
        header[..4] + header[4..8] + header[8..12] + header[12..24] + header[24..32] + header[32..36];
  }

  // ----- Nonces -----

  /** Exclusive or of the lowest `n` bits, bit by bit. */
  function Xor(a: nat, b: nat, n: nat): (x: nat)
    ensures x < Pow2(n)
  {
    if n == 0 then 0 else 2 * Xor(a / 2, b / 2, n - 1) + if a % 2 == b % 2 then 0 else 1
  }

  lemma {:induction false} XorCancels(a: nat, x: nat, y: nat, n: nat)
    requires x < Pow2(n) && y < Pow2(n) && Xor(a, x, n) == Xor(a, y, n)
    ensures x == y
    decreases n
  {
    if n > 0 {
      XorCancels(a / 2, x / 2, y / 2, n - 1);
    }
  }

  function XorByte(a: Byte, b: Byte): Byte {
    assert Pow2(8) == 256;
    Xor(a, b, 8)
  }

  /** The chunk index folded into the last eight bytes of the nonce base. */
  function ChunkNonce(base: Bytes, idx: nat): (n: Bytes)
    requires |base| == 12 && idx < U64_LIMIT
    ensures |n| == 12
  {
    base[..4] + seq(8, (k: nat) requires k < 8 => XorByte(base[4 + k], Be64(idx)[k]))
  }

  /** No two chunks of an object are sealed with the same nonce. */
  lemma {:induction false} NoncesDiffer(base: Bytes, i: nat, j: nat)
    requires |base| == 12 && i < U64_LIMIT && j < U64_LIMIT
    ensures ChunkNonce(base, i) == ChunkNonce(base, j) <==> i == j
  {
    if ChunkNonce(base, i) == ChunkNonce(base, j) {
      forall k | 0 <= k < 8 ensures Be64(i)[k] == Be64(j)[k] {
        assert ChunkNonce(base, i)[4 + k] == ChunkNonce(base, j)[4 + k];
        assert Pow2(8) == 256;
        XorCancels(base[4 + k], Be64(i)[k], Be64(j)[k], 8);
      }
      assert Be64(i) == Be64(j);
      Be64RoundTrip(i);
      Be64RoundTrip(j);
    }
  }

  // ----- The address in the content key -----

  /** The length of a part as 32 bits; a longer one is cut to its low 32 bits. */
  function LengthPrefix(part: Bytes): (n: Bytes)
    ensures |n| == 4
  {
    Be32(|part| % 0x1_0000_0000)
  }

  lemma {:induction false} PrefixTellsLength(a: Bytes, b: Bytes)
    requires |a| < U32_LIMIT && |b| < U32_LIMIT && LengthPrefix(a) == LengthPrefix(b)
    ensures |a| == |b|
  {
    LengthPrefixIs(a);
    LengthPrefixIs(b);
    Be32Injective(|a|, |b|);
  }

  lemma {:induction false} LengthPrefixIs(a: Bytes)
    requires |a| < U32_LIMIT
    ensures LengthPrefix(a) == Be32(|a|)
  {
  }

  lemma {:induction false} Be32Injective(i: nat, j: nat)
    requires i < U32_LIMIT && j < U32_LIMIT && Be32(i) == Be32(j)
    ensures i == j
  {
    Be32RoundTrip(i);
    Be32RoundTrip(j);
  }

  /** The derivation input that separates objects: a fixed label, then each part behind its 32-bit length. */
  function KeyInfo(info: Bytes, bucket: Bytes, key: Bytes): Bytes {
    info + LengthPrefix(bucket) + bucket + LengthPrefix(key) + key
  }

  lemma {:induction false} PartsOf(front: Bytes, n: Bytes, a: Bytes, m: Bytes, b: Bytes)
    requires |n| == 4 && |m| == 4
    ensures var all := front + n + a + m + b;
            var at := |front|;
            all[at..at + 4] == n && all[at + 4..at + 4 + |a|] == a && all[at + 8 + |a|..] == b
  {
  }

  lemma {:induction false} PartsBind(front: Bytes, n: Bytes, a: Bytes, m: Bytes, b: Bytes, n': Bytes, a': Bytes,
                                     m': Bytes, b': Bytes)
    requires |n| == 4 && |m| == 4 && |n'| == 4 && |m'| == 4 && (n == n' ==> |a| == |a'|)
    ensures front + n + a + m + b == front + n' + a' + m' + b' ==> a == a' && b == b'
  {
    PartsOf(front, n, a, m, b);
    PartsOf(front, n', a', m', b');
  }

  /** Different addresses give different inputs, however bucket and key are split. */
  lemma {:induction false} KeyInfoBindsAddress(info: Bytes, bucket: Bytes, key: Bytes, bucket': Bytes, key': Bytes)
    requires |bucket| < U32_LIMIT && |bucket'| < U32_LIMIT
    ensures KeyInfo(info, bucket, key) == KeyInfo(info, bucket', key') <==> bucket == bucket' && key == key'
  {
    var n, n' := LengthPrefix(bucket), LengthPrefix(bucket');
    if n == n' {
      PrefixTellsLength(bucket, bucket');
    }
    PartsBind(info, n, bucket, LengthPrefix(key), key, n', bucket', LengthPrefix(key'), key');
  }

  // ----- Chunks -----

  /** The plaintext cut into full chunks and at most one shorter last chunk. */
  function Split(body: Bytes, c: nat): (chunks: seq<Bytes>)
    requires c > 0
    ensures chunks == [] <==> body == []
    decreases |body|
  {
    if body == [] then []
    else if |body| <= c then [body]
    else [body[..c]] + Split(body[c..], c)
  }

  lemma {:induction false} SplitAt(body: Bytes, c: nat, i: nat)
    requires c > 0 && i < |Split(body, c)|
    ensures Times(i, c) < |body|
    ensures i + 1 < |Split(body, c)| ==> Times(i, c) + c < |body|
    ensures i + 1 == |Split(body, c)| ==> |body| <= Times(i, c) + c
    ensures Split(body, c)[i] == body[Times(i, c)..Min(Times(i, c) + c, |body|)]
    decreases i
  {
    if i == 0 {
      assert body == body[..|body|];
    } else {
      var rest := body[c..];
      SplitAt(rest, c, i - 1);
      assert Split(body, c)[i] == Split(rest, c)[i - 1];
      var at := Times(i - 1, c);
      SubSlice(body, c, |body|, at, Min(at + c, |rest|));
      assert body[c..] == body[c..|body|];
    }
  }

  /** A position inside the body lies in the chunk that integer division says. */
  lemma {:induction false} ChunkOfPosition(body: Bytes, c: nat, pos: nat)
    requires c > 0 && pos < |body|
    ensures Quot(pos, c) < |Split(body, c)|
    decreases |body|
  {
    if pos >= c {
      ChunkOfPosition(body[c..], c, pos - c);
    }
  }

  lemma {:induction false} ConcatFront<T>(head: seq<T>, parts: seq<seq<T>>)
    ensures Concat([head] + parts) == head + Concat(parts)
    decreases |parts|
  {
    if parts != [] {
      var init := parts[..|parts| - 1];
      ConcatFront(head, init);
      assert ([head] + parts)[..|parts|] == [head] + init;
    } else {
      assert [head] + parts == [head];
      assert Concat([head]) == Concat([head][..0]) + head;
    }
  }

  /** Full chunks followed by a shorter tail are how any text with that content splits. */
  lemma {:induction false} SplitOfChunks(full: seq<Bytes>, tail: Bytes, c: nat)
    requires c > 0 && |tail| < c && forall i :: 0 <= i < |full| ==> |full[i]| == c
    ensures Split(Concat(full) + tail, c) == full + (if tail == [] then [] else [tail])
    decreases |full|
  {
    if full == [] {
      assert Concat(full) + tail == tail;
    } else {
      var rest := full[1..];
      assert full == [full[0]] + rest;
      ConcatFront(full[0], rest);
      var body := Concat(full) + tail;
      assert body[..c] == full[0] && body[c..] == Concat(rest) + tail;
      SplitOfChunks(rest, tail, c);
      if |body| == c {
        assert body == full[0];
      }
    }
  }

  // ----- Sealing -----

  /**
   * The AEAD under the content key that belongs to one encapsulation: `seal` and `open` take the KEM
   * ciphertext (which with the object address determines the key), the associated data and the
   * chunk index (which with the nonce base determines the nonce).
   */
  datatype Aead = Aead(seal: (Bytes, Bytes, nat, Bytes) -> Bytes, open: (Bytes, Bytes, nat, Bytes) -> Option<Bytes>)

  function KemOf(preamble: Bytes): Bytes
    requires |preamble| >= PREAMBLE_LEN
  {
    preamble[HEADER_LEN..PREAMBLE_LEN]
  }

  /** Everything in the fixed header but the plaintext length; version 4 adds a final-chunk byte. */
  function ChunkAad(preamble: Bytes, version: nat, final: bool): Bytes
    requires |preamble| >= HEADER_LEN
  {
    preamble[..24] + preamble[32..36] + (if version == 4 then [if final then 1 else 0] else [])
  }

  function SealChunk(aead: Aead, preamble: Bytes, version: nat, final: bool, i: nat, chunk: Bytes): Bytes
    requires |preamble| >= PREAMBLE_LEN
  {
    aead.seal(KemOf(preamble), ChunkAad(preamble, version, final), i, chunk)
  }

  /** The ciphertext of the first `k` chunks of an object that has `n` of them. */
  function SealPrefix(aead: Aead, preamble: Bytes, version: nat, n: nat, chunks: seq<Bytes>, k: nat): Bytes
    requires |preamble| >= PREAMBLE_LEN && k <= |chunks|
  {
    if k == 0 then []
    else SealPrefix(aead, preamble, version, n, chunks, k - 1)
         + SealChunk(aead, preamble, version, k == n, k - 1, chunks[k - 1])
  }

  lemma {:induction false} SealPrefixAgrees(aead: Aead, p1: Bytes, p2: Bytes, n1: nat, n2: nat, c1: seq<Bytes>,
                                            c2: seq<Bytes>, k: nat)
    requires |p1| >= PREAMBLE_LEN && |p2| >= PREAMBLE_LEN && k <= |c1| && k <= |c2|
    requires KemOf(p1) == KemOf(p2) && p1[..24] == p2[..24] && p1[32..36] == p2[32..36]
    requires ((k < n1 && k < n2) || n1 == n2) && c1[..k] == c2[..k]
    ensures SealPrefix(aead, p1, 4, n1, c1, k) == SealPrefix(aead, p2, 4, n2, c2, k)
    decreases k
  {
    if k > 0 {
      assert c1[..k][..k - 1] == c1[..k - 1] && c2[..k][..k - 1] == c2[..k - 1];
      assert c1[..k][k - 1] == c1[k - 1] && c2[..k][k - 1] == c2[k - 1];
      SealPrefixAgrees(aead, p1, p2, n1, n2, c1, c2, k - 1);
    }
  }

  /** A preamble with the plaintext length patched in at its offset. */
  function PatchLen(sink: Bytes, len: nat): (r: Bytes)
    requires |sink| >= PREAMBLE_LEN && len < U64_LIMIT
    ensures |r| == |sink|
  {
    sink[..24] + Be64(len) + sink[32..]
  }

  /** Zero-padding to the quantised size; the count is a 64-bit difference, which wraps when padding rounds down. */
  function Pad(body: Bytes): (p: Bytes)
    requires |body| < U64_LIMIT
    ensures body <= p && (|body| <= PADME_LIMIT ==> |p| == PadmeLen(|body|))
    ensures forall i :: |body| <= i < |p| ==> p[i] == 0
  {
    PadmeCoversIff(|body|);
    PadmeFits(|body|);
    body + Zeros(Wrap(PadmeLen(|body|) - |body|))
  }

  /** The envelope of `body`: patched preamble, then every chunk of the padded body, the last one marked. */
  function EnvelopeOf(aead: Aead, preamble: Bytes, c: nat, body: Bytes): Bytes
    requires |preamble| == PREAMBLE_LEN && c > 0 && |body| < U64_LIMIT
  {
    var chunks := Split(Pad(body), c);
    PatchLen(preamble, Wrap(|Pad(body)|)) + SealPrefix(aead, preamble, 4, |chunks|, chunks, |chunks|)
  }

  /**
   * Chunks sealed as "not final" while streaming are what the finished object needs, with only the
   * true last chunk sealed as final: the tail if there is one, else the chunk held back.
   */
  lemma {:induction false} FinalMarker(aead: Aead, preamble: Bytes, full: seq<Bytes>, tail: Bytes, c: nat)
    requires |preamble| == PREAMBLE_LEN && c > 0 && |tail| < c
    requires forall i :: 0 <= i < |full| ==> |full[i]| == c
    ensures var chunks := Split(Concat(full) + tail, c);
            var whole := SealPrefix(aead, preamble, 4, |chunks|, chunks, |chunks|);
            var n := |full|;
            && (tail != [] ==>
                  whole == SealPrefix(aead, preamble, 4, n + 1, full, n) + SealChunk(aead, preamble, 4, true, n, tail))
            && (tail == [] && n > 0 ==>
                  whole == SealPrefix(aead, preamble, 4, n + 1, full, n - 1)
                      + SealChunk(aead, preamble, 4, true, n - 1, full[n - 1]))
            && (tail == [] && n == 0 ==> whole == [])
  {
    var chunks := Split(Concat(full) + tail, c);
    SplitOfChunks(full, tail, c);
    var k := |chunks| - 1;
    if k >= 0 {
      assert chunks[..k] == full[..k];
      SealPrefixAgrees(aead, preamble, preamble, |full| + 1, |chunks|, full, chunks, k);
    }
  }

  // ----- The streaming encryptor -----

  /** All completed chunks but the last are in the sink, none of them marked final. */
  ghost predicate Layout(aead: Aead, preamble: Bytes, c: nat, full: seq<Bytes>, idx: nat, pending: Option<Bytes>,
                         sink: Bytes, written: nat, total: nat) {
    && |preamble| == PREAMBLE_LEN && 0 < c
    && (forall i :: 0 <= i < |full| ==> |full[i]| == c)
    && idx == (if full == [] then 0 else |full| - 1)
    && pending == (if full == [] then None else Some(full[idx]))
    && sink == preamble + SealPrefix(aead, preamble, 4, |full| + 1, full, idx)
    && written == |sink|
    && total == |Concat(full[..idx])|
  }

  lemma {:induction false} LayoutLength(aead: Aead, preamble: Bytes, c: nat, full: seq<Bytes>, idx: nat,
                                        pending: Option<Bytes>, sink: Bytes, written: nat, total: nat)
    requires Layout(aead, preamble, c, full, idx, pending, sink, written, total)
    ensures total + (if pending.Some? then |pending.value| else 0) == |Concat(full)|
  {
    if full != [] {
      ConcatSnoc(full[..idx], full[idx]);
      assert full[..idx] + [full[idx]] == full;
    }
  }

  /** One more completed chunk: the one held back before it joins the sink. */
  lemma {:induction false} LayoutGrows(aead: Aead, preamble: Bytes, c: nat, full: seq<Bytes>, idx: nat,
                                       pending: Option<Bytes>, sink: Bytes, written: nat, total: nat, chunk: Bytes)
    requires Layout(aead, preamble, c, full, idx, pending, sink, written, total) && |chunk| == c
    ensures Concat(full + [chunk]) == Concat(full) + chunk
    ensures pending.None? ==> Layout(aead, preamble, c, full + [chunk], idx, Some(chunk), sink, written, total)
    ensures pending.Some? ==>
              var sealed := SealChunk(aead, preamble, 4, false, idx, pending.value);
              Layout(aead, preamble, c, full + [chunk], idx + 1, Some(chunk), sink + sealed,
                     written + |sealed|, total + |pending.value|)
  {
    ConcatSnoc(full, chunk);
    var after := full + [chunk];
    if pending.Some? {
      var before := full[..idx];
      assert full == before + [full[idx]];
      ConcatSnoc(before, full[idx]);
      assert after[..|full|] == full;
      SealPrefixAgrees(aead, preamble, preamble, |full| + 1, |after| + 1, full, after, |full|);
      assert SealPrefix(aead, preamble, 4, |after| + 1, after, |full|)
          == SealPrefix(aead, preamble, 4, |full| + 1, full, idx) + SealChunk(aead, preamble, 4, false, idx, full[idx]);
    }
  }

  /**
   * One upload. A completed chunk is held back until it is known whether another one follows. The byte
   * counters are exact and are taken modulo 2^64 where they are used.
   */
  class EncryptSession {
    const aead: Aead
    const preamble: Bytes
    const chunkSize: nat
    var sink: Bytes
    var chunkIdx: nat
    var staging: Bytes
    var pending: Option<Bytes>
    var plaintextTotal: nat
    var bytesWritten: nat
    /** The completed chunks so far, the held-back one included. */
    ghost var full: seq<Bytes>

    ghost predicate Valid()
      reads this
    {
      |staging| < chunkSize
          && Layout(aead, preamble, chunkSize, full, chunkIdx, pending, sink, bytesWritten, plaintextTotal)
    }

    ghost function Absorbed(): Bytes
      reads this
    {
      Concat(full) + staging
    }

    constructor (aead: Aead, preamble: Bytes, chunkSize: nat)
      requires |preamble| == PREAMBLE_LEN && chunkSize > 0
      ensures Valid() && Absorbed() == []
      ensures this.aead == aead && this.preamble == preamble && this.chunkSize == chunkSize
    {
      this.aead, this.preamble, this.chunkSize := aead, preamble, chunkSize;
      sink, chunkIdx, staging, pending := preamble, 0, [], None;
      plaintextTotal, bytesWritten, full := 0, |preamble|, [];
    }

    /** Seals one chunk and appends it to the sink. */
    method FlushRaw(data: Bytes, final: bool)
      requires |preamble| == PREAMBLE_LEN
      modifies this`sink, this`chunkIdx, this`plaintextTotal, this`bytesWritten
      ensures sink == old(sink) + SealChunk(aead, preamble, 4, final, old(chunkIdx), data)
      ensures chunkIdx == old(chunkIdx) + 1
      ensures plaintextTotal == old(plaintextTotal) + |data|
      ensures bytesWritten == old(bytesWritten) + |sink| - |old(sink)|
    {
      var sealed := SealChunk(aead, preamble, 4, final, chunkIdx, data);
      plaintextTotal := plaintextTotal + |data|;
      bytesWritten := bytesWritten + |sealed|;
      sink := sink + sealed;
      chunkIdx := chunkIdx + 1;
    }

    /** Holds back the completed chunk; the one held back before it goes out. */
    method Promote()
      requires Layout(aead, preamble, chunkSize, full, chunkIdx, pending, sink, bytesWritten, plaintextTotal)
                && |staging| == chunkSize
      modifies this
      ensures Valid() && staging == [] && Concat(full) == Concat(old(full)) + old(staging)
    {
      LayoutGrows(aead, preamble, chunkSize, full, chunkIdx, pending, sink, bytesWritten, plaintextTotal, staging);
      if pending.Some? {
        FlushRaw(pending.value, false);
      }
      full := full + [staging];
      pending := Some(staging);
      staging := [];
    }

    /** Appends to the staging chunk and promotes it when it is full. */
    method Stage(data: Bytes)
      requires Valid() && |staging| + |data| <= chunkSize
      modifies this
      ensures Valid() && Absorbed() == old(Absorbed()) + data
    {
      staging := staging + data;
      if |staging| == chunkSize {
        Promote();
      }
    }

    method Feed(data: Bytes)
      requires Valid()
      modifies this
      ensures Valid() && Absorbed() == old(Absorbed()) + data
    {
      var pos := 0;
      while pos < |data|
        invariant Valid() && 0 <= pos <= |data|
        invariant Absorbed() == old(Absorbed()) + data[..pos]
      {
        var take := Min(|data| - pos, chunkSize - |staging|);
        Stage(data[pos..pos + take]);
        assert data[..pos] + data[pos..pos + take] == data[..pos + take];
        pos := pos + take;
      }
    }

    /** Zero-pads to the quantised size, seals what is left with the final marker, patches the length. */
    method Finish() returns (envelope: Bytes, cipherSize: nat)
      requires Valid() && |Absorbed()| < U64_LIMIT
      modifies this
      ensures envelope == EnvelopeOf(aead, preamble, chunkSize, old(Absorbed()))
      ensures cipherSize == Wrap(|envelope|)
    {
      PadTo();
      SealTail();
      var total := Wrap(plaintextTotal);
      envelope := PatchLen(sink, total);
      cipherSize := Wrap(bytesWritten);
      assert PatchLen(sink, total) == PatchLen(preamble, total) + sink[PREAMBLE_LEN..];
    }

    method PadTo()
      requires Valid() && |Absorbed()| < U64_LIMIT
      modifies this
      ensures Valid() && Absorbed() == Pad(old(Absorbed()))
    {
      var absorbed := plaintextTotal + (if pending.Some? then |pending.value| else 0) + |staging|;
      LayoutLength(aead, preamble, chunkSize, full, chunkIdx, pending, sink, bytesWritten, plaintextTotal);
      StageZeros(Wrap(PadmeLen(absorbed) - absorbed));
    }

    method StageZeros(padding: nat)
      requires Valid()
      modifies this
      ensures Valid() && Absorbed() == old(Absorbed()) + Zeros(padding)
    {
      var padRemaining := padding;
      while padRemaining > 0
        invariant Valid() && 0 <= padRemaining <= padding
        invariant Absorbed() == old(Absorbed()) + Zeros(padding - padRemaining)
      {
        var take := Min(chunkSize - |staging|, padRemaining);
        Stage(Zeros(take));
        padRemaining := padRemaining - take;
      }
    }

    method SealTail()
      requires Valid()
      modifies this
      ensures var chunks := Split(old(Absorbed()), chunkSize);
              sink == preamble + SealPrefix(aead, preamble, 4, |chunks|, chunks, |chunks|)
      ensures plaintextTotal == |old(Absorbed())| && bytesWritten == |sink|
    {
      FinalMarker(aead, preamble, full, staging, chunkSize);
      LayoutLength(aead, preamble, chunkSize, full, chunkIdx, pending, sink, bytesWritten, plaintextTotal);
      if staging != [] {
        if pending.Some? {
          FlushRaw(pending.value, false);
        }
        FlushRaw(staging, true);
      } else if pending.Some? {
        FlushRaw(pending.value, true);
      }
    }
  }
}
