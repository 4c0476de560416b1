/**
 * Decrypting a complete envelope at once: every chunk in turn, the one that ends the envelope taken for the
 * last. The envelope may be anything; only the expected size comes from a trusted place.
 */
module WholeDecrypt {
  import opened Base
  import opened Padme
  import opened Envelope
  import opened PlaintextStream
  import SP = StreamPut

  datatype Answer = Plain(bytes: Bytes) | Malformed | UnsupportedVersion(version: nat) | AuthFailed

  /** The chunks from offset `pos` on, opened in order. */
  function OpenAll(aead: Aead, envelope: Bytes, version: nat, c: nat, pos: nat, idx: nat): Answer
    requires c > 0 && PREAMBLE_LEN <= pos <= |envelope|
    decreases |envelope| - pos
  {
    if pos == |envelope| then Plain([])
    else
      var end := Min(pos + c + TAG_LEN, |envelope|);
      if end - pos < TAG_LEN then Malformed
      else
        var aad := ChunkAad(envelope, version, end == |envelope|);
        var chunk := aead.open(KemOf(envelope), aad, idx, envelope[pos..end]);
        if chunk.None? then AuthFailed
        else
          Joined(chunk.value, OpenAll(aead, envelope, version, c, end, idx + 1))
  }

  function Joined(front: Bytes, rest: Answer): Answer {
    if rest.Plain? then Plain(front + rest.bytes) else rest
  }

  /** The length must be what the header says and no less than the trusted size, to which it is cut. */
  function Trimmed(content: Answer, envelope: Bytes, expected: nat): Answer
    requires |envelope| >= PREAMBLE_LEN
  {
    if !content.Plain? then content
    else if |content.bytes| != Be64At(envelope, 24) || |content.bytes| < expected then Malformed
    else Plain(content.bytes[..expected])
  }

  function Whole(aead: Aead, envelope: Bytes, expected: nat): Answer {
    if |envelope| < 6 || !StartsWithMagic(envelope) then Malformed
    else
      var version := Be16At(envelope, 4);
      if version != 3 && version != 4 then UnsupportedVersion(version)
      else if |envelope| < PREAMBLE_LEN then Malformed
      else
        var c := ParseGeometry(envelope, version);
        if c.None? || c.value == 0 then Malformed
        else Trimmed(OpenAll(aead, envelope, version, c.value, PREAMBLE_LEN, 0), envelope, expected)
  }

  // ----- Whatever the envelope is -----

  /** Equal associated data means equal headers but for the length, and in version 4 equal final markers. */
  lemma {:induction false} AadBinds(p: Bytes, v: nat, f: bool, q: Bytes, w: nat, g: bool)
    requires |p| >= HEADER_LEN && |q| >= HEADER_LEN && (v == 3 || v == 4) && (w == 3 || w == 4)
    ensures ChunkAad(p, v, f) == ChunkAad(q, w, g) <==>
              v == w && p[..24] == q[..24] && p[32..36] == q[32..36] && (v == 4 ==> f == g)
  {
    var a, b := ChunkAad(p, v, f), ChunkAad(q, w, g);
    assert |a| == (if v == 4 then 29 else 28) && |b| == (if w == 4 then 29 else 28);
    assert a[..24] == p[..24] && a[24..28] == p[32..36] && a[28..] == (if v == 4 then [if f then 1 else 0] else []);
    assert b[..24] == q[..24] && b[24..28] == q[32..36] && b[28..] == (if w == 4 then [if g then 1 else 0] else []);
    if v == w && p[..24] == q[..24] && p[32..36] == q[32..36] && (v == 4 ==> f == g) {
      assert a == b;
    }
    if a == b && v == 4 {
      assert a[28..][0] == b[28..][0];
    }
  }

  /** The padded body from chunk `i` up to chunk `n`. */
  function Between(o: Sealed, i: nat, n: nat): Bytes
    requires o.c > 0
  {
    if Times(i, o.c) <= Min(Times(n, o.c), |o.padded|) then o.padded[Times(i, o.c)..Min(Times(n, o.c), |o.padded|)]
    else []
  }

  lemma {:induction false} BetweenGrows(o: Sealed, i: nat, n: nat)
    requires o.c > 0 && i < n <= Count(o)
    ensures Between(o, i, n) == Split(o.padded, o.c)[i] + Between(o, i + 1, n)
  {
    SplitAt(o.padded, o.c, i);
    if i + 1 < n {
      TimesGrows(i + 1, n, o.c);
      JoinSlices(o.padded, Times(i, o.c), Times(i + 1, o.c), Min(Times(n, o.c), |o.padded|));
    }
  }

  /** What opens is a run of the sealed chunks; in version 4 one that goes on to the last of them. */
  lemma {:induction false} OpenedIsGenuine(aead: Aead, o: Sealed, envelope: Bytes, version: nat, c: nat, pos: nat,
                                           idx: nat)
    returns (n: nat)
    requires Unforgeable(aead, o) && c > 0 && PREAMBLE_LEN <= pos < |envelope| && (version == 3 || version == 4)
    requires OpenAll(aead, envelope, version, c, pos, idx).Plain?
    ensures version == o.version && envelope[..24] == o.preamble[..24] && envelope[32..36] == o.preamble[32..36]
    ensures idx < n <= Count(o) && (version == 4 ==> n == Count(o))
    ensures OpenAll(aead, envelope, version, c, pos, idx).bytes == Between(o, idx, n)
    decreases |envelope| - pos
  {
    var end := Min(pos + c + TAG_LEN, |envelope|);
    var aad := ChunkAad(envelope, version, end == |envelope|);
    assert aead.open(KemOf(envelope), aad, idx, envelope[pos..end]).Some?;
    AadBinds(envelope, version, end == |envelope|, o.preamble, o.version, idx + 1 == Count(o));
    n := idx + 1;
    if end < |envelope| {
      n := OpenedIsGenuine(aead, o, envelope, version, c, end, idx + 1);
    }
    BetweenGrows(o, idx, n);
  }

  /**
   * Whatever the envelope is: an answer is the sealed plaintext cut to the expected size. Version 4 gives no
   * answer unless every chunk was there, or none was and nothing was expected.
   */
  lemma {:induction false} WholeIsGenuine(aead: Aead, o: Sealed, envelope: Bytes, expected: nat)
    requires Unforgeable(aead, o) && Whole(aead, envelope, expected).Plain?
    ensures expected <= |o.padded| && Whole(aead, envelope, expected).bytes == o.padded[..expected]
    ensures |envelope| == PREAMBLE_LEN ==> expected == 0
    ensures |envelope| != PREAMBLE_LEN ==>
              && envelope[..24] == o.preamble[..24] && envelope[32..36] == o.preamble[32..36]
              && (o.version == 4 ==> Be64At(envelope, 24) == |o.padded|)
  {
    var version := Be16At(envelope, 4);
    var c := ParseGeometry(envelope, version).value;
    if |envelope| > PREAMBLE_LEN {
      var n := OpenedIsGenuine(aead, o, envelope, version, c, PREAMBLE_LEN, 0);
      var stop := Min(Times(n, o.c), |o.padded|);
      assert o.padded[..stop][..expected] == o.padded[..expected];
      SplitAt(o.padded, o.c, Count(o) - 1);
    }
  }

  // ----- An envelope cut short -----

  function Chunks(aead: Aead, o: Sealed, k: nat): Bytes
    requires WellSealed(o) && k <= Count(o)
  {
    SealPrefix(aead, o.preamble, o.version, Count(o), Split(o.padded, o.c), k)
  }

  /** The first `k` chunks of an object behind its own preamble with another length. */
  function CutShort(aead: Aead, o: Sealed, k: nat, len: nat): (e: Bytes)
    requires WellSealed(o) && k <= Count(o) && len < U64_LIMIT
    ensures |e| == PREAMBLE_LEN + |Chunks(aead, o, k)|
  {
    PatchLen(o.preamble, len) + Chunks(aead, o, k)
  }

  /** The offset of chunk `i`. */
  function PosOf(aead: Aead, o: Sealed, i: nat): nat
    requires WellSealed(o) && i <= Count(o)
  {
    PREAMBLE_LEN + |Chunks(aead, o, i)|
  }

  lemma {:induction false} CutPreamble(aead: Aead, o: Sealed, k: nat, len: nat)
    requires WellSealed(o) && k <= Count(o) && len < U64_LIMIT
    ensures var e := CutShort(aead, o, k, len);
            && KemOf(e) == KemOf(o.preamble) && Be16At(e, 4) == o.version && StartsWithMagic(e)
            && ParseGeometry(e, o.version) == Some(o.c) && Be64At(e, 24) == len
            && forall f :: ChunkAad(e, o.version, f) == ChunkAad(o.preamble, o.version, f)
  {
    var e := CutShort(aead, o, k, len);
    assert e[..24] == o.preamble[..24] && e[32..PREAMBLE_LEN] == o.preamble[32..PREAMBLE_LEN];
    assert forall i :: 0 <= i < 24 ==> e[i] == o.preamble[i];
    assert forall i :: 32 <= i < PREAMBLE_LEN ==> e[i] == o.preamble[i];
    assert e[32..36] == o.preamble[32..36] && KemOf(e) == KemOf(o.preamble);
    var high, low := Be32(len / U32_LIMIT), Be32(len % U32_LIMIT);
    assert e[24..28] == high && e[28..32] == low;
    assert forall i :: 0 <= i < 4 ==> e[24 + i] == e[24..28][i] && e[28 + i] == e[28..32][i];
    Be32RoundTrip(len / U32_LIMIT);
    Be32RoundTrip(len % U32_LIMIT);
  }

  lemma {:induction false} PosGrows(aead: Aead, o: Sealed, k: nat, i: nat)
    requires Honest(aead, o) && i < k <= Count(o)
    ensures var len := |SealedAt(aead, o, i)|;
            && TAG_LEN < len <= o.c + TAG_LEN && PosOf(aead, o, i + 1) == PosOf(aead, o, i) + len
            && PosOf(aead, o, i + 1) <= PosOf(aead, o, k)
                && (PosOf(aead, o, i + 1) == PosOf(aead, o, k) <==> i + 1 == k)
            && (i + 1 < k ==> len == o.c + TAG_LEN)
    decreases k - i
  {
    SplitAt(o.padded, o.c, i);
    assert |SealedAt(aead, o, i)| == |Split(o.padded, o.c)[i]| + TAG_LEN;
    if i + 1 < k {
      PosGrows(aead, o, k, i + 1);
    }
  }

  /** The window of chunk `i` in a cut envelope is that chunk, and it ends the envelope if it is the last kept. */
  lemma {:induction false} CutWindow(aead: Aead, o: Sealed, k: nat, len: nat, i: nat)
    requires Honest(aead, o) && i < k <= Count(o) && len < U64_LIMIT
    ensures var e := CutShort(aead, o, k, len);
            var end := Min(PosOf(aead, o, i) + o.c + TAG_LEN, |e|);
            && PosOf(aead, o, i) + TAG_LEN < end == PosOf(aead, o, i + 1) <= |e|
            && e[PosOf(aead, o, i)..end] == SealedAt(aead, o, i)
            && (end == |e| <==> i + 1 == k)
  {
    PrefixExtends(aead, o, i + 1, k);
    PosGrows(aead, o, k, i);
    PieceOf(PatchLen(o.preamble, len), Chunks(aead, o, i), SealedAt(aead, o, i), Chunks(aead, o, k));
  }

  lemma {:induction false} CutChunkOpens(aead: Aead, o: Sealed, k: nat, len: nat, i: nat)
    requires Honest(aead, o) && i < k <= Count(o) && len < U64_LIMIT
    requires o.version == 4 ==> (i + 1 == k <==> i + 1 == Count(o))
    ensures var e := CutShort(aead, o, k, len);
            aead.open(KemOf(e), ChunkAad(e, o.version, i + 1 == k), i, SealedAt(aead, o, i)) ==
                Some(Split(o.padded, o.c)[i])
  {
    CutPreamble(aead, o, k, len);
    AadBinds(o.preamble, o.version, i + 1 == k, o.preamble, o.version, i + 1 == Count(o));
  }

  lemma {:induction false} OneMoreOpens(aead: Aead, envelope: Bytes, version: nat, c: nat, pos: nat, idx: nat, end: nat,
                                        chunk: Bytes)
    requires c > 0 && PREAMBLE_LEN <= pos && pos + TAG_LEN < end == Min(pos + c + TAG_LEN, |envelope|)
    requires var aad := ChunkAad(envelope, version, end == |envelope|);
             aead.open(KemOf(envelope), aad, idx, envelope[pos..end]) == Some(chunk)
    ensures OpenAll(aead, envelope, version, c, pos, idx) ==
              Joined(chunk, OpenAll(aead, envelope, version, c, end, idx + 1))
  {
  }

  /** With a matching final marker, or none, the kept chunks open. */
  lemma {:induction false} CutOpens(aead: Aead, o: Sealed, k: nat, len: nat, i: nat)
    requires Honest(aead, o) && i <= k <= Count(o) && len < U64_LIMIT && (o.version == 4 ==> k == Count(o))
    requires PosOf(aead, o, i) <= |CutShort(aead, o, k, len)|
    ensures OpenAll(aead, CutShort(aead, o, k, len), o.version, o.c, PosOf(aead, o, i), i) == Plain(Between(o, i, k))
    decreases k - i
  {
    if i < k {
      CutWindow(aead, o, k, len, i);
      CutChunkOpens(aead, o, k, len, i);
      OneMoreOpens(aead, CutShort(aead, o, k, len), o.version, o.c, PosOf(aead, o, i), i, PosOf(aead, o, i + 1),
          Split(o.padded, o.c)[i]);
      CutOpens(aead, o, k, len, i + 1);
      BetweenGrows(o, i, k);
    }
  }

  /** Without one, the last kept chunk does not. */
  lemma {:induction false} CutFails(aead: Aead, o: Sealed, k: nat, len: nat, i: nat)
    requires Honest(aead, o) && Unforgeable(aead, o) && i < k < Count(o) && len < U64_LIMIT && o.version == 4
    requires PosOf(aead, o, i) <= |CutShort(aead, o, k, len)|
    ensures OpenAll(aead, CutShort(aead, o, k, len), o.version, o.c, PosOf(aead, o, i), i) == AuthFailed
    decreases k - i
  {
    CutWindow(aead, o, k, len, i);
    if i + 1 < k {
      CutFails(aead, o, k, len, i + 1);
      CutChunkOpens(aead, o, k, len, i);
      OneMoreOpens(aead, CutShort(aead, o, k, len), o.version, o.c, PosOf(aead, o, i), i, PosOf(aead, o, i + 1),
          Split(o.padded, o.c)[i]);
    } else {
      CutPreamble(aead, o, k, len);
      AadBinds(o.preamble, o.version, true, o.preamble, o.version, i + 1 == Count(o));
    }
  }

  /**
   * Exactly when an envelope cut after `k` chunks is accepted, with any length written into its header: the
   * length is that of the kept chunks, no more is expected, and the format has no final marker, or nothing
   * was cut off, or nothing was kept.
   */
  lemma {:induction false} CutAcceptedIff(aead: Aead, o: Sealed, k: nat, len: nat, expected: nat)
    requires Honest(aead, o) && Unforgeable(aead, o) && k <= Count(o) && len < U64_LIMIT
    ensures Whole(aead, CutShort(aead, o, k, len), expected).Plain? <==>
              && len == Min(Times(k, o.c), |o.padded|) && expected <= len
              && (o.version == 3 || k == 0 || k == Count(o))
  {
    var e := CutShort(aead, o, k, len);
    CutPreamble(aead, o, k, len);
    assert PosOf(aead, o, 0) == PREAMBLE_LEN;
    if o.version == 3 || k == 0 || k == Count(o) {
      CutKept(aead, o, k, len);
    } else {
      CutFails(aead, o, k, len, 0);
    }
  }

  lemma {:induction false} CutKept(aead: Aead, o: Sealed, k: nat, len: nat)
    requires Honest(aead, o) && k <= Count(o) && len < U64_LIMIT && (o.version == 3 || k == 0 || k == Count(o))
    ensures OpenAll(aead, CutShort(aead, o, k, len), o.version, o.c, PREAMBLE_LEN, 0)
         == Plain(o.padded[..Min(Times(k, o.c), |o.padded|)])
  {
    if k == 0 {
      assert o.padded[..0] == [];
    } else {
      assert PosOf(aead, o, 0) == PREAMBLE_LEN;
      CutOpens(aead, o, k, len, 0);
    }
  }

  /** An object as it was stored, its own length in the header, is decrypted to what was sealed. */
  lemma {:induction false} StoredIsDecrypted(aead: Aead, o: Sealed, expected: nat)
    requires Honest(aead, o) && |o.padded| < U64_LIMIT && PatchLen(o.preamble, |o.padded|) == o.preamble
    requires expected <= |o.padded|
    ensures Whole(aead, Stored(aead, o), expected) == Plain(o.padded[..expected])
  {
    var len := |o.padded|;
    assert CutShort(aead, o, Count(o), len) == Stored(aead, o);
    CutPreamble(aead, o, Count(o), len);
    CutKept(aead, o, Count(o), len);
    if len > 0 {
      SplitAt(o.padded, o.c, Count(o) - 1);
    }
    assert o.padded[..len] == o.padded;
  }

  lemma {:induction false} PatchTwice(p: Bytes, len: nat)
    requires |p| == PREAMBLE_LEN && len < U64_LIMIT
    ensures PatchLen(PatchLen(p, len), len) == PatchLen(p, len)
  {
    var q := PatchLen(p, len);
    assert q[..24] == p[..24] && q[32..] == p[32..];
  }

  /** What is uploaded is decrypted again, whole. */
  lemma {:induction false} EncryptThenDecrypt(u: SP.Upload, body: Bytes)
    requires SP.WellFormed(u) && SP.CanEncrypt(u) && |body| <= PADME_LIMIT && SP.Correct(u.aead)
    ensures Whole(u.aead, SP.Sealing(u, body).envelope, |body|) == Plain(body)
  {
    var o := SP.SealedBy(u, body);
    PadmeFits(|body|);
    WrapSmall(|Pad(body)|);
    SP.EnvelopeIsStored(u, body);
    SP.CorrectIsHonest(u.aead, o);
    PatchTwice(SP.Preamble(u), |Pad(body)|);
    StoredIsDecrypted(u.aead, o, |body|);
    assert o.padded[..|body|] == body;
  }

  // ----- The code -----

  method Decrypt(aead: Aead, envelope: Bytes, expected: nat) returns (r: Answer)
    ensures r == Whole(aead, envelope, expected)
  {
    if |envelope| < 4 {
      return Malformed;
    }
    if envelope[..4] != MAGIC {
      assert !StartsWithMagic(envelope);
      return Malformed;
    }
    if |envelope| < 6 {
      return Malformed;
    }
    var version := Be16At(envelope, 4);
    if version != 3 && version != 4 {
      return UnsupportedVersion(version);
    }
    if |envelope| < PREAMBLE_LEN {
      return Malformed;
    }
    var geometry := ParseGeometry(envelope, version);
    if geometry.None? || geometry.value == 0 {
      return Malformed;
    }
    var content := OpenChunks(aead, envelope, version, geometry.value);
    return Trimmed(content, envelope, expected);
  }

  method OpenChunks(aead: Aead, envelope: Bytes, version: nat, c: nat) returns (r: Answer)
    requires c > 0 && |envelope| >= PREAMBLE_LEN
    ensures r == OpenAll(aead, envelope, version, c, PREAMBLE_LEN, 0)
  {
    var plaintext, pos, idx := [], PREAMBLE_LEN, 0;
    while pos < |envelope|
      invariant PREAMBLE_LEN <= pos <= |envelope| && idx >= 0
      invariant OpenAll(aead, envelope, version, c, PREAMBLE_LEN, 0)
             == Joined(plaintext, OpenAll(aead, envelope, version, c, pos, idx))
    {
      var end := Min(pos + c + TAG_LEN, |envelope|);
      if end - pos < TAG_LEN {
        return Malformed;
      }
      var aad := ChunkAad(envelope, version, end == |envelope|);
      var chunk := aead.open(KemOf(envelope), aad, idx, envelope[pos..end]);
      if chunk.None? {
        return AuthFailed;
      }
      ghost var rest := OpenAll(aead, envelope, version, c, end, idx + 1);
      assert rest.Plain? ==> plaintext + (chunk.value + rest.bytes) == (plaintext + chunk.value) + rest.bytes;
      plaintext, pos, idx := plaintext + chunk.value, end, idx + 1;
    }
    assert plaintext + [] == plaintext;
    return Plain(plaintext);
  }
}
