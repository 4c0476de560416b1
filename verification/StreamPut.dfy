/** Uploads: a body that arrives in pieces is hashed, measured and sealed, and can be read back. */
module StreamPut {
  import opened Base
  import opened Padme
  import opened Envelope
  import opened PlaintextStream

  /** What the server draws or is given for one upload; `keyOk` says that the bucket key parses. */
  datatype Upload = Upload(aead: Aead, keyOk: bool, epoch: nat, nonce: Bytes, kem: Bytes, chunkSize: nat)

  /** A checksum, known only as the checksum of those bytes. */
  datatype Checksum = Checksum(of: Bytes)

  /** Answer of an upload. */
  datatype PutResult =
    | Written(envelope: Bytes, size: nat, checksum: Checksum, cipherSize: nat)
    | BodyTooLarge
    | BodyFailed
    | EncryptionFailed

  ghost predicate WellFormed(u: Upload) {
    u.epoch < U32_LIMIT && |u.nonce| == 12 && |u.kem| == PREAMBLE_LEN - HEADER_LEN
  }

  predicate CanEncrypt(u: Upload) {
    0 < u.chunkSize < U32_LIMIT && u.keyOk
  }

  function Preamble(u: Upload): (p: Bytes)
    requires u.epoch < U32_LIMIT && |u.nonce| == 12 && |u.kem| == PREAMBLE_LEN - HEADER_LEN && u.chunkSize < U32_LIMIT
    ensures |p| == PREAMBLE_LEN
  {
    Header(u.epoch, u.nonce, 0, u.chunkSize) + u.kem
  }

  /** What a complete upload of `body` leaves behind. */
  ghost function Sealing(u: Upload, body: Bytes): PutResult
    requires WellFormed(u) && CanEncrypt(u) && |body| < U64_LIMIT
  {
    var envelope := EnvelopeOf(u.aead, Preamble(u), u.chunkSize, body);
    Written(envelope, |body|, Checksum(body), Wrap(|envelope|))
  }

  // ----- A body in pieces; `None` is a transport error -----

  /** The number of pieces before the first error. */
  function Intelligible(pieces: seq<Option<Bytes>>): (n: nat)
    ensures n <= |pieces| && (forall i :: 0 <= i < n ==> pieces[i].Some?) && (n < |pieces| ==> pieces[n].None?)
  {
    if pieces == [] || pieces[0].None? then 0 else 1 + Intelligible(pieces[1..])
  }

  function Received(pieces: seq<Option<Bytes>>, n: nat): Bytes
    requires n <= Intelligible(pieces)
  {
    if n == 0 then [] else Received(pieces, n - 1) + pieces[n - 1].value
  }

  function Body(pieces: seq<Option<Bytes>>): Bytes {
    Received(pieces, Intelligible(pieces))
  }

  predicate Within(maxBytes: Option<nat>, size: nat) {
    maxBytes.Some? ==> size <= maxBytes.value
  }

  lemma {:induction false} ReceivedGrows(pieces: seq<Option<Bytes>>, a: nat, b: nat)
    requires a <= b <= Intelligible(pieces)
    ensures |Received(pieces, a)| <= |Received(pieces, b)|
    decreases b
  {
    if a < b {
      ReceivedGrows(pieces, a, b - 1);
    }
  }

  /** How much of a body gets through: all of it, or up to the error, the limit or a failing sink. */
  datatype Feeding = Complete | TooLarge | Broken | SinkFailed

  function FeedingOf(pieces: seq<Option<Bytes>>, maxBytes: Option<nat>): Feeding {
    if !Within(maxBytes, |Body(pieces)|) then TooLarge
    else if Intelligible(pieces) < |pieces| then Broken
    else Complete
  }

  /** Feeds a session piece by piece. A sink that does not work may fail at any piece. */
  method FeedPieces(session: EncryptSession, pieces: seq<Option<Bytes>>, maxBytes: Option<nat>, sinkWorks: bool)
    returns (f: Feeding, hashed: Bytes, size: nat)
    requires session.Valid() && session.Absorbed() == [] && |Body(pieces)| < U64_LIMIT
    modifies session
    ensures session.Valid() && (f == FeedingOf(pieces, maxBytes) || (f.SinkFailed? && !sinkWorks))
    ensures f.Complete? ==> session.Absorbed() == hashed == Body(pieces) && size == |hashed|
  {
    hashed, size := [], 0;
    var i := 0;
    while i < |pieces|
      invariant 0 <= i <= Intelligible(pieces) && session.Valid()
      invariant session.Absorbed() == hashed == Received(pieces, i) && size == |hashed|
      invariant Within(maxBytes, size)
    {
      if pieces[i].None? {
        return Broken, hashed, size;
      }
      hashed := hashed + pieces[i].value;
      ReceivedGrows(pieces, i + 1, Intelligible(pieces));
      WrapSmall(size + |pieces[i].value|);
      size := Wrap(size + |pieces[i].value|);
      if maxBytes.Some? && size > maxBytes.value {
        return TooLarge, hashed, size;
      }
      var failsHere: bool := *;
      if !sinkWorks && failsHere {
        return SinkFailed, hashed, size;
      }
      session.Feed(pieces[i].value);
      i := i + 1;
    }
    f := Complete;
  }

  /**
   * Streams a body of any pieces into an envelope. With a working sink it is accepted exactly when it
   * arrived without an error and within the limit, and then gives what sealing the whole body at once
   * gives; a sink that fails never leads to success.
   */
  method StreamEncrypt(u: Upload, pieces: seq<Option<Bytes>>, maxBytes: Option<nat>, sinkWorks: bool)
    returns (r: PutResult)
    requires WellFormed(u) && |Body(pieces)| < U64_LIMIT
    ensures !CanEncrypt(u) ==> r.EncryptionFailed?
    ensures r.BodyTooLarge? ==> CanEncrypt(u) && !Within(maxBytes, |Body(pieces)|)
    ensures r.BodyFailed? ==> CanEncrypt(u) && Within(maxBytes, |Body(pieces)|) && Intelligible(pieces) < |pieces|
    ensures r.EncryptionFailed? ==> !CanEncrypt(u) || !sinkWorks
    ensures sinkWorks && CanEncrypt(u) && !Within(maxBytes, |Body(pieces)|) ==> r.BodyTooLarge?
    ensures sinkWorks && CanEncrypt(u) && Within(maxBytes, |Body(pieces)|) && Intelligible(pieces) < |pieces| ==>
              r.BodyFailed?
    ensures r.Written? <==>
              sinkWorks && CanEncrypt(u) && Within(maxBytes, |Body(pieces)|) && Intelligible(pieces) == |pieces|
    ensures r.Written? ==> r == Sealing(u, Body(pieces))
  {
    if !CanEncrypt(u) {
      return EncryptionFailed;
    }
    var session := new EncryptSession(u.aead, Preamble(u), u.chunkSize);
    var f, hashed, size := FeedPieces(session, pieces, maxBytes, sinkWorks);
    match f
    case Broken => return BodyFailed;
    case TooLarge => return BodyTooLarge;
    case SinkFailed => return EncryptionFailed;
    case Complete =>
      if !sinkWorks {
        return EncryptionFailed;
      }
      var envelope, cipherSize := session.Finish();
      return Written(envelope, size, Checksum(hashed), cipherSize);
  }

  /** The one-shot counterpart. */
  method EncryptBytes(u: Upload, body: Bytes, sinkWorks: bool) returns (r: PutResult)
    requires WellFormed(u) && |body| < U64_LIMIT
    ensures r == if CanEncrypt(u) && sinkWorks then Sealing(u, body) else EncryptionFailed
  {
    if !CanEncrypt(u) {
      return EncryptionFailed;
    }
    var session := new EncryptSession(u.aead, Preamble(u), u.chunkSize);
    if !sinkWorks {
      return EncryptionFailed;
    }
    session.Feed(body);
    assert session.Absorbed() == body;
    var envelope, cipherSize := session.Finish();
    return Written(envelope, |body|, Checksum(body), cipherSize);
  }

  // ----- Reading back -----

  /** Sealing adds a tag and opens to what was sealed. */
  ghost predicate Correct(aead: Aead) {
    forall k, a, i: nat, m {:trigger aead.seal(k, a, i, m)} ::
      |aead.seal(k, a, i, m)| == |m| + TAG_LEN && aead.open(k, a, i, aead.seal(k, a, i, m)) == Some(m)
  }

  /** The object an upload of `body` seals. */
  ghost function SealedBy(u: Upload, body: Bytes): Sealed
    requires WellFormed(u) && CanEncrypt(u) && |body| < U64_LIMIT
  {
    Sealed(4, PatchLen(Preamble(u), Wrap(|Pad(body)|)), u.chunkSize, Pad(body))
  }

  lemma {:induction false} PatchedPreamble(u: Upload, len: nat)
    requires WellFormed(u) && CanEncrypt(u) && len < U64_LIMIT
    ensures var p := Preamble(u); var q := PatchLen(p, len);
            && KemOf(p) == KemOf(q) && p[..24] == q[..24] && p[32..36] == q[32..36]
            && ParseGeometry(q, 4) == Some(u.chunkSize)
  {
    var p, q := Preamble(u), PatchLen(Preamble(u), len);
    assert p == Header(u.epoch, u.nonce, 0, u.chunkSize) + u.kem;
    assert q == Header(u.epoch, u.nonce, len, u.chunkSize) + u.kem;
    ParseOfHeader(u.epoch, u.nonce, len, u.chunkSize, u.kem);
  }

  /** The envelope on disk is the sealed object the reader's guarantees speak about. */
  lemma {:induction false} EnvelopeIsStored(u: Upload, body: Bytes)
    requires WellFormed(u) && CanEncrypt(u) && |body| < U64_LIMIT
    ensures WellSealed(SealedBy(u, body))
    ensures Stored(u.aead, SealedBy(u, body)) == Sealing(u, body).envelope
  {
    var o := SealedBy(u, body);
    var chunks := Split(Pad(body), u.chunkSize);
    PatchedPreamble(u, Wrap(|Pad(body)|));
    SealPrefixAgrees(u.aead, Preamble(u), o.preamble, |chunks|, |chunks|, chunks, chunks, |chunks|);
  }

  lemma {:induction false} CorrectIsHonest(aead: Aead, o: Sealed)
    requires Correct(aead) && WellSealed(o)
    ensures Honest(aead, o)
  {
  }

  /** A backend that holds exactly these bytes. */
  function Disk(stored: Bytes): (get: Storage)
    ensures Intact(get, stored)
  {
    (n: nat, a: nat, b: nat) => Some(Slice(stored, a, b))
  }

  lemma {:induction false} UploadIsUsable(u: Upload, body: Bytes)
    requires WellFormed(u) && CanEncrypt(u) && |body| <= PADME_LIMIT && Correct(u.aead)
    requires |Sealing(u, body).envelope| + u.chunkSize + TAG_LEN <= HALF
    ensures var stored := Sealing(u, body).envelope;
            Usable(u.aead, SealedBy(u, body), Metadata(|body|, Some(|stored|), 4), Disk(stored))
  {
    var o := SealedBy(u, body);
    EnvelopeIsStored(u, body);
    CorrectIsHonest(u.aead, o);
  }

  /** Reads a byte range of an uploaded body from disk. */
  method GetBack(u: Upload, put: PutResult, start: nat, end: nat, ghost body: Bytes)
    returns (items: seq<Bytes>, outcome: Polled)
    requires WellFormed(u) && CanEncrypt(u) && |body| <= PADME_LIMIT && Correct(u.aead)
    requires put == Sealing(u, body) && |put.envelope| + u.chunkSize + TAG_LEN <= HALF && start <= end < put.size
    ensures outcome.Done? && Concat(items) == body[start..end + 1]
              && |items| == end / u.chunkSize - start / u.chunkSize + 1
  {
    UploadIsUsable(u, body);
    var md := Metadata(put.size, Some(put.cipherSize), 4);
    ghost var o := SealedBy(u, body);
    items, outcome := ReadRange(u.aead, Disk(put.envelope), md, start, end, o);
    assert o.padded[start..end + 1] == body[start..end + 1];
  }

  /** Uploads a body in any pieces, then reads a range of what is on disk. */
  method PutThenGet(u: Upload, pieces: seq<Option<Bytes>>, maxBytes: Option<nat>, start: nat, end: nat)
    returns (put: PutResult, items: seq<Bytes>, outcome: Polled)
    requires WellFormed(u) && Correct(u.aead) && |Body(pieces)| < U64_LIMIT
    ensures put.Written? <==> CanEncrypt(u) && Within(maxBytes, |Body(pieces)|) && Intelligible(pieces) == |pieces|
    ensures put.Written? && start <= end < |Body(pieces)| <= PADME_LIMIT
              && |put.envelope| + u.chunkSize + TAG_LEN <= HALF ==>
              outcome.Done? && Concat(items) == Body(pieces)[start..end + 1]
                  && |items| == end / u.chunkSize - start / u.chunkSize + 1
  {
    items, outcome := [], Failed;
    put := StreamEncrypt(u, pieces, maxBytes, true);
    if put.Written? && start <= end < put.size <= PADME_LIMIT && |put.envelope| + u.chunkSize + TAG_LEN <= HALF {
      items, outcome := GetBack(u, put, start, end, Body(pieces));
    }
  }
}
