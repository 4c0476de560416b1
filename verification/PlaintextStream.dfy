/**
 * Ranged reads of a sealed object: one ciphertext window per chunk, decrypted and trimmed, against a
 * storage backend that may return anything.
 */
module PlaintextStream {
  import opened Base
  import opened Padme
  import opened Envelope

  /** An object as it was sealed: format version 3 or 4, preamble, chunk size and padded plaintext. */
  datatype Sealed = Sealed(version: nat, preamble: Bytes, c: nat, padded: Bytes)

  /** What the authenticated metadata sidecar says about the object. */
  datatype Metadata = Metadata(size: nat, cipherSize: Option<nat>, version: nat)

  /** One answer of the stream; `Aborted` stands for an out-of-range slice. */
  datatype Polled = Item(bytes: Bytes) | Done | Failed | Aborted

  /** `get(n, first, last)` is what the n-th range request returns: an error or any bytes at all. */
  type Storage = (nat, nat, nat) -> Option<Bytes>

  const HALF: nat := 0x8000_0000_0000_0000

  // ----- The sealed object -----

  predicate WellSealed(o: Sealed) {
    && (o.version == 3 || o.version == 4)
    && |o.preamble| == PREAMBLE_LEN
    && ParseGeometry(o.preamble, o.version) == Some(o.c)
    && o.c > 0
  }

  function Count(o: Sealed): nat
    requires o.c > 0
  {
    |Split(o.padded, o.c)|
  }

  function AadAt(o: Sealed, i: nat): Bytes
    requires WellSealed(o)
  {
    ChunkAad(o.preamble, o.version, i + 1 == Count(o))
  }

  function SealedAt(aead: Aead, o: Sealed, i: nat): Bytes
    requires WellSealed(o) && i < Count(o)
  {
    SealChunk(aead, o.preamble, o.version, i + 1 == Count(o), i, Split(o.padded, o.c)[i])
  }

  /** The bytes on disk. */
  function Stored(aead: Aead, o: Sealed): Bytes
    requires WellSealed(o)
  {
    o.preamble + SealPrefix(aead, o.preamble, o.version, Count(o), Split(o.padded, o.c), Count(o))
  }

  /** Sealed chunks carry a tag and open to what was sealed. */
  ghost predicate Honest(aead: Aead, o: Sealed) {
    WellSealed(o) && forall i :: 0 <= i < Count(o) ==>
      && |SealedAt(aead, o, i)| == |Split(o.padded, o.c)[i]| + TAG_LEN
      && aead.open(KemOf(o.preamble), AadAt(o, i), i, SealedAt(aead, o, i)) == Some(Split(o.padded, o.c)[i])
  }

  /** Ideal AEAD: whatever opens is a chunk sealed for this object, header and index. */
  ghost predicate Unforgeable(aead: Aead, o: Sealed) {
    WellSealed(o) && forall k, a, i: nat, ct :: aead.open(k, a, i, ct).Some? ==>
      && k == KemOf(o.preamble) && i < Count(o) && a == AadAt(o, i)
      && aead.open(k, a, i, ct).value == Split(o.padded, o.c)[i]
  }

  /** What an ideal AEAD for one object answers: its own chunks open, nothing else does. */
  function IdealOpen(o: Sealed, k: Bytes, a: Bytes, i: nat, ct: Bytes): Option<Bytes>
    requires WellSealed(o)
  {
    if k == KemOf(o.preamble) && i < Count(o) && a == AadAt(o, i) && ct == Split(o.padded, o.c)[i] + Zeros(TAG_LEN)
    then Some(Split(o.padded, o.c)[i]) else None
  }

  /** The two assumptions about the AEAD can be met together, for every sealed object. */
  lemma {:induction false} IdealAeadExists(o: Sealed) returns (aead: Aead)
    requires WellSealed(o)
    ensures Honest(aead, o) && Unforgeable(aead, o)
  {
    aead := Aead((k: Bytes, a: Bytes, i: nat, m: Bytes) => m + Zeros(TAG_LEN),
                 (k: Bytes, a: Bytes, i: nat, ct: Bytes) => IdealOpen(o, k, a, i, ct));
  }

  // ----- Where the chunks lie -----

  lemma {:induction false} PrefixLength(aead: Aead, o: Sealed, k: nat)
    requires Honest(aead, o) && k < Count(o)
    ensures |SealPrefix(aead, o.preamble, o.version, Count(o), Split(o.padded, o.c), k)| == Times(k, o.c + TAG_LEN)
    decreases k
  {
    if k > 0 {
      PrefixLength(aead, o, k - 1);
      SplitAt(o.padded, o.c, k - 1);
      assert |SealedAt(aead, o, k - 1)| == o.c + TAG_LEN;
    }
  }

  lemma {:induction false} PrefixExtends(aead: Aead, o: Sealed, k: nat, m: nat)
    requires WellSealed(o) && k <= m <= Count(o)
    ensures var chunks := Split(o.padded, o.c);
            SealPrefix(aead, o.preamble, o.version, Count(o), chunks, k)
            <= SealPrefix(aead, o.preamble, o.version, Count(o), chunks, m)
    decreases m
  {
    if k < m {
      PrefixExtends(aead, o, k, m - 1);
    }
  }

  /** Chunk `i` is found at the offset the reader computes, and only the last chunk may be short. */
  lemma {:induction false} ChunkOffset(aead: Aead, o: Sealed, i: nat)
    requires Honest(aead, o) && i < Count(o)
    ensures var stored := Stored(aead, o);
            var at := PREAMBLE_LEN + Times(i, o.c + TAG_LEN);
            var len := |SealedAt(aead, o, i)|;
            && TAG_LEN < len <= o.c + TAG_LEN
            && at + len <= |stored| && stored[at..at + len] == SealedAt(aead, o, i)
            && (i + 1 < Count(o) ==> len == o.c + TAG_LEN)
            && (i + 1 == Count(o) ==> at + len == |stored|)
  {
    var chunks := Split(o.padded, o.c);
    var before := SealPrefix(aead, o.preamble, o.version, Count(o), chunks, i);
    var whole := SealPrefix(aead, o.preamble, o.version, Count(o), chunks, Count(o));
    PrefixLength(aead, o, i);
    PrefixExtends(aead, o, i + 1, Count(o));
    SplitAt(o.padded, o.c, i);
    PieceOf(o.preamble, before, SealedAt(aead, o, i), whole);
  }

  lemma {:induction false} PieceOf(front: Bytes, before: Bytes, piece: Bytes, whole: Bytes)
    requires before + piece <= whole
    ensures var at := |front| + |before|;
            at + |piece| <= |front + whole| && (front + whole)[at..at + |piece|] == piece
  {
    var at := |front| + |before|;
    forall k | 0 <= k < |piece| ensures (front + whole)[at..at + |piece|][k] == piece[k] {
      assert whole[|before| + k] == (before + piece)[|before| + k];
    }
  }

  // ----- One chunk of a read -----

  function CipherStart(preambleLen: nat, c: nat, cur: nat): nat {
    Wrap(preambleLen + Times(cur, c + TAG_LEN))
  }

  function CipherEnd(preambleLen: nat, c: nat, cur: nat, cipherSize: Option<nat>): nat {
    var full := Wrap(preambleLen + Times(cur + 1, c + TAG_LEN) - 1);
    if cipherSize.Some? then Min(full, Wrap(cipherSize.value - 1)) else full
  }

  /** Decrypts a run of whole chunks; `total` places the version-4 final marker. */
  function DecryptChunks(aead: Aead, preamble: Bytes, version: nat, c: nat, total: nat, ct: Bytes,
                         idx: nat): Option<Bytes>
    requires |preamble| >= PREAMBLE_LEN && c > 0
    decreases |ct|
  {
    if ct == [] then Some([])
    else if |ct| < TAG_LEN then None
    else
      var end := Min(c + TAG_LEN, |ct|);
      var first := aead.open(KemOf(preamble), ChunkAad(preamble, version, idx + 1 == total), idx, ct[..end]);
      if first.None? then None
      else
        var rest := DecryptChunks(aead, preamble, version, c, total, ct[end..], idx + 1);
        if rest.None? then None else Some(first.value + rest.value)
  }

  function SaturatingSub(a: nat, b: nat): nat {
    if a < b then 0 else a - b
  }

  /** Cuts a decrypted chunk that starts at plaintext offset `abs` to the requested range. */
  function Trim(chunk: Bytes, abs: nat, isLast: bool, start: nat, end: nat): Polled {
    var front := SaturatingSub(start, abs);
    var lastValid := SaturatingSub(|chunk|, 1);
    var back := if isLast then Min(SaturatingSub(end, abs), lastValid) else lastValid;
    if front <= back + 1 <= |chunk| then Item(chunk[front..back + 1]) else Aborted
  }

  /** What the stream makes of the window storage returned for chunk `cur`. */
  function Deliver(aead: Aead, md: Metadata, preamble: Bytes, c: nat, total: nat, cur: nat, start: nat, end: nat,
                   window: Option<Bytes>): Polled
    requires c > 0
  {
    var first := CipherStart(|preamble|, c, cur);
    var last := CipherEnd(|preamble|, c, cur, md.cipherSize);
    if window.None? || |window.value| != Wrap(last - first + 1) || |preamble| < PREAMBLE_LEN then Failed
    else
      var pt := DecryptChunks(aead, preamble, md.version, c, total, window.value, cur);
      if pt.None? then Failed else Trim(pt.value, Times(cur, c), cur == Quot(end, c), start, end)
  }

  // ----- The range, chunk by chunk -----

  /** The requested bytes below plaintext offset `stop`. */
  function Upto(text: Bytes, start: nat, end: nat, stop: nat): (r: Bytes)
    requires start <= end < |text|
  {
    if Min(end + 1, stop) <= start then [] else text[start..Min(end + 1, stop)]
  }

  lemma {:induction false} UptoEnds(text: Bytes, c: nat, start: nat, end: nat)
    requires c > 0 && start <= end < |text|
    ensures Upto(text, start, end, Times(Quot(start, c), c)) == []
    ensures Upto(text, start, end, Times(Quot(end, c) + 1, c)) == text[start..end + 1]
  {
  }

  /** Where the piece of the range that a chunk holds begins. */
  function PieceStart(abs: nat, start: nat): nat {
    abs + SaturatingSub(start, abs)
  }

  lemma {:induction false} TrimIsSlice(text: Bytes, chunk: Bytes, abs: nat, next: nat, isLast: bool, start: nat,
                                       end: nat)
    requires start <= end < |text| && abs < next && start < next && abs <= end && (isLast <==> end < next)
    requires chunk == text[abs..Min(next, |text|)]
    ensures Trim(chunk, abs, isLast, start, end) == Item(text[PieceStart(abs, start)..Min(end + 1, next)])
  {
    var front := SaturatingSub(start, abs);
    var back := if isLast then end - abs else next - abs - 1;
    SubSlice(text, abs, Min(next, |text|), front, back + 1);
  }

  lemma {:induction false} UptoGrows(text: Bytes, abs: nat, next: nat, start: nat, end: nat)
    requires start <= end < |text| && abs < next && start < next && abs <= end
    ensures Upto(text, start, end, abs) + text[PieceStart(abs, start)..Min(end + 1, next)] ==
              Upto(text, start, end, next)
  {
    var stop := Min(end + 1, next);
    if start < abs {
      JoinSlices(text, start, abs, stop);
    } else {
      assert [] + text[start..stop] == text[start..stop];
    }
  }

  lemma {:induction false} TrimIsNextPiece(o: Sealed, cur: nat, start: nat, end: nat)
    requires o.c > 0 && start <= end < |o.padded| && Quot(start, o.c) <= cur <= Quot(end, o.c)
    ensures cur < Count(o)
    ensures var piece := Trim(Split(o.padded, o.c)[cur], Times(cur, o.c), cur == Quot(end, o.c), start, end);
            && piece.Item?
            && Upto(o.padded, start, end, Times(cur, o.c)) + piece.bytes ==
                Upto(o.padded, start, end, Times(cur + 1, o.c))
  {
    ChunkOfPosition(o.padded, o.c, end);
    SplitAt(o.padded, o.c, cur);
    ChunkBounds(o.c, cur, start, end);
    var chunk, abs, next := Split(o.padded, o.c)[cur], Times(cur, o.c), Times(cur + 1, o.c);
    TrimIsSlice(o.padded, chunk, abs, next, cur == Quot(end, o.c), start, end);
    UptoGrows(o.padded, abs, next, start, end);
  }

  lemma {:induction false} ChunkBounds(c: nat, cur: nat, start: nat, end: nat)
    requires c > 0 && Quot(start, c) <= cur <= Quot(end, c)
    ensures start < Times(cur, c) + c && Times(cur, c) <= end && (cur == Quot(end, c) <==> end < Times(cur, c) + c)
  {
    if Quot(start, c) < cur {
      TimesGrows(Quot(start, c), cur, c);
    }
    if cur < Quot(end, c) {
      TimesGrows(cur, Quot(end, c), c);
    }
  }

  // ----- Whatever storage returns -----

  /** What the metadata must be trusted for, and the sizes any file and allocation obey. */
  ghost predicate Trusted(aead: Aead, o: Sealed, md: Metadata) {
    && Honest(aead, o)
    && md.version == o.version && md.size <= |o.padded|
    && (md.cipherSize.Some? ==> md.cipherSize.value == |Stored(aead, o)|)
    && |Stored(aead, o)| + o.c + TAG_LEN <= HALF
  }

  /** A chunk that opens under a preamble pins that preamble's geometry to the sealed one. */
  lemma {:induction false} AadPinsGeometry(o: Sealed, preamble: Bytes, final: bool, i: nat)
    requires WellSealed(o) && |preamble| >= PREAMBLE_LEN
    requires ChunkAad(preamble, o.version, final) == AadAt(o, i)
    ensures ParseGeometry(preamble, o.version) == Some(o.c)
  {
    var a, b := ChunkAad(preamble, o.version, final), AadAt(o, i);
    assert a[..24] == preamble[..24] && b[..24] == o.preamble[..24];
    assert a[24..28] == preamble[32..36] && b[24..28] == o.preamble[32..36];
    assert forall j :: 0 <= j < 24 ==> preamble[j] == a[j] && o.preamble[j] == b[j];
    assert forall j :: 0 <= j < 4 ==> preamble[32 + j] == a[24..28][j] && o.preamble[32 + j] == b[24..28][j];
  }

  /** Below 2^63 nothing wraps, and the bounds are the plain ones. */
  lemma {:induction false} PlainBounds(preambleLen: nat, c: nat, cur: nat, cipherSize: Option<nat>, storedLen: nat)
    requires preambleLen < HALF && Times(cur, c + TAG_LEN) <= storedLen && storedLen + c + TAG_LEN <= HALF
    requires storedLen > 0 && (cipherSize.Some? ==> cipherSize.value == storedLen)
    ensures var at := preambleLen + Times(cur, c + TAG_LEN);
            && CipherStart(preambleLen, c, cur) == at
            && CipherEnd(preambleLen, c, cur, cipherSize) ==
                 if cipherSize.Some? then Min(at + c + TAG_LEN - 1, storedLen - 1) else at + c + TAG_LEN - 1
  {
    var at := preambleLen + Times(cur, c + TAG_LEN);
    WrapSmall(at);
    WrapSmall(at + c + TAG_LEN - 1);
    WrapSmall(storedLen - 1);
  }

  /** With the sealed geometry, the window is at most one chunk wide or absurdly wide. */
  lemma {:induction false} WindowWidth(aead: Aead, o: Sealed, md: Metadata, preambleLen: nat, cur: nat)
    requires Trusted(aead, o, md) && cur < Count(o) && PREAMBLE_LEN <= preambleLen < HALF
    ensures var width := Wrap(CipherEnd(preambleLen, o.c, cur, md.cipherSize) - CipherStart(preambleLen, o.c, cur) + 1);
            width <= o.c + TAG_LEN || width >= HALF
  {
    ChunkOffset(aead, o, cur);
    PlainBounds(preambleLen, o.c, cur, md.cipherSize, |Stored(aead, o)|);
    var first: int, last: int := CipherStart(preambleLen, o.c, cur), CipherEnd(preambleLen, o.c, cur, md.cipherSize);
    WidthDichotomy(last - first + 1, o.c + TAG_LEN);
  }

  lemma {:induction false} WidthDichotomy(width: int, stride: nat)
    requires 0 <= width + HALF && width <= stride < U64_LIMIT
    ensures Wrap(width) <= stride || Wrap(width) >= HALF
  {
    if width < 0 {
      assert Wrap(width) == Wrap(width + U64_LIMIT) == width + U64_LIMIT;
    }
  }

  /**
   * If a chunk is delivered at all, the preamble carried the sealed geometry and the bytes are the
   * next piece of the plaintext range, no matter what storage answered.
   */
  lemma {:induction false} DeliverIsGenuine(aead: Aead, o: Sealed, md: Metadata, preamble: Bytes, c: nat, total: nat,
                                            cur: nat, start: nat, end: nat, window: Option<Bytes>)
    requires Trusted(aead, o, md) && Unforgeable(aead, o)
    requires start <= end < md.size && ParseGeometry(preamble, md.version) == Some(c) && c > 0
    requires Quot(start, c) <= cur <= Quot(end, c)
    requires |preamble| < HALF && (window.Some? ==> |window.value| < HALF)
    requires Deliver(aead, md, preamble, c, total, cur, start, end, window).Item?
    ensures c == o.c
    ensures Upto(o.padded, start, end, Times(cur, c))
              + Deliver(aead, md, preamble, c, total, cur, start, end, window).bytes
            == Upto(o.padded, start, end, Times(cur + 1, c))
  {
    var ct := window.value;
    assert ct != [];
    GenuineChunk(aead, o, md, preamble, c, total, cur, ct);
    TrimIsNextPiece(o, cur, start, end);
  }

  /** A window of the computed width that decrypts holds one chunk, sealed under the preamble's geometry. */
  lemma {:induction false} GenuineChunk(aead: Aead, o: Sealed, md: Metadata, preamble: Bytes, c: nat, total: nat,
                                        cur: nat, ct: Bytes)
    requires Trusted(aead, o, md) && Unforgeable(aead, o) && ParseGeometry(preamble, md.version) == Some(c) && c > 0
    requires PREAMBLE_LEN <= |preamble| < HALF && 0 < |ct| < HALF
    requires |ct| == Wrap(CipherEnd(|preamble|, c, cur, md.cipherSize) - CipherStart(|preamble|, c, cur) + 1)
    requires DecryptChunks(aead, preamble, md.version, c, total, ct, cur).Some?
    ensures c == o.c && cur < Count(o)
    ensures DecryptChunks(aead, preamble, md.version, c, total, ct, cur).value == Split(o.padded, o.c)[cur]
  {
    DecryptedIsGenuine(aead, o, preamble, c, total, ct, cur);
    WindowWidth(aead, o, md, |preamble|, cur);
  }

  lemma {:induction false} DecryptedIsGenuine(aead: Aead, o: Sealed, preamble: Bytes, c: nat, total: nat, ct: Bytes,
                                              cur: nat)
    requires Unforgeable(aead, o) && |preamble| >= PREAMBLE_LEN && c > 0
    requires ct != [] && DecryptChunks(aead, preamble, o.version, c, total, ct, cur).Some?
    ensures ParseGeometry(preamble, o.version) == Some(o.c)
    ensures cur < Count(o)
    ensures |ct| <= c + TAG_LEN ==>
              DecryptChunks(aead, preamble, o.version, c, total, ct, cur).value == Split(o.padded, o.c)[cur]
  {
    var width := Min(c + TAG_LEN, |ct|);
    var first := aead.open(KemOf(preamble), ChunkAad(preamble, o.version, cur + 1 == total), cur, ct[..width]);
    assert first.Some?;
    AadPinsGeometry(o, preamble, cur + 1 == total, cur);
    if |ct| <= c + TAG_LEN {
      assert ct[width..] == [];
      assert first.value + [] == first.value;
    }
  }

  // ----- When a slice goes out of range -----

  lemma {:induction false} TrimOfNothing(abs: nat, isLast: bool, start: nat, end: nat)
    ensures Trim([], abs, isLast, start, end) == Aborted
  {
  }

  /**
   * A poll aborts if and only if the window the reader computed is empty and storage answers with no
   * bytes: the length check passes, nothing is decrypted, and there is no chunk to trim.
   */
  lemma {:induction false} AbortsIffEmptyWindow(aead: Aead, o: Sealed, md: Metadata, preamble: Bytes, c: nat,
                                                total: nat, cur: nat, start: nat, end: nat, window: Option<Bytes>)
    requires Trusted(aead, o, md) && Unforgeable(aead, o)
    requires start <= end < md.size && ParseGeometry(preamble, md.version) == Some(c) && c > 0
    requires Quot(start, c) <= cur <= Quot(end, c)
    requires |preamble| < HALF && (window.Some? ==> |window.value| < HALF)
    ensures Deliver(aead, md, preamble, c, total, cur, start, end, window).Aborted? <==>
              && window == Some([]) && |preamble| >= PREAMBLE_LEN
              && Wrap(CipherEnd(|preamble|, c, cur, md.cipherSize) - CipherStart(|preamble|, c, cur) + 1) == 0
  {
    TrimOfNothing(Times(cur, c), cur == Quot(end, c), start, end);
    if window.Some? && window.value != [] && |preamble| >= PREAMBLE_LEN {
      NonEmptyWindowNeverAborts(aead, o, md, preamble, c, total, cur, start, end, window.value);
    }
  }

  lemma {:induction false} NonEmptyWindowNeverAborts(aead: Aead, o: Sealed, md: Metadata, preamble: Bytes, c: nat,
        total: nat, cur: nat, start: nat, end: nat, ct: Bytes)
    requires Trusted(aead, o, md) && Unforgeable(aead, o)
    requires start <= end < md.size && ParseGeometry(preamble, md.version) == Some(c) && c > 0
    requires Quot(start, c) <= cur <= Quot(end, c)
    requires PREAMBLE_LEN <= |preamble| < HALF && 0 < |ct| < HALF
    ensures !Deliver(aead, md, preamble, c, total, cur, start, end, Some(ct)).Aborted?
  {
    var pt := DecryptChunks(aead, preamble, md.version, c, total, ct, cur);
    if pt.Some? && |ct| == Wrap(CipherEnd(|preamble|, c, cur, md.cipherSize) - CipherStart(|preamble|, c, cur) + 1) {
      GenuineChunk(aead, o, md, preamble, c, total, cur, ct);
      TrimIsNextPiece(o, cur, start, end);
    }
  }

  /** Short of 64-bit overflow, the window is empty if and only if it starts at the recorded end of the file. */
  lemma {:induction false} EmptyWindowIff(preambleLen: nat, c: nat, cur: nat, cipherSize: Option<nat>)
    requires preambleLen + Times(cur, c + TAG_LEN) + c + TAG_LEN < U64_LIMIT
    requires cipherSize.Some? ==> 0 < cipherSize.value < U64_LIMIT
    ensures Wrap(CipherEnd(preambleLen, c, cur, cipherSize) - CipherStart(preambleLen, c, cur) + 1) == 0 <==>
              cipherSize == Some(CipherStart(preambleLen, c, cur))
  {
    var first := preambleLen + Times(cur, c + TAG_LEN);
    WrapSmall(first);
    WrapSmall(first + c + TAG_LEN - 1);
    if cipherSize.Some? {
      WrapSmall(cipherSize.value - 1);
    }
    WrapIsZero(CipherEnd(preambleLen, c, cur, cipherSize) - first + 1);
  }

  lemma {:induction false} WrapIsZero(x: int)
    requires 0 < x + U64_LIMIT && x < U64_LIMIT
    ensures Wrap(x) == 0 <==> x == 0
  {
  }

  /** With the sealed geometry a window is never empty, so nothing aborts. */
  lemma {:induction false} SealedGeometryNeverAborts(aead: Aead, o: Sealed, md: Metadata, cur: nat)
    requires Trusted(aead, o, md) && cur < Count(o)
    ensures Wrap(CipherEnd(PREAMBLE_LEN, o.c, cur, md.cipherSize) - CipherStart(PREAMBLE_LEN, o.c, cur) + 1) != 0
  {
    ChunkOffset(aead, o, cur);
    EmptyWindowIff(PREAMBLE_LEN, o.c, cur, md.cipherSize);
    PlainBounds(PREAMBLE_LEN, o.c, cur, md.cipherSize, |Stored(aead, o)|);
  }

  /** Bytes 88 to 99 under chunk size 44 lie in chunk 2, whose window would start at byte 1244. */
  lemma {:induction false} ForgedWindowAborts(aead: Aead, preamble: Bytes, stored: Bytes, total: nat)
    requires |preamble| == PREAMBLE_LEN && |stored| == PREAMBLE_LEN + 104 + TAG_LEN
    ensures var md := Metadata(100, Some(|stored|), 4);
            var first, last := CipherStart(|preamble|, 44, 2), CipherEnd(|preamble|, 44, 2, md.cipherSize);
            && Quot(88, 44) == 2 == Quot(99, 44)
            && Deliver(aead, md, preamble, 44, total, 2, 88, 99, Some(Slice(stored, first, last))) == Aborted
  {
    TimesIsProduct(2, 44);
    TimesIsProduct(2, 44 + TAG_LEN);
    QuotUnique(88, 44, 2);
    QuotUnique(99, 44, 2);
    EmptyWindowIff(PREAMBLE_LEN, 44, 2, Some(|stored|));
    TrimOfNothing(Times(2, 44), true, 88, 99);
  }

  // ----- Intact storage -----

  /** What an intact backend returns for an inclusive range: the bytes that exist. */
  function Slice(stored: Bytes, first: nat, last: nat): Bytes {
    stored[Min(first, |stored|)..if last + 1 < first then Min(first, |stored|) else Min(last + 1, |stored|)]
  }

  /** The last chunk's window does not reach past the end of the file. */
  predicate WindowOnDisk(storedLen: nat, c: nat, cur: nat) {
    PREAMBLE_LEN + Times(cur + 1, c + TAG_LEN) <= storedLen
  }

  /** On an intact object every index stays in range and below 2^64, and the chunk is delivered. */
  lemma {:induction false} DeliverIntact(aead: Aead, o: Sealed, md: Metadata, total: nat, cur: nat, start: nat,
                                         end: nat)
    requires Trusted(aead, o, md) && start <= end < md.size
    requires o.version == 4 ==> total == Count(o)
    requires Quot(start, o.c) <= cur <= Quot(end, o.c)
    ensures var first := CipherStart(PREAMBLE_LEN, o.c, cur);
            var last := CipherEnd(PREAMBLE_LEN, o.c, cur, md.cipherSize);
            var polled :=
                Deliver(aead, md, o.preamble, o.c, total, cur, start, end, Some(Slice(Stored(aead, o), first, last)));
            && first <= last < U64_LIMIT && first < |Stored(aead, o)|
            && (md.cipherSize.Some? || WindowOnDisk(|Stored(aead, o)|, o.c, cur) ==> polled.Item?)
            && (polled.Item? ==>
                  Upto(o.padded, start, end, Times(cur, o.c)) + polled.bytes ==
                      Upto(o.padded, start, end, Times(cur + 1, o.c)))
            && (!(md.cipherSize.Some? || WindowOnDisk(|Stored(aead, o)|, o.c, cur)) ==> polled.Failed?)
  {
    TrimIsNextPiece(o, cur, start, end);
    IntactWindow(aead, o, md, cur);
    DecryptIntact(aead, o, total, cur);
    var first, last := CipherStart(PREAMBLE_LEN, o.c, cur), CipherEnd(PREAMBLE_LEN, o.c, cur, md.cipherSize);
    DeliverMeaning(aead, md, o.preamble, o.c, total, cur, start, end, Slice(Stored(aead, o), first, last));
  }

  /** A window of the right length is decrypted and trimmed; any other is refused. */
  lemma {:induction false} DeliverMeaning(aead: Aead, md: Metadata, preamble: Bytes, c: nat, total: nat, cur: nat,
                                          start: nat, end: nat, window: Bytes)
    requires c > 0 && |preamble| >= PREAMBLE_LEN
    ensures var pt := DecryptChunks(aead, preamble, md.version, c, total, window, cur);
            Deliver(aead, md, preamble, c, total, cur, start, end, Some(window)) ==
              if |window| != Wrap(CipherEnd(|preamble|, c, cur, md.cipherSize) - CipherStart(|preamble|, c, cur) + 1)
                  || pt.None?
              then Failed else Trim(pt.value, Times(cur, c), cur == Quot(end, c), start, end)
  {
  }

  lemma {:induction false} IntactWindow(aead: Aead, o: Sealed, md: Metadata, cur: nat)
    requires Trusted(aead, o, md) && cur < Count(o)
    ensures var first := CipherStart(PREAMBLE_LEN, o.c, cur);
            var last := CipherEnd(PREAMBLE_LEN, o.c, cur, md.cipherSize);
            var window := Slice(Stored(aead, o), first, last);
            && first <= last < U64_LIMIT && first < |Stored(aead, o)|
            && (if md.cipherSize.Some? || WindowOnDisk(|Stored(aead, o)|, o.c, cur)
                then window == SealedAt(aead, o, cur) && |window| == Wrap(last - first + 1)
                else |window| != Wrap(last - first + 1))
  {
    ChunkOffset(aead, o, cur);
    PlainBounds(PREAMBLE_LEN, o.c, cur, md.cipherSize, |Stored(aead, o)|);
    var first := CipherStart(PREAMBLE_LEN, o.c, cur);
    var last := CipherEnd(PREAMBLE_LEN, o.c, cur, md.cipherSize);
    WrapSmall(last - first + 1);
  }

  lemma {:induction false} DecryptIntact(aead: Aead, o: Sealed, total: nat, cur: nat)
    requires Honest(aead, o) && cur < Count(o) && (o.version == 4 ==> total == Count(o))
    ensures DecryptChunks(aead, o.preamble, o.version, o.c, total, SealedAt(aead, o, cur), cur) ==
              Some(Split(o.padded, o.c)[cur])
  {
    ChunkOffset(aead, o, cur);
    var ct := SealedAt(aead, o, cur);
    var width := Min(o.c + TAG_LEN, |ct|);
    assert ct[..width] == ct && ct[width..] == [];
    assert ChunkAad(o.preamble, o.version, cur + 1 == total) == AadAt(o, cur);
    var chunk := Split(o.padded, o.c)[cur];
    assert chunk + [] == chunk;
  }

  // ----- The stream -----

  datatype Geometry = Geometry(preamble: Bytes, chunkSize: nat, totalChunks: nat)

  /** The number of chunks a version-4 reader derives from the trusted size. */
  function TotalChunks(size: nat, c: nat): nat
    requires c > 0
  {
    Quot(PadmeLen(size) + c - 1, c)
  }

  lemma {:induction false} CountIsCeiling(body: Bytes, c: nat)
    requires c > 0
    ensures |Split(body, c)| == Quot(|body| + c - 1, c)
  {
    var n := |Split(body, c)|;
    if n > 0 {
      SplitAt(body, c, n - 1);
    }
    QuotUnique(|body| + c - 1, c, n);
  }

  /** The geometry the first answer of storage carries, if it is a preamble of the recorded version. */
  function GeometryOf(get: Storage, md: Metadata): (g: Option<Geometry>)
    ensures g.Some? ==> g.value.chunkSize > 0
  {
    var answer := get(0, 0, PREAMBLE_LEN - 1);
    if answer.None? || (md.version != 3 && md.version != 4) then None
    else
      var c := ParseGeometry(answer.value, md.version);
      if c.None? then None
      else Some(Geometry(answer.value, c.value, if md.version == 4 then TotalChunks(md.size, c.value) else 0))
  }

  /** What the stream makes of the n-th storage answer, requested for chunk `k`. */
  function AnswerFor(aead: Aead, md: Metadata, get: Storage, g: Geometry, k: nat, n: nat, start: nat, end: nat): Polled
    requires g.chunkSize > 0
  {
    Deliver(aead, md, g.preamble, g.chunkSize, g.totalChunks, k, start, end,
            get(n, CipherStart(|g.preamble|, g.chunkSize, k), CipherEnd(|g.preamble|, g.chunkSize, k, md.cipherSize)))
  }

  /** What a poll answers when chunk `k` is next. */
  function PolledAt(aead: Aead, md: Metadata, get: Storage, g: Geometry, k: nat, start: nat, end: nat): Polled
    requires g.chunkSize > 0
  {
    if k > Quot(end, g.chunkSize) then Done
    else
      var first := Quot(start, g.chunkSize);
      AnswerFor(aead, md, get, g, k, if k < first then 0 else k - first + 1, start, end)
  }

  /** The items are the answers for chunk `first` and the ones after it, in order. */
  ghost predicate Consecutive(poll: nat -> Polled, first: nat, items: seq<Bytes>)
    decreases |items|
  {
    items == [] ||
    (var n := |items| - 1; poll(first + n) == Item(items[n]) && Consecutive(poll, first, items[..n]))
  }

  lemma {:induction false} ConsecutiveMore(poll: nat -> Polled, first: nat, items: seq<Bytes>, next: Bytes)
    requires Consecutive(poll, first, items) && poll(first + |items|) == Item(next)
    ensures Consecutive(poll, first, items + [next])
  {
    assert (items + [next])[..|items|] == items;
  }

  lemma {:induction false} FirstOfConsecutive(poll: nat -> Polled, first: nat, items: seq<Bytes>)
    requires Consecutive(poll, first, items) && items != []
    ensures poll(first).Item?
    decreases |items|
  {
    if |items| > 1 {
      FirstOfConsecutive(poll, first, items[..|items| - 1]);
    }
  }

  /** Everything one read produces: consecutive items, then the first answer that is not one. */
  ghost predicate Transcript(poll: nat -> Polled, first: nat, items: seq<Bytes>, outcome: Polled) {
    && Consecutive(poll, first, items)
    && outcome == poll(first + |items|)
    && !outcome.Item?
  }

  /** `poll` names the answers of this stream by chunk number. */
  ghost predicate Answers(poll: nat -> Polled, aead: Aead, md: Metadata, get: Storage, g: Geometry, start: nat,
                          end: nat) {
    g.chunkSize > 0 && forall k: nat {:trigger PolledAt(aead, md, get, g, k, start, end)} ::
      poll(k) == PolledAt(aead, md, get, g, k, start, end)
  }

  ghost function AnswersOf(aead: Aead, md: Metadata, get: Storage, g: Option<Geometry>, start: nat,
                           end: nat): (poll: nat -> Polled)
    requires g.Some? ==> g.value.chunkSize > 0
    ensures g.Some? ==> Answers(poll, aead, md, get, g.value, start, end)
  {
    (k: nat) => if g.Some? then PolledAt(aead, md, get, g.value, k, start, end) else Failed
  }

  lemma {:induction false} AnswerAt(poll: nat -> Polled, aead: Aead, md: Metadata, get: Storage, g: Geometry, k: nat,
                                    n: nat, start: nat, end: nat)
    requires Answers(poll, aead, md, get, g, start, end)
    requires Quot(start, g.chunkSize) <= k && n == k - Quot(start, g.chunkSize) + 1
    ensures poll(k) == if k > Quot(end, g.chunkSize) then Done else AnswerFor(aead, md, get, g, k, n, start, end)
  {
    assert poll(k) == PolledAt(aead, md, get, g, k, start, end);
  }

  class Stream {
    const aead: Aead
    const get: Storage
    const md: Metadata
    const start: nat
    const end: nat
    var geometry: Option<Geometry>
    var cur: nat
    var calls: nat
    /** The stream's answers by chunk number, once its geometry is known. */
    ghost const poll: nat -> Polled
    ghost const expected: Option<Geometry>
    /** The chunks the range begins and ends in. */
    ghost const first: nat
    ghost const last: nat

    ghost predicate Named() {
      && expected == GeometryOf(get, md)
      && (expected.Some? ==>
            && Answers(poll, aead, md, get, expected.value, start, end)
            && first == Quot(start, expected.value.chunkSize) <= last == Quot(end, expected.value.chunkSize))
    }

    /** Holds until the stream has ended: one request for the preamble, one per delivered chunk. */
    ghost predicate Valid()
      reads this
    {
      && start <= end
      && (geometry.None? ==> calls == 0)
      && (geometry.Some? ==>
            && geometry == expected && geometry.value.chunkSize > 0
            && first <= cur <= last + 1 && calls == cur - first + 1)
    }

    constructor (aead: Aead, get: Storage, md: Metadata, start: nat, end: nat)
      requires start <= end
      ensures Valid() && geometry.None? && Named()
      ensures this.aead == aead && this.get == get && this.md == md && this.start == start && this.end == end
    {
      this.aead, this.get, this.md, this.start, this.end := aead, get, md, start, end;
      geometry, cur, calls := None, 0, 0;
      var g := GeometryOf(get, md);
      expected := g;
      poll := AnswersOf(aead, md, get, g, start, end);
      first := if g.Some? then Quot(start, g.value.chunkSize) else 0;
      last := if g.Some? then Quot(end, g.value.chunkSize) else 0;
      if g.Some? {
        QuotMonotone(start, end, g.value.chunkSize);
      }
    }

    /** Fetches and parses the preamble, on the first poll only. */
    method Prepare()
      requires Valid() && Named()
      modifies this
      ensures geometry == expected && Named()
      ensures geometry.Some? ==> Valid()
      ensures geometry.Some? ==> cur == if old(geometry).Some? then old(cur) else first
    {
      if geometry.Some? {
        return;
      }
      var answer := get(calls, 0, PREAMBLE_LEN - 1);
      calls := calls + 1;
      if answer.None? || (md.version != 3 && md.version != 4) {
        return;
      }
      var parsed := ParseGeometry(answer.value, md.version);
      if parsed.None? {
        return;
      }
      var c := parsed.value;
      cur := Quot(start, c);
      geometry := Some(Geometry(answer.value, c, if md.version == 4 then TotalChunks(md.size, c) else 0));
    }

    method Fetch() returns (p: Polled)
      requires Valid() && Named() && geometry.Some?
      modifies this`cur, this`calls
      ensures Named() && p == poll(old(cur)) && cur == old(cur) + if p.Item? then 1 else 0
      ensures p.Item? || p.Done? ==> Valid()
    {
      var g := geometry.value;
      AnswerAt(poll, aead, md, get, g, cur, calls, start, end);
      if cur > Quot(end, g.chunkSize) {
        return Done;
      }
      p := Request(g);
      if p.Item? {
        cur := cur + 1;
      }
    }

    /** Requests the window of the current chunk and makes an answer of it. */
    method Request(g: Geometry) returns (p: Polled)
      requires g.chunkSize > 0
      modifies this`calls
      ensures p == AnswerFor(aead, md, get, g, cur, old(calls), start, end) && calls == old(calls) + 1
    {
      var first := CipherStart(|g.preamble|, g.chunkSize, cur);
      var last := CipherEnd(|g.preamble|, g.chunkSize, cur, md.cipherSize);
      var window := get(calls, first, last);
      calls := calls + 1;
      p := Deliver(aead, md, g.preamble, g.chunkSize, g.totalChunks, cur, start, end, window);
    }

    /** One step of the stream. */
    method Poll() returns (p: Polled)
      requires Valid() && Named()
      modifies this
      ensures Named() && geometry == expected
      ensures geometry.None? ==> p == Failed
      ensures p.Item? || p.Done? ==> Valid()
      ensures geometry.Some? ==>
                var k := if old(geometry).Some? then old(cur) else first;
                p == poll(k) && cur == k + if p.Item? then 1 else 0
    {
      Prepare();
      if geometry.None? {
        return Failed;
      }
      p := Fetch();
    }
  }

  /** No answer is longer than any allocation can be. */
  ghost predicate Bounded(get: Storage) {
    forall n: nat, a: nat, b: nat :: get(n, a, b).Some? ==> |get(n, a, b).value| < HALF
  }

  ghost predicate Intact(get: Storage, stored: Bytes) {
    forall n: nat, a: nat, b: nat :: get(n, a, b) == Some(Slice(stored, a, b))
  }

  /** Storage returns the sealed bytes, and they were padded the way a version-4 reader expects. */
  ghost predicate Usable(aead: Aead, o: Sealed, md: Metadata, get: Storage) {
    && Trusted(aead, o, md)
    && Intact(get, Stored(aead, o))
    && (o.version == 4 ==> |o.padded| == PadmeLen(md.size))
  }

  /** The two situations in which the delivered bytes are vouched for. */
  ghost predicate Covered(aead: Aead, o: Sealed, md: Metadata, get: Storage) {
    Trusted(aead, o, md) && ((Unforgeable(aead, o) && Bounded(get)) || Usable(aead, o, md, get))
  }

  /** What a finished read means. */
  ghost predicate Verdict(aead: Aead, o: Sealed, md: Metadata, get: Storage, start: nat, end: nat,
                          items: seq<Bytes>, outcome: Polled) {
    && (Covered(aead, o, md, get) ==>
          && start <= end < |o.padded|
          && Concat(items) <= o.padded[start..end + 1]
          && (outcome.Done? ==> Concat(items) == o.padded[start..end + 1]))
    && (Usable(aead, o, md, get) ==>
          && (outcome.Done? <==> Reached(aead, o, md, Quot(end, o.c)))
          && (outcome.Done? ==> |items| == Quot(end, o.c) - Quot(start, o.c) + 1)
          && !outcome.Aborted?)
  }

  lemma {:induction false} SliceOfFront(front: Bytes, rest: Bytes)
    requires front != []
    ensures Slice(front + rest, 0, |front| - 1) == front
  {
  }

  lemma {:induction false} IntactPreamble(aead: Aead, o: Sealed, get: Storage)
    requires WellSealed(o) && Intact(get, Stored(aead, o))
    ensures get(0, 0, PREAMBLE_LEN - 1) == Some(o.preamble)
  {
    SliceOfFront(o.preamble, SealPrefix(aead, o.preamble, o.version, Count(o), Split(o.padded, o.c), Count(o)));
  }

  lemma {:induction false} GeometryFromPreamble(o: Sealed, md: Metadata, get: Storage)
    requires WellSealed(o) && md.version == o.version && get(0, 0, PREAMBLE_LEN - 1) == Some(o.preamble)
    requires o.version == 4 ==> |o.padded| == PadmeLen(md.size)
    ensures var g := GeometryOf(get, md);
            && g.Some? && g.value.preamble == o.preamble && g.value.chunkSize == o.c
            && (o.version == 4 ==> g.value.totalChunks == Count(o))
  {
    CountIsCeiling(o.padded, o.c);
  }

  /** Intact storage always yields the sealed preamble with the sealed geometry. */
  lemma {:induction false} IntactGeometry(aead: Aead, o: Sealed, md: Metadata, get: Storage)
    requires Usable(aead, o, md, get)
    ensures var g := GeometryOf(get, md);
            && g.Some? && g.value.preamble == o.preamble && g.value.chunkSize == o.c
            && (o.version == 4 ==> g.value.totalChunks == Count(o))
  {
    IntactPreamble(aead, o, get);
    GeometryFromPreamble(o, md, get);
  }

  /** The reader knows where the window of chunk `k` ends. */
  ghost predicate Reached(aead: Aead, o: Sealed, md: Metadata, k: nat) {
    WellSealed(o) && (md.cipherSize.Some? || WindowOnDisk(|Stored(aead, o)|, o.c, k))
  }

  /** What intact storage makes of the poll for a chunk of the range. */
  lemma {:induction false} PolledIntact(aead: Aead, o: Sealed, md: Metadata, get: Storage, k: nat, start: nat, end: nat)
    requires Usable(aead, o, md, get) && start <= end < md.size && GeometryOf(get, md).Some?
    requires Quot(start, o.c) <= k <= Quot(end, o.c)
    ensures var p := PolledAt(aead, md, get, GeometryOf(get, md).value, k, start, end);
            && (!Reached(aead, o, md, k) ==> p == Failed)
            && (Reached(aead, o, md, k) ==>
                  && p.Item?
                  && Upto(o.padded, start, end, Times(k, o.c)) + p.bytes ==
                      Upto(o.padded, start, end, Times(k + 1, o.c)))
  {
    IntactGeometry(aead, o, md, get);
    DeliverIntact(aead, o, md, GeometryOf(get, md).value.totalChunks, k, start, end);
  }

  /** An item is the next piece, whichever of the two storage assumptions holds. */
  lemma {:induction false} ItemIsNextPiece(aead: Aead, o: Sealed, md: Metadata, get: Storage, k: nat, start: nat,
                                           end: nat)
    requires Covered(aead, o, md, get) && start <= end < md.size
    requires GeometryOf(get, md).Some?
    requires Quot(start, GeometryOf(get, md).value.chunkSize) <= k
    requires PolledAt(aead, md, get, GeometryOf(get, md).value, k, start, end).Item?
    ensures GeometryOf(get, md).value.chunkSize == o.c && k <= Quot(end, o.c)
    ensures Upto(o.padded, start, end, Times(k, o.c))
              + PolledAt(aead, md, get, GeometryOf(get, md).value, k, start, end).bytes
            == Upto(o.padded, start, end, Times(k + 1, o.c))
    ensures Usable(aead, o, md, get) ==> Reached(aead, o, md, k)
  {
    var g := GeometryOf(get, md).value;
    var n := k - Quot(start, g.chunkSize) + 1;
    if Usable(aead, o, md, get) {
      IntactGeometry(aead, o, md, get);
      PolledIntact(aead, o, md, get, k, start, end);
    } else {
      var window :=
          get(n, CipherStart(|g.preamble|, g.chunkSize, k), CipherEnd(|g.preamble|, g.chunkSize, k, md.cipherSize));
      DeliverIsGenuine(aead, o, md, g.preamble, g.chunkSize, g.totalChunks, k, start, end, window);
    }
  }

  /** The answer for chunk `k` is the piece of the range that chunk holds. */
  ghost predicate NextPiece(p: Polled, text: Bytes, c: nat, start: nat, end: nat, k: nat) {
    && c > 0 && start <= end < |text| && p.Item? && k <= Quot(end, c)
    && Upto(text, start, end, Times(k, c)) + p.bytes == Upto(text, start, end, Times(k + 1, c))
  }

  /**
   * The answers cut `whole` into consecutive pieces: `upto(k)` is what precedes chunk `k`, chunks
   * `first` to `last` cover it, and whatever item is answered for a chunk is the piece it holds.
   */
  ghost predicate Cuts(poll: nat -> Polled, upto: nat -> Bytes, first: nat, last: nat, whole: Bytes) {
    && upto(first) == [] && upto(last + 1) == whole
    && (forall k: nat {:trigger upto(k)} :: upto(k) <= whole)
    && (forall k: nat {:trigger poll(k)} :: first <= k && poll(k).Item? ==>
        k <= last && upto(k) + poll(k).bytes == upto(k + 1))
  }

  /** Pieces that each extend what came before add up. */
  lemma {:induction false} PiecesAddUp(poll: nat -> Polled, upto: nat -> Bytes, first: nat, items: seq<Bytes>)
    requires upto(first) == [] && Consecutive(poll, first, items)
    requires forall k: nat {:trigger poll(k)} :: first <= k && poll(k).Item? ==> upto(k) + poll(k).bytes == upto(k + 1)
    ensures Concat(items) == upto(first + |items|)
    decreases |items|
  {
    if items != [] {
      var n := |items| - 1;
      PiecesAddUp(poll, upto, first, items[..n]);
      assert poll(first + n) == Item(items[n]);
    }
  }

  function UptoChunk(text: Bytes, c: nat, start: nat, end: nat, k: nat): Bytes
    requires start <= end < |text|
  {
    Upto(text, start, end, Times(k, c))
  }

  ghost function UptoChunks(text: Bytes, c: nat, start: nat, end: nat): (upto: nat -> Bytes)
    requires start <= end < |text|
    ensures forall k: nat {:trigger upto(k)} :: upto(k) == UptoChunk(text, c, start, end, k)
  {
    (k: nat) => UptoChunk(text, c, start, end, k)
  }

  lemma {:induction false} UptoIsPrefix(text: Bytes, c: nat, start: nat, end: nat, k: nat)
    requires c > 0 && start <= end < |text|
    ensures Upto(text, start, end, Times(k, c)) <= text[start..end + 1]
  {
  }

  /** On intact storage the stream stops early only at a chunk whose end it cannot know. */
  lemma {:induction false} StopMeansNoEnd(aead: Aead, o: Sealed, md: Metadata, get: Storage, k: nat, start: nat,
                                          end: nat)
    requires Usable(aead, o, md, get) && start <= end < md.size && GeometryOf(get, md).Some?
    requires Quot(start, o.c) <= k <= Quot(end, o.c)
    requires !PolledAt(aead, md, get, GeometryOf(get, md).value, k, start, end).Item?
    ensures !Reached(aead, o, md, Quot(end, o.c))
    ensures PolledAt(aead, md, get, GeometryOf(get, md).value, k, start, end).Failed?
  {
    PolledIntact(aead, o, md, get, k, start, end);
    ReachedBefore(aead, o, md, k, Quot(end, o.c));
  }

  /** Whoever knows the end of a window knows the end of those before it. */
  lemma {:induction false} ReachedBefore(aead: Aead, o: Sealed, md: Metadata, k: nat, last: nat)
    requires k <= last
    ensures Reached(aead, o, md, last) ==> Reached(aead, o, md, k)
  {
    if WellSealed(o) && k < last {
      TimesGrows(k + 1, last + 1, o.c + TAG_LEN);
    }
  }

  /** Storage that may answer anything: the items are a prefix, a clean end is complete. */
  lemma {:induction false} HostileVerdict(aead: Aead, o: Sealed, md: Metadata, get: Storage, poll: nat -> Polled,
                                          start: nat, end: nat, items: seq<Bytes>, outcome: Polled)
    requires Covered(aead, o, md, get) && start <= end < md.size && GeometryOf(get, md).Some?
    requires Answers(poll, aead, md, get, GeometryOf(get, md).value, start, end)
    requires Transcript(poll, Quot(start, GeometryOf(get, md).value.chunkSize), items, outcome)
    ensures Concat(items) <= o.padded[start..end + 1]
    ensures outcome.Done? ==> Concat(items) == o.padded[start..end + 1]
    ensures outcome.Done? ==> |items| == Quot(end, o.c) - Quot(start, o.c) + 1
    ensures |items| <= Quot(end, o.c) - Quot(start, o.c) + 1
  {
    var c := GeometryOf(get, md).value.chunkSize;
    DoneIsPastTheEnd(aead, md, get, poll, GeometryOf(get, md).value, Quot(start, c) + |items|, start, end);
    QuotMonotone(start, end, o.c);
    QuotMonotone(start, end, c);
    if c == o.c {
      var upto := AnswersCut(aead, o, md, get, poll, start, end);
      CutVerdict(poll, upto, Quot(start, c), Quot(end, c), o.padded[start..end + 1], items, outcome);
    } else if items != [] {
      FirstOfConsecutive(poll, Quot(start, c), items);
      AnsweredPiece(aead, o, md, get, poll, Quot(start, c), start, end);
    }
  }

  lemma {:induction false} CutVerdict(poll: nat -> Polled, upto: nat -> Bytes, first: nat, last: nat, whole: Bytes,
                                      items: seq<Bytes>, outcome: Polled)
    requires Cuts(poll, upto, first, last, whole) && first <= last
    requires Transcript(poll, first, items, outcome)
    requires outcome.Done? ==> first + |items| > last
    ensures Concat(items) <= whole && |items| <= last - first + 1
    ensures outcome.Done? ==> Concat(items) == whole && |items| == last - first + 1
  {
    PiecesAddUp(poll, upto, first, items);
    if items != [] {
      assert poll(first + (|items| - 1)).Item?;
    }
  }

  /** Every item answered from the first chunk on is the piece its chunk holds. */
  ghost predicate Genuine(poll: nat -> Polled, text: Bytes, c: nat, first: nat, start: nat, end: nat) {
    forall k: nat {:trigger poll(k)} :: first <= k && poll(k).Item? ==> NextPiece(poll(k), text, c, start, end, k)
  }

  lemma {:induction false} AnswersAreGenuine(aead: Aead, o: Sealed, md: Metadata, get: Storage, poll: nat -> Polled,
                                             start: nat, end: nat)
    requires Covered(aead, o, md, get) && start <= end < md.size && GeometryOf(get, md).Some?
    requires Answers(poll, aead, md, get, GeometryOf(get, md).value, start, end)
    ensures var c := GeometryOf(get, md).value.chunkSize;
            Genuine(poll, o.padded, o.c, Quot(start, c), start, end)
  {
    forall k: nat | Quot(start, GeometryOf(get, md).value.chunkSize) <= k && poll(k).Item?
      ensures GeometryOf(get, md).value.chunkSize == o.c && NextPiece(poll(k), o.padded, o.c, start, end, k)
    {
      AnsweredPiece(aead, o, md, get, poll, k, start, end);
    }
  }

  lemma {:induction false} AnswersCut(aead: Aead, o: Sealed, md: Metadata, get: Storage, poll: nat -> Polled,
                                      start: nat, end: nat)
    returns (upto: nat -> Bytes)
    requires Covered(aead, o, md, get) && start <= end < md.size && GeometryOf(get, md).Some?
    requires Answers(poll, aead, md, get, GeometryOf(get, md).value, start, end)
    requires GeometryOf(get, md).value.chunkSize == o.c
    ensures Cuts(poll, upto, Quot(start, o.c), Quot(end, o.c), o.padded[start..end + 1])
  {
    AnswersAreGenuine(aead, o, md, get, poll, start, end);
    upto := CutOfGenuine(poll, o.padded, o.c, start, end);
  }

  lemma {:induction false} CutOfGenuine(poll: nat -> Polled, text: Bytes, c: nat, start: nat, end: nat)
    returns (upto: nat -> Bytes)
    requires c > 0 && start <= end < |text| && Genuine(poll, text, c, Quot(start, c), start, end)
    ensures Cuts(poll, upto, Quot(start, c), Quot(end, c), text[start..end + 1])
  {
    upto := UptoChunks(text, c, start, end);
    CutEnds(upto, text, c, start, end);
    forall k: nat | Quot(start, c) <= k && poll(k).Item?
      ensures k <= Quot(end, c) && upto(k) + poll(k).bytes == upto(k + 1)
    {
      PieceExtends(poll(k), upto, text, c, start, end, k);
    }
  }

  lemma {:induction false} CutEnds(upto: nat -> Bytes, text: Bytes, c: nat, start: nat, end: nat)
    requires c > 0 && start <= end < |text| && upto == UptoChunks(text, c, start, end)
    ensures upto(Quot(start, c)) == [] && upto(Quot(end, c) + 1) == text[start..end + 1]
    ensures forall k: nat {:trigger upto(k)} :: upto(k) <= text[start..end + 1]
  {
    UptoEnds(text, c, start, end);
    forall k: nat
      ensures upto(k) <= text[start..end + 1]
    {
      UptoIsPrefix(text, c, start, end, k);
    }
  }

  lemma {:induction false} PieceExtends(p: Polled, upto: nat -> Bytes, text: Bytes, c: nat, start: nat, end: nat,
                                        k: nat)
    requires NextPiece(p, text, c, start, end, k) && upto == UptoChunks(text, c, start, end)
    ensures k <= Quot(end, c) && upto(k) + p.bytes == upto(k + 1)
  {
  }

  lemma {:induction false} AnsweredPiece(aead: Aead, o: Sealed, md: Metadata, get: Storage, poll: nat -> Polled, k: nat,
                                         start: nat, end: nat)
    requires Covered(aead, o, md, get) && start <= end < md.size && GeometryOf(get, md).Some?
    requires Answers(poll, aead, md, get, GeometryOf(get, md).value, start, end)
    requires Quot(start, GeometryOf(get, md).value.chunkSize) <= k && poll(k).Item?
    ensures GeometryOf(get, md).value.chunkSize == o.c && NextPiece(poll(k), o.padded, o.c, start, end, k)
  {
    assert poll(k) == PolledAt(aead, md, get, GeometryOf(get, md).value, k, start, end);
    ItemIsNextPiece(aead, o, md, get, k, start, end);
  }

  lemma {:induction false} DoneIsPastTheEnd(aead: Aead, md: Metadata, get: Storage, poll: nat -> Polled, g: Geometry,
                                            k: nat, start: nat, end: nat)
    requires Answers(poll, aead, md, get, g, start, end)
    ensures poll(k).Done? ==> k > Quot(end, g.chunkSize)
  {
    assert poll(k) == PolledAt(aead, md, get, g, k, start, end);
  }

  /**
   * What any read of the stream amounts to. For every object the metadata speaks for, and whatever
   * storage answers, what was delivered is a prefix of the requested plaintext, and a clean end means
   * all of it. On intact storage it ends cleanly exactly when the recorded cipher size (or a full last
   * chunk) tells the reader where the file ends, after one item per chunk of the range.
   */
  lemma {:induction false} TranscriptVerdict(aead: Aead, o: Sealed, md: Metadata, get: Storage, poll: nat -> Polled,
                                             start: nat, end: nat, items: seq<Bytes>, outcome: Polled)
    requires start <= end < md.size
    requires Recorded(aead, md, get, poll, start, end, items, outcome)
    ensures Verdict(aead, o, md, get, start, end, items, outcome)
  {
    if Usable(aead, o, md, get) {
      IntactGeometry(aead, o, md, get);
    }
    if Covered(aead, o, md, get) && GeometryOf(get, md).Some? {
      HostileVerdict(aead, o, md, get, poll, start, end, items, outcome);
      if Usable(aead, o, md, get) {
        IntactEnd(aead, o, md, get, poll, start, end, items, outcome);
      }
    }
  }

  /** A transcript ends cleanly exactly when every chunk up to the last is answered by an item. */
  lemma {:induction false} EndsCleanlyIff(poll: nat -> Polled, first: nat, last: nat, items: seq<Bytes>,
                                          outcome: Polled, reached: bool)
    requires Transcript(poll, first, items, outcome) && first <= last && |items| <= last - first + 1
    requires outcome.Done? ==> |items| == last - first + 1
    requires poll(last + 1).Done? && (poll(last).Item? ==> reached)
    requires forall k: nat {:trigger poll(k)} :: first <= k <= last && !poll(k).Item? ==> !reached && poll(k).Failed?
    ensures (outcome.Done? <==> reached) && !outcome.Aborted?
  {
    if outcome.Done? {
      assert poll(first + (|items| - 1)).Item?;
    }
  }

  lemma {:induction false} ItemReached(aead: Aead, o: Sealed, md: Metadata, get: Storage, poll: nat -> Polled, k: nat,
                                       start: nat, end: nat)
    requires Usable(aead, o, md, get) && start <= end < md.size && GeometryOf(get, md).Some?
    requires Answers(poll, aead, md, get, GeometryOf(get, md).value, start, end)
              && GeometryOf(get, md).value.chunkSize == o.c
    requires Quot(start, o.c) <= k
    ensures poll(k).Item? ==> Reached(aead, o, md, k)
  {
    assert poll(k) == PolledAt(aead, md, get, GeometryOf(get, md).value, k, start, end);
    if poll(k).Item? {
      ItemIsNextPiece(aead, o, md, get, k, start, end);
    }
  }

  lemma {:induction false} StopNotReached(aead: Aead, o: Sealed, md: Metadata, get: Storage, poll: nat -> Polled,
                                          k: nat, start: nat, end: nat)
    requires Usable(aead, o, md, get) && start <= end < md.size && GeometryOf(get, md).Some?
    requires Answers(poll, aead, md, get, GeometryOf(get, md).value, start, end)
              && GeometryOf(get, md).value.chunkSize == o.c
    requires Quot(start, o.c) <= k <= Quot(end, o.c)
    ensures !poll(k).Item? ==> !Reached(aead, o, md, Quot(end, o.c)) && poll(k).Failed?
  {
    assert poll(k) == PolledAt(aead, md, get, GeometryOf(get, md).value, k, start, end);
    if !poll(k).Item? {
      StopMeansNoEnd(aead, o, md, get, k, start, end);
    }
  }

  lemma {:induction false} IntactEnd(aead: Aead, o: Sealed, md: Metadata, get: Storage, poll: nat -> Polled,
                                     start: nat, end: nat, items: seq<Bytes>, outcome: Polled)
    requires Usable(aead, o, md, get) && start <= end < md.size && GeometryOf(get, md).Some?
    requires Answers(poll, aead, md, get, GeometryOf(get, md).value, start, end)
              && GeometryOf(get, md).value.chunkSize == o.c
    requires Transcript(poll, Quot(start, o.c), items, outcome)
    requires |items| <= Quot(end, o.c) - Quot(start, o.c) + 1
    requires outcome.Done? ==> |items| == Quot(end, o.c) - Quot(start, o.c) + 1
    ensures (outcome.Done? <==> Reached(aead, o, md, Quot(end, o.c))) && !outcome.Aborted?
  {
    var first, last := Quot(start, o.c), Quot(end, o.c);
    QuotMonotone(start, end, o.c);
    assert poll(last + 1) == PolledAt(aead, md, get, GeometryOf(get, md).value, last + 1, start, end);
    ItemReached(aead, o, md, get, poll, last, start, end);
    forall k: nat | first <= k <= last && !poll(k).Item?
      ensures !Reached(aead, o, md, last) && poll(k).Failed?
    {
      StopNotReached(aead, o, md, get, poll, k, start, end);
    }
    EndsCleanlyIff(poll, first, last, items, outcome, Reached(aead, o, md, last));
  }

  /** The record of one complete read. */
  ghost predicate Recorded(aead: Aead, md: Metadata, get: Storage, poll: nat -> Polled, start: nat, end: nat,
                           items: seq<Bytes>, outcome: Polled) {
    var g := GeometryOf(get, md);
    if g.None? then items == [] && outcome == Failed
    else
      && Answers(poll, aead, md, get, g.value, start, end)
      && Transcript(poll, Quot(start, g.value.chunkSize), items, outcome)
  }

  /** Storage that forges the preamble and answers every other request from the stored bytes. */
  function ForgedDisk(forged: Bytes, stored: Bytes): Storage {
    (n: nat, a: nat, b: nat) => Some(if n == 0 then forged else Slice(stored, a, b))
  }

  lemma {:induction false} OneChunkLength(aead: Aead, o: Sealed)
    requires Honest(aead, o) && 0 < |o.padded| <= o.c
    ensures |Stored(aead, o)| == PREAMBLE_LEN + |o.padded| + TAG_LEN
  {
    QuotUnique(|o.padded| + o.c - 1, o.c, 1);
    CountIsCeiling(o.padded, o.c);
    ChunkOffset(aead, o, 0);
    SplitAt(o.padded, o.c, 0);
  }

  /**
   * A forged chunk size gets there. A 100-byte object is padded to 104 bytes and stored in one chunk as
   * 1244 bytes, and its metadata is trusted. If the preamble comes back with chunk size 44, reading bytes
   * 88 to 99 delivers nothing and aborts, although every other answer is what is on disk.
   */
  lemma {:induction false} ForgedChunkSizeAborts(aead: Aead, o: Sealed, epoch: nat, nonce: Bytes, kem: Bytes)
    returns (poll: nat -> Polled)
    requires Honest(aead, o) && o.version == 4 && |o.padded| == PadmeLen(100) <= o.c < U32_LIMIT
    requires epoch < U32_LIMIT && |nonce| == 12 && |kem| == PREAMBLE_LEN - HEADER_LEN
    ensures var md := Metadata(100, Some(|Stored(aead, o)|), 4);
            var get := ForgedDisk(Header(epoch, nonce, 104, 44) + kem, Stored(aead, o));
            Trusted(aead, o, md) && Recorded(aead, md, get, poll, 88, 99, [], Aborted)
  {
    var stored, forged := Stored(aead, o), Header(epoch, nonce, 104, 44) + kem;
    var md, get := Metadata(100, Some(|stored|), 4), ForgedDisk(forged, stored);
    PaddedHundred();
    OneChunkLength(aead, o);
    ParseOfHeader(epoch, nonce, 104, 44, kem);
    var g := GeometryOf(get, md);
    assert g.Some? && g.value.preamble == forged && g.value.chunkSize == 44;
    poll := AnswersOf(aead, md, get, g, 88, 99);
    ForgedWindowAborts(aead, forged, stored, g.value.totalChunks);
    assert poll(2) == PolledAt(aead, md, get, g.value, 2, 88, 99);
    assert poll(2) == AnswerFor(aead, md, get, g.value, 2, 1, 88, 99);
  }

  lemma {:induction false} PaddedHundred()
    ensures PadmeLen(100) == 104
  {
    assert FloorLog2(100) == 6 && FloorLog2(6) == 2 && Pow2(3) == 8;
  }

  /** Keeps polling while items come. */
  method PollRest(s: Stream, answer: Polled) returns (items: seq<Bytes>, outcome: Polled)
    requires s.Named() && s.geometry == s.expected && s.geometry.Some?
    requires answer == s.poll(s.first) && (answer.Item? ==> s.Valid() && s.cur == s.first + 1)
    modifies s
    ensures Transcript(s.poll, s.first, items, outcome)
  {
    items, outcome := [], answer;
    while outcome.Item?
      invariant s.geometry == s.expected && s.geometry.Some?
      invariant outcome == s.poll(s.first + |items|) && Consecutive(s.poll, s.first, items)
      invariant outcome.Item? ==> s.Valid() && s.cur == s.first + |items| + 1
      decreases SaturatingSub(s.last + 1, s.first + |items|)
    {
      ConsecutiveMore(s.poll, s.first, items, outcome.bytes);
      items := items + [outcome.bytes];
      outcome := s.Poll();
    }
  }

  /** Reads the whole stream. */
  method Drain(aead: Aead, get: Storage, md: Metadata, start: nat, end: nat)
    returns (items: seq<Bytes>, outcome: Polled, ghost poll: nat -> Polled)
    requires start <= end < md.size
    ensures Recorded(aead, md, get, poll, start, end, items, outcome)
  {
    var s := new Stream(aead, get, md, start, end);
    items, poll := [], s.poll;
    outcome := s.Poll();
    if s.geometry.Some? {
      items, outcome := PollRest(s, outcome);
    }
  }

  /** Reads the whole stream of a stored object and says what was read, in terms of `/`. */
  method ReadRange(aead: Aead, get: Storage, md: Metadata, start: nat, end: nat, ghost o: Sealed)
    returns (items: seq<Bytes>, outcome: Polled)
    requires start <= end < md.size
    ensures Verdict(aead, o, md, get, start, end, items, outcome)
    ensures Usable(aead, o, md, get) && outcome.Done? ==> |items| == end / o.c - start / o.c + 1
  {
    ghost var poll: nat -> Polled;
    items, outcome, poll := Drain(aead, get, md, start, end);
    TranscriptVerdict(aead, o, md, get, poll, start, end, items, outcome);
    if Usable(aead, o, md, get) {
      QuotIsDivision(start, o.c);
      QuotIsDivision(end, o.c);
    }
  }
}
