/** The write-buffer temp file: positioned writes, scrubbing and resizing. */
module TempFiles {
  import opened Base

  const SCRUB_CHUNK: nat := 0x1_0000

  /** A plain file after writing `data` at `offset`: a gap past the end reads as zeros. */
  function Splice(body: Bytes, offset: nat, data: Bytes): (r: Bytes)
    ensures |r| == if data == [] then |body| else if |body| < offset + |data| then offset + |data| else |body|
    ensures forall i :: 0 <= i < |r| ==>
              r[i] == if offset <= i < offset + |data| then data[i - offset]
                      else if i < |body| then body[i] else 0
  {
    if data == [] then body
    else
      var grown := if |body| < offset then body + Zeros(offset - |body|) else body;
      grown[..offset] + data + (if offset + |data| < |grown| then grown[offset + |data|..] else [])
  }

  /** A plain file after being set to `n` bytes: cut, or extended with zeros. */
  function Resize(body: Bytes, n: nat): (r: Bytes)
    ensures |r| == n
    ensures forall i :: 0 <= i < n ==> r[i] == if i < |body| then body[i] else 0
  {
    if n <= |body| then body[..n] else body + Zeros(n - |body|)
  }

  lemma {:induction false} ResizeToOwnLength(body: Bytes)
    ensures Resize(body, |body|) == body
  {
  }

  class TempFile {
    var contents: Bytes
    var pos: nat
    /** The bytes the last `set_len` cut off, as they were on disk at that moment. */
    ghost var cut: Bytes

    constructor (initial: Bytes)
      ensures contents == initial && pos == 0 && cut == []
    {
      contents := initial;
      pos := 0;
      cut := [];
    }

    method Seek(p: nat)
      modifies this`pos
      ensures pos == p
    {
      pos := p;
    }

    method WriteAll(data: Bytes)
      modifies this`contents, this`pos
      ensures contents == Splice(old(contents), old(pos), data)
      ensures pos == old(pos) + |data|
    {
      contents := Splice(contents, pos, data);
      pos := pos + |data|;
    }

    method SetLen(n: nat)
      modifies this`contents, this`cut
      ensures contents == Resize(old(contents), n)
      ensures cut == if n < |old(contents)| then old(contents)[n..] else []
    {
      cut := if n < |contents| then contents[n..] else [];
      contents := Resize(contents, n);
    }

    /** Overwrites a range with zeros in bounded chunks. */
    method ZeroRange(start: nat, len: nat)
      modifies this`contents, this`pos
      ensures contents == Splice(old(contents), start, Zeros(len))
    {
      Seek(start);
      var remaining := len;
      while remaining > 0
        invariant 0 <= remaining <= len
        invariant pos == start + len - remaining
        invariant contents == Splice(old(contents), start, Zeros(len - remaining))
      {
        var n := Min(remaining, SCRUB_CHUNK);
        WriteAll(Zeros(n));
        remaining := remaining - n;
      }
    }

    /** Resizes the buffer; a shrink zeroes the cut tail on disk before letting it go. */
    method SetBufferLen(newLen: nat)
      modifies this
      ensures contents == Resize(old(contents), newLen)
      ensures cut == Zeros(if newLen < |old(contents)| then |old(contents)| - newLen else 0)
    {
      var cur := |contents|;
      if newLen < cur {
        ZeroRange(newLen, cur - newLen);
      }
      SetLen(newLen);
    }
  }
}
