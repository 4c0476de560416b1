/**
 * A download that touches its destination only when complete. The file system keeps, for every file,
 * what readers see now and whether that is also what a crash leaves; the content of an unsynced file
 * after a crash is arbitrary.
 */
module StagedDownload {
  import opened Base

  type Inode = nat

  /** `durable` says that the content would survive a crash. */
  datatype File = File(content: Bytes, durable: bool)

  /** The two names that matter, and every file. */
  datatype Disk = Disk(stage: Option<Inode>, dest: Option<Inode>, files: seq<File>) {
    predicate Valid() {
      (stage.Some? ==> stage.value < |files|) && (dest.Some? ==> dest.value < |files|)
    }

    function At(name: Option<Inode>): Option<Bytes> {
      if name.Some? && name.value < |files| then Some(files[name.value].content) else None
    }
  }

  function Created(d: Disk): Disk {
    d.(stage := Some(|d.files|), files := d.files + [File([], false)])
  }

  function Written(d: Disk, i: Inode, data: Bytes): Disk
    requires i < |d.files|
  {
    d.(files := d.files[i := File(d.files[i].content + data, data == [] && d.files[i].durable)])
  }

  function Synced(d: Disk, i: Inode): Disk
    requires i < |d.files|
  {
    d.(files := d.files[i := d.files[i].(durable := true)])
  }

  function Renamed(d: Disk): Disk {
    d.(stage := None, dest := d.stage)
  }

  /** Opening the destination for a fresh write empties it, or makes a new file. */
  function Truncated(d: Disk): Disk
    requires d.Valid()
  {
    if d.dest.Some? then d.(files := d.files[d.dest.value := File([], false)])
    else d.(dest := Some(|d.files|), files := d.files + [File([], false)])
  }

  function Unlinked(d: Disk): Disk {
    d.(stage := None)
  }

  function AfterCrash(d: Disk, garbage: Inode -> Bytes): Disk {
    d.(files := seq(|d.files|, (i: nat) requires i < |d.files| =>
      if d.files[i].durable then d.files[i] else File(garbage(i), true)))
  }

  // ----- What must hold at every point -----

  predicate Durably(d: Disk, name: Option<Inode>, content: Bytes) {
    name.Some? && name.value < |d.files| && d.files[name.value] == File(content, true)
  }

  /** The destination is as it was. */
  predicate Untouched(d: Disk, old_: Option<Bytes>) {
    if old_.Some? then Durably(d, d.dest, old_.value) else d.dest.None?
  }

  predicate Safe(d: Disk, old_: Option<Bytes>, new_: Bytes) {
    Untouched(d, old_) || Durably(d, d.dest, new_) || Durably(d, d.stage, new_)
  }

  /** Safe now means safe for any reader now and after a crash now, whatever unsynced data turns into. */
  lemma {:induction false} SafeSurvivesCrash(d: Disk, old_: Option<Bytes>, new_: Bytes, garbage: Inode -> Bytes)
    requires Safe(d, old_, new_)
    ensures d.At(d.dest) == old_ || d.At(d.dest) == Some(new_) || d.At(d.stage) == Some(new_)
    ensures var c := AfterCrash(d, garbage);
            c.At(c.dest) == old_ || c.At(c.dest) == Some(new_) || c.At(c.stage) == Some(new_)
  {
  }

  ghost predicate SafeSince(history: seq<Disk>, from: nat, old_: Option<Bytes>, new_: Bytes) {
    forall i :: from <= i < |history| ==> Safe(history[i], old_, new_)
  }

  /**
   * The in-place fallback after a reported rename error is safe exactly when the rename had no effect:
   * otherwise the only complete copy is the file it empties.
   */
  lemma {:induction false} FallbackSafeIff(d: Disk, old_: Option<Bytes>, new_: Bytes, tookEffect: bool)
    requires d.Valid() && Durably(d, d.stage, new_) && Untouched(d, old_) && d.stage != d.dest
    ensures Safe(Truncated(if tookEffect then Renamed(d) else d), old_, new_) <==> !tookEffect
  {
  }

  // ----- The file system -----

  class Filesystem {
    var disk: Disk
    /** Every state the disk has been in. */
    ghost var history: seq<Disk>

    constructor (d: Disk)
      ensures disk == d && history == [d]
    {
      disk, history := d, [d];
    }

    method Set(d: Disk)
      modifies this
      ensures disk == d && history == old(history) + [d]
    {
      disk, history := d, history + [d];
    }
  }

  // ----- The staged file -----

  /**
   * How the calls of a commit go: flush and sync of the stage, the rename, and for the fallback the seek, the
   * opening of the destination, the copy and its sync.
   */
  datatype Calls = Calls(flush: bool, sync: Fault, rename: Fault, seek: bool, open: bool, copy: bool, copySync: Fault) {
    /** The stage is complete before anything happens to the destination. */
    predicate Finalizes() {
      flush && sync == Works
    }

    predicate FallsBackWell() {
      seek && open && copy && copySync == Works
    }
  }

  /** Where a download stands; `stage` is the guard that removes the stage file on drop. */
  class StagedFile {
    const fs: Filesystem
    const file: Inode
    var stage: bool
    /** Written by the program, not yet in the file. */
    var buffered: Bytes

    constructor (fs: Filesystem, file: Inode)
      ensures this.fs == fs && this.file == file && stage && buffered == []
    {
      this.fs, this.file, stage, buffered := fs, file, true, [];
    }

    /** The stage is this file, separate from the destination, which is untouched. */
    ghost predicate Staging(old_: Option<Bytes>)
      reads this, fs
    {
      && fs.disk.Valid() && stage && fs.disk.stage == Some(file) && fs.disk.dest != Some(file)
      && Untouched(fs.disk, old_)
    }

    ghost function Content(): Bytes
      reads this, fs
    {
      (if file < |fs.disk.files| then fs.disk.files[file].content else []) + buffered
    }

    /** Moves the first `n` buffered bytes into the file. */
    method Spill(n: nat, ghost old_: Option<Bytes>, ghost new_: Bytes)
      requires Staging(old_) && n <= |buffered|
      modifies this`buffered, fs
      ensures Staging(old_) && Content() == old(Content()) && buffered == old(buffered)[n..]
      ensures old(fs.history) <= fs.history && SafeSince(fs.history, |old(fs.history)|, old_, new_)
    {
      fs.Set(Written(fs.disk, file, buffered[..n]));
      assert buffered == buffered[..n] + buffered[n..];
      buffered := buffered[n..];
    }

    /** Accepts data into the buffer; any part of the buffer may go to the file in the background. */
    method Write(data: Bytes, works: bool, ghost old_: Option<Bytes>, ghost new_: Bytes)
      requires Staging(old_)
      modifies this`buffered, fs
      ensures Staging(old_) && (works ==> Content() == old(Content()) + data)
      ensures old(fs.history) <= fs.history && SafeSince(fs.history, |old(fs.history)|, old_, new_)
    {
      if works {
        buffered := buffered + data;
      }
      var part: nat :| part <= |buffered|;
      Spill(part, old_, new_);
    }

    /** Pushes the buffer to the file; an error may leave any part of it written. */
    method Flush(works: bool, ghost old_: Option<Bytes>, ghost new_: Bytes)
      requires Staging(old_)
      modifies this`buffered, fs
      ensures Staging(old_) && (works ==> buffered == [] && Content() == old(Content()))
      ensures old(fs.history) <= fs.history && SafeSince(fs.history, |old(fs.history)|, old_, new_)
    {
      var part: nat :| part <= |buffered|;
      Spill(if works then |buffered| else part, old_, new_);
    }

    /** Removes the stage file unless the guard was disarmed; a failing removal is ignored. */
    method Drop(unlink: Fault, ghost old_: Option<Bytes>, ghost new_: Bytes) returns (leaked: bool)
      requires fs.disk.Valid()
      modifies this`stage, fs
      ensures old(fs.history) <= fs.history
      ensures old(if stage then Untouched(fs.disk, old_) || Durably(fs.disk, fs.disk.dest, new_)
                  else Safe(fs.disk, old_, new_)) ==>
                SafeSince(fs.history, |old(fs.history)|, old_, new_)
      ensures fs.disk == if old(stage) && !leaked then Unlinked(old(fs.disk)) else old(fs.disk)
      ensures leaked <==> old(stage) && unlink == FailsBefore
    {
      leaked := false;
      if stage {
        stage := false;
        leaked := unlink.FailsBefore?;
        if !leaked {
          fs.Set(Unlinked(fs.disk));
        }
      }
    }

    /** The stage is complete and durable, and nothing has touched the destination. */
    ghost predicate Complete(old_: Option<Bytes>, new_: Bytes)
      reads this, fs
    {
      Staging(old_) && fs.disk.files[file] == File(new_, true)
    }

    /** The rename took effect although it reported an error: the stage is the destination now. */
    ghost predicate Doubled(new_: Bytes)
      reads this, fs
    {
      && fs.disk.Valid() && fs.disk.stage.None? && fs.disk.dest == Some(file)
      && fs.disk.files[file] == File(new_, true)
    }

    /**
     * Copies the stage over the destination in place: empties the destination, then copies what the open
     * stage file holds. If the two are one file, there is nothing left to copy.
     */
    method CopyOver(copies: bool, sync: Fault, ghost old_: Option<Bytes>, ghost new_: Bytes) returns (ok: bool)
      requires Complete(old_, new_) || Doubled(new_)
      modifies fs
      ensures fs.disk.Valid() && old(fs.history) <= fs.history && fs.disk.stage == old(fs.disk.stage)
      ensures ok <==> copies && sync == Works
      ensures old(Complete(old_, new_)) ==>
                && Durably(fs.disk, Some(file), new_) && SafeSince(fs.history, |old(fs.history)|, old_, new_)
                && (ok ==> Durably(fs.disk, fs.disk.dest, new_))
      ensures old(Doubled(new_)) ==>
                fs.disk.At(fs.disk.dest) == Some([]) && (ok ==> Durably(fs.disk, fs.disk.dest, []))
    {
      ghost var apart := Complete(old_, new_);
      fs.Set(Truncated(fs.disk));
      var out := fs.disk.dest.value;
      var content := fs.disk.files[file].content;
      assert if apart then out != file && content == new_ else out == file && content == [];
      var n := 0;
      while n < |content|
        invariant 0 <= n <= |content| && fs.disk.Valid() && fs.disk.dest == Some(out)
        invariant fs.disk.stage == old(fs.disk.stage) && fs.disk.files[out].content == content[..n]
        invariant apart ==> out != file && Durably(fs.disk, Some(file), new_)
        invariant old(fs.history) <= fs.history && (apart ==> SafeSince(fs.history, |old(fs.history)|, old_, new_))
      {
        var extra: nat, fails: bool, lands: bool := *, *, *;
        var take := Min(extra + 1, |content| - n);
        if copies || !fails || lands {
          fs.Set(Written(fs.disk, out, content[n..n + take]));
        }
        if !copies && fails {
          return false;
        }
        assert content[..n] + content[n..n + take] == content[..n + take];
        n := n + take;
      }
      assert content[..n] == content;
      if !copies {
        return false;
      }
      if !sync.FailsBefore? {
        fs.Set(Synced(fs.disk, out));
      }
      return sync.Works?;
    }

    /** Flush and sync the stage. */
    method Finalize(calls: Calls, ghost old_: Option<Bytes>, ghost new_: Bytes) returns (ok: bool)
      requires Staging(old_) && Content() == new_
      modifies this`buffered, fs
      ensures Staging(old_) && (ok <==> calls.Finalizes()) && (ok ==> Complete(old_, new_))
      ensures old(fs.history) <= fs.history && SafeSince(fs.history, |old(fs.history)|, old_, new_)
    {
      Flush(calls.flush, old_, new_);
      if calls.flush && !calls.sync.FailsBefore? {
        fs.Set(Synced(fs.disk, file));
      }
      return calls.flush && calls.sync.Works?;
    }

    /**
     * Flush, sync, rename; if the rename is refused, overwrite in place. `doubled` says that the rename
     * took effect and reported an error all the same.
     */
    method Publish(calls: Calls, ghost old_: Option<Bytes>, ghost new_: Bytes) returns (ok: bool, ghost doubled: bool)
      requires Staging(old_) && Content() == new_
      modifies this, fs
      ensures ok <==> calls.Finalizes() && (calls.rename == Works || calls.FallsBackWell())
      ensures doubled <==> calls.Finalizes() && calls.rename == FailsAfter
      ensures fs.disk.Valid() && old(fs.history) <= fs.history
      ensures !doubled ==>
                && SafeSince(fs.history, |old(fs.history)|, old_, new_)
                && (ok ==> Durably(fs.disk, fs.disk.dest, new_) && (stage || fs.disk.stage.None?))
                && (!ok ==> if stage then Untouched(fs.disk, old_) else Durably(fs.disk, fs.disk.stage, new_))
      ensures doubled ==>
                && fs.disk.stage.None?
                && (ok ==> Durably(fs.disk, fs.disk.dest, []))
                && (!ok ==> Durably(fs.disk, fs.disk.dest, new_) || fs.disk.At(fs.disk.dest) == Some([]))
    {
      doubled := false;
      ok := Finalize(calls, old_, new_);
      if !ok {
        return;
      }
      var fault := calls.rename;
      if !fault.FailsBefore? {
        fs.Set(Renamed(fs.disk));
      }
      if fault.Works? {
        stage := false;
        return;
      }
      doubled := !fault.FailsBefore?;
      if !calls.seek || !calls.open {
        return false, doubled;
      }
      ok := CopyOver(calls.copy, calls.copySync, old_, new_);
      if !ok {
        stage := false;
      }
    }

    /**
     * Succeeds if and only if the stage can be flushed and synced and either the rename works or the
     * fallback does. As long as no rename reported an error after it had taken effect: success means that the
     * destination durably holds the download and the stage is gone, unless removing it failed; an error
     * means that the destination is as before and the stage is gone (again unless removing it failed),
     * or that the stage durably holds the download. Otherwise no stage is left: success means an empty
     * destination, and an error means that the destination durably holds the download or is empty.
     */
    method Commit(calls: Calls, unlink: Fault, ghost old_: Option<Bytes>, ghost new_: Bytes)
      returns (ok: bool, leaked: bool, ghost doubled: bool)
      requires Staging(old_) && Content() == new_
      modifies this, fs
      ensures ok <==> calls.Finalizes() && (calls.rename == Works || calls.FallsBackWell())
      ensures doubled <==> calls.Finalizes() && calls.rename == FailsAfter
      ensures leaked ==> unlink == FailsBefore
      ensures old(fs.history) <= fs.history
      ensures !doubled ==>
                && SafeSince(fs.history, |old(fs.history)|, old_, new_)
                && (ok ==> Durably(fs.disk, fs.disk.dest, new_) && (fs.disk.stage.None? || leaked))
                && (!ok ==>
                      || (Untouched(fs.disk, old_) && (fs.disk.stage.None? || leaked))
                      || Durably(fs.disk, fs.disk.stage, new_))
      ensures doubled ==>
                && fs.disk.stage.None?
                && (ok ==> Durably(fs.disk, fs.disk.dest, []))
                && (!ok ==> Durably(fs.disk, fs.disk.dest, new_) || fs.disk.At(fs.disk.dest) == Some([]))
    {
      ok, doubled := Publish(calls, old_, new_);
      leaked := Drop(unlink, old_, new_);
    }
  }

  /** Whether the old file can be written, the stage opened, and the permissions copied. */
  datatype Preparation = Preparation(writable: bool, opens: bool, permitted: bool)

  /** The write of some piece fails. */
  predicate Stops(failsAt: Option<nat>, pieces: seq<Bytes>) {
    failsAt.Some? && failsAt.value < |pieces|
  }

  datatype Outcome = Refused | Aborted | Committed(ok: bool)

  /** Writes the pieces to the stage, up to one that fails. */
  method Transfer(staged: StagedFile, pieces: seq<Bytes>, failsAt: Option<nat>, ghost old_: Option<Bytes>,
                  ghost new_: Bytes)
    returns (ok: bool)
    requires staged.Staging(old_) && staged.Content() == []
    modifies staged`buffered, staged.fs
    ensures staged.Staging(old_) && (ok <==> !Stops(failsAt, pieces)) && (ok ==> staged.Content() == Concat(pieces))
    ensures old(staged.fs.history) <= staged.fs.history
    ensures SafeSince(staged.fs.history, |old(staged.fs.history)|, old_, new_)
  {
    var n := 0;
    while n < |pieces|
      invariant 0 <= n <= |pieces| && (failsAt.Some? ==> n <= failsAt.value || |pieces| <= failsAt.value)
      invariant staged.Staging(old_) && staged.Content() == Concat(pieces[..n])
      invariant old(staged.fs.history) <= staged.fs.history
      invariant SafeSince(staged.fs.history, |old(staged.fs.history)|, old_, new_)
    {
      assert pieces[..n + 1] == pieces[..n] + [pieces[n]];
      ConcatSnoc(pieces[..n], pieces[n]);
      staged.Write(pieces[n], failsAt != Some(n), old_, new_);
      if failsAt == Some(n) {
        return false;
      }
      n := n + 1;
    }
    assert pieces[..n] == pieces;
    return true;
  }

  /**
   * A whole download to a destination that can be staged. `pieces` are what the transfer delivers
   * before it ends; `complete` says whether it ended well. Writing piece `failsAt` fails.
   */
  method Download(fs: Filesystem, pieces: seq<Bytes>, complete: bool, start: Preparation, failsAt: Option<nat>,
                  calls: Calls, unlink: Fault)
    returns (outcome: Outcome, leaked: bool, ghost doubled: bool)
    requires fs.disk.Valid() && fs.disk.stage.None?
    requires fs.disk.dest.Some? ==> fs.disk.files[fs.disk.dest.value].durable
    modifies fs
    ensures old(fs.history) <= fs.history
    ensures !doubled ==> SafeSince(fs.history, |old(fs.history)|, old(fs.disk.At(fs.disk.dest)), Concat(pieces))
    ensures outcome.Refused? || outcome.Aborted? ==>
              !doubled && Untouched(fs.disk, old(fs.disk.At(fs.disk.dest))) && (fs.disk.stage.None? || leaked)
    ensures outcome == Committed(true) ==>
              if doubled then Durably(fs.disk, fs.disk.dest, [])
              else Durably(fs.disk, fs.disk.dest, Concat(pieces)) && (fs.disk.stage.None? || leaked)
    ensures outcome == Committed(false) && !doubled ==>
              || (Untouched(fs.disk, old(fs.disk.At(fs.disk.dest))) && (fs.disk.stage.None? || leaked))
              || Durably(fs.disk, fs.disk.stage, Concat(pieces))
    ensures outcome == Committed(false) && doubled ==>
              && fs.disk.stage.None?
              && (Durably(fs.disk, fs.disk.dest, Concat(pieces)) || fs.disk.At(fs.disk.dest) == Some([]))
    ensures outcome.Refused? <==>
              !start.opens || (old(fs.disk.dest).Some? && (!start.writable || !start.permitted))
    ensures !outcome.Refused? ==> (outcome.Committed? <==> complete && !Stops(failsAt, pieces))
    ensures outcome.Committed? ==>
              && (outcome.ok <==> calls.Finalizes() && (calls.rename == Works || calls.FallsBackWell()))
              && (doubled <==> calls.Finalizes() && calls.rename == FailsAfter)
    ensures leaked ==> unlink == FailsBefore
  {
    doubled := false;
    ghost var old_, new_ := fs.disk.At(fs.disk.dest), Concat(pieces);
    if (fs.disk.dest.Some? && !start.writable) || !start.opens {
      return Refused, false, doubled;
    }
    var file := |fs.disk.files|;
    fs.Set(Created(fs.disk));
    var staged := new StagedFile(fs, file);
    if fs.disk.dest.Some? && !start.permitted {
      leaked := staged.Drop(unlink, old_, new_);
      return Refused, leaked, doubled;
    }
    var transferred := Transfer(staged, pieces, failsAt, old_, new_);
    if !transferred || !complete {
      leaked := staged.Drop(unlink, old_, new_);
      return Aborted, leaked, doubled;
    }
    var ok;
    ok, leaked, doubled := staged.Commit(calls, unlink, old_, new_);
    return Committed(ok), leaked, doubled;
  }

  /**
   * A download to anything that cannot be staged (a device, a pipe, a directory): the plain behaviour.
   * The destination is emptied at once; success means that it holds what was transferred.
   */
  method DirectDownload(fs: Filesystem, pieces: seq<Bytes>, complete: bool, opens: bool, failsAt: Option<nat>,
                        flush: bool)
    returns (ok: bool)
    requires fs.disk.Valid()
    modifies fs
    ensures !opens ==> fs.disk == old(fs.disk)
    ensures ok <==> opens && complete && flush && !Stops(failsAt, pieces)
    ensures ok ==> fs.disk.At(fs.disk.dest) == Some(Concat(pieces))
    ensures fs.disk.stage == old(fs.disk.stage)
  {
    if !opens {
      return false;
    }
    fs.Set(Truncated(fs.disk));
    var out := fs.disk.dest.value;
    var n := 0;
    while n < |pieces|
      invariant 0 <= n <= |pieces| && (failsAt.Some? ==> n <= failsAt.value || |pieces| <= failsAt.value)
      invariant fs.disk.Valid() && fs.disk.dest == Some(out)
                && fs.disk.stage == old(fs.disk.stage)
      invariant fs.disk.files[out].content == Concat(pieces[..n])
    {
      assert pieces[..n + 1] == pieces[..n] + [pieces[n]];
      ConcatSnoc(pieces[..n], pieces[n]);
      if failsAt == Some(n) {
        return false;
      }
      fs.Set(Written(fs.disk, out, pieces[n]));
      n := n + 1;
    }
    assert pieces[..n] == pieces;
    ok := complete && flush;
  }
}
