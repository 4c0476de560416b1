/** Renaming one object: flush the source's handles, copy to the new key, delete the old one. */
module FileRename {
  import opened Base
  import TempFiles
  import I = Inodes
  import opened WriteBack
  import opened Driver

  // ----- What a successful rename does -----

  function RekeyOne(of: OpenFile, src: ObjId, dst: ObjId): OpenFile {
    if of.id != src then of
    else if Pending(of) then of.(id := dst, flushed := true)
    else of.(id := dst)
  }

  /** The source's handles follow to the new key, with nothing left to PUT. */
  function Rekeyed(handles: Handles, src: ObjId, dst: ObjId): Handles {
    map fh | fh in handles :: RekeyOne(handles[fh], src, dst)
  }

  function Renamed(w: World, src: ObjId, dst: ObjId, body: Bytes): World {
    w.(server := (w.server - {src})[dst := body], handles := Rekeyed(w.handles, src, dst))
  }

  /** An open write buffer is preferred as the source; otherwise the server object, which must exist. */
  function RenameResult(w: World, src: ObjId, dst: ObjId, writer: Option<nat>): Option<World> {
    if writer.Some? && writer.value in w.handles && w.handles[writer.value].buf.Some? then
      Some(Renamed(w, src, dst, w.handles[writer.value].buf.value))
    else if src in w.server then Some(Renamed(w, src, dst, w.server[src]))
    else None
  }

  /**
   * The renamed state, name by name. The new key holds what the rename copied, the old key is gone and no
   * other object changes. Every handle of the source, read-only ones included, follows to the new key with
   * its buffer, and one that had something to PUT has it no more; no other handle changes.
   */
  ghost predicate FileRenamed(w: World, w': World, src: ObjId, dst: ObjId) {
    && src !in w'.server && dst in w'.server && SourceBody(w, src, w'.server[dst])
    && (forall id :: id != src && id != dst ==>
          (id in w'.server <==> id in w.server) && (id in w.server ==> w'.server[id] == w.server[id]))
    && w'.handles.Keys == w.handles.Keys && w'.flights == w.flights && w'.nextFh == w.nextFh
    && (forall fh :: fh in w.handles && w.handles[fh].id != src ==> w'.handles[fh] == w.handles[fh])
    && (forall fh :: fh in w.handles && w.handles[fh].id == src ==>
          var of := w.handles[fh];
          w'.handles[fh] == OpenFile(dst, of.buf, of.dirty, of.flushed || (of.buf.Some? && of.dirty)))
  }

  lemma {:induction false} RenamedByName(w: World, src: ObjId, dst: ObjId, body: Bytes)
    requires src != dst && SourceBody(w, src, body)
    ensures FileRenamed(w, Renamed(w, src, dst, body), src, dst)
  {
  }

  ghost predicate OneWriter(w: World, id: ObjId, h: nat) {
    && h in w.handles && Writable(w.handles[h], id) && h !in w.flights
    && (forall fh :: fh in w.handles && Writable(w.handles[fh], id) ==> fh == h)
  }

  /** `body` is what the rename copies: the buffer of some writer, or the server's copy if there is none. */
  ghost predicate SourceBody(w: World, src: ObjId, body: Bytes) {
    || (exists fh :: fh in w.handles && Writable(w.handles[fh], src) && w.handles[fh].buf.value == body)
    || (NoWriterOf(w, src) && src in w.server && w.server[src] == body)
  }

  lemma {:induction false} SourceBodyOfOneWriter(w: World, src: ObjId, h: nat, body: Bytes)
    requires OneWriter(w, src, h) && SourceBody(w, src, body)
    ensures body == w.handles[h].buf.value
  {
  }

  /** Whatever source the scan picked: with one writer it is that one's buffer, with none the server's copy. */
  lemma {:induction false} RenamedIsResult(w: World, src: ObjId, dst: ObjId, body: Bytes)
    requires SourceBody(w, src, body)
    ensures forall h :: OneWriter(w, src, h) ==> RenameResult(w, src, dst, Some(h)) == Some(Renamed(w, src, dst, body))
    ensures NoWriterOf(w, src) ==> RenameResult(w, src, dst, None) == Some(Renamed(w, src, dst, body))
  {
    forall h | OneWriter(w, src, h) ensures body == w.handles[h].buf.value {
      SourceBodyOfOneWriter(w, src, h, body);
    }
  }

  // ----- Rename and close commute -----

  function Close(w: World, h: nat): World {
    Step(Step(Step(w, FlushBegin(h)), FlushEnd(h, PutOk, [])), Release(h, PutOk))
  }

  lemma {:induction false} CloseOfWriter(w: World, id: ObjId, h: nat)
    requires OneWriter(w, id, h)
    ensures var of := w.handles[h];
            Close(w, h) == w.(handles := w.handles - {h},
                              server := if Pending(of) then w.server[id := of.buf.value] else w.server)
  {
    var of := w.handles[h];
    var begun := Step(w, FlushBegin(h));
    var ended := Step(begun, FlushEnd(h, PutOk, []));
    if Pending(of) {
      assert begun.flights - {h} == w.flights;
      assert ended.handles - {h} == w.handles - {h};
    }
  }

  /**
   * Rename-then-close and close-then-rename end in the same state, bodies and handles alike, exactly
   * when the handle still has to PUT its buffer or the server already holds it. A clean handle whose
   * seed is out of date (or whose object is gone) is the family on which the two orders differ.
   */
  lemma {:induction false} RenameCommutesWithCloseIff(w: World, src: ObjId, dst: ObjId, h: nat)
    requires src != dst && OneWriter(w, src, h)
    ensures var of := w.handles[h];
            var renameFirst := RenameResult(w, src, dst, Some(h));
            && renameFirst.Some?
            && (RenameResult(Close(w, h), src, dst, None) == Some(Close(renameFirst.value, h))
                <==> Pending(of) || (src in w.server && w.server[src] == of.buf.value))
  {
    var of := w.handles[h];
    var renamed := RenameResult(w, src, dst, Some(h)).value;
    var closed := Close(w, h);
    CloseOfWriter(w, src, h);
    assert !Pending(renamed.handles[h]);
    assert Close(renamed, h) == renamed.(handles := renamed.handles - {h});
    var second := RenameResult(closed, src, dst, None);
    if Pending(of) || (src in w.server && w.server[src] == of.buf.value) {
      assert closed.server[src] == of.buf.value;
      assert closed.server - {src} == w.server - {src};
      assert Rekeyed(closed.handles, src, dst) == renamed.handles - {h};
    } else if second.Some? {
      assert second.value.server[dst] != Close(renamed, h).server[dst];
    }
  }

  /** Two writable opens of one object; the second one writes and closes. */
  const SecondWriterFirst: seq<Event> :=
      [Open(Contested, false, true), Open(Contested, false, true), Write(2, 0, [2]), Release(2, PutOk)]

  const Contested := ObjId("bucket", "file")

  lemma {:induction false} AfterSecondWriter()
    ensures Run(World(map[Contested := [1]], map[], map[], 1), SecondWriterFirst)
         == World(map[Contested := [2]], map[1 := OpenFile(Contested, Some([1]), false, false)], map[], 3)
  {
    var e := SecondWriterFirst;
    var w0 := World(map[Contested := [1]], map[], map[], 1);
    var clean := OpenFile(Contested, Some([1]), false, false);
    var w1 := World(w0.server, map[1 := clean], map[], 2);
    var w2 := World(w0.server, map[1 := clean, 2 := clean], map[], 3);
    var w3 := World(w0.server, map[1 := clean, 2 := OpenFile(Contested, Some([2]), true, false)], map[], 3);
    var w4 := World(map[Contested := [2]], map[1 := clean], map[], 3);
    assert Step(w0, e[0]) == w1 && Step(w1, e[1]) == w2;
    assert TempFiles.Splice([1], 0, [2]) == [2];
    assert Step(w2, e[2]) == w3;
    assert Step(w3, e[3]) == w4;
    assert e[1..][1..] == e[2..] && e[2..][1..] == e[3..] && e[3..][1..] == [];
    assert Run(w0, e) == Run(w1, e[1..]);
    assert Run(w1, e[1..]) == Run(w2, e[2..]);
    assert Run(w2, e[2..]) == Run(w3, e[3..]);
    assert Run(w3, e[3..]) == Run(w4, []);
  }

  /**
   * A reachable state in which the orders differ. A first handle sits clean on the old body while a
   * second one writes and closes. Closing first and renaming then moves the new body; renaming first
   * copies the first handle's buffer and deletes the only copy of what the second one wrote.
   */
  lemma {:induction false} StaleRenameLosesWrite(dst: ObjId) returns (w: World)
    requires dst != Contested
    ensures w == Run(World(map[Contested := [1]], map[], map[], 1), SecondWriterFirst) && OneWriter(w, Contested, 1)
    ensures var renameFirst := RenameResult(w, Contested, dst, Some(1));
            renameFirst.Some? && Close(renameFirst.value, 1).server == map[dst := [1]]
    ensures var closeFirst := RenameResult(Close(w, 1), Contested, dst, None);
            closeFirst.Some? && closeFirst.value.server == map[dst := [2]]
  {
    AfterSecondWriter();
    w := Run(World(map[Contested := [1]], map[], map[], 1), SecondWriterFirst);
    CloseOfWriter(w, Contested, 1);
    CloseOfWriter(RenameResult(w, Contested, dst, Some(1)).value, dst, 1);
  }

  // ----- After the rename -----

  /** Nothing open or in flight can write `id`, and the server does not have it. */
  ghost predicate Detached(w: World, id: ObjId) {
    && WellFormed(w)
    && id !in w.server
    && NoWriterOf(w, id)
    && NoFlightOf(w, id)
  }

  predicate ReopensForWriting(e: Event, id: ObjId) {
    OpensForWriting(e) && e.id == id
  }

  lemma {:induction false} OpenKeepsDetached(w: World, e: Event, id: ObjId)
    requires Detached(w, id) && e.Open? && !ReopensForWriting(e, id)
    ensures Detached(Step(w, e), id)
  {
    if e.truncate {
      ResizeKeepsShape(w.handles, e.id, 0, Some(w.nextFh));
    }
  }

  lemma {:induction false} TruncateKeepsDetached(w: World, e: Event, id: ObjId)
    requires Detached(w, id) && e.Truncate?
    ensures Detached(Step(w, e), id)
  {
    TruncateKeepsShape(w, e.via, e.path, e.len, e.outcome);
    TruncateCreatesNothing(w, e.via, e.path, e.len, e.outcome, id);
  }

  lemma {:induction false} TruncateCreatesNothing(w: World, via: Option<nat>, path: Option<ObjId>, len: nat,
                                                  outcome: PutOutcome, id: ObjId)
    requires id !in w.server
    ensures id !in TruncateStep(w, via, path, len, outcome).0.server
  {
  }

  lemma {:induction false} StepKeepsDetached(w: World, e: Event, id: ObjId)
    requires Detached(w, id) && !ReopensForWriting(e, id)
    requires e.Release? ==> e.fh !in w.flights
    ensures Detached(Step(w, e), id)
  {
    if e.Open? {
      OpenKeepsDetached(w, e, id);
    } else if e.Truncate? {
      TruncateKeepsDetached(w, e, id);
    } else if e.FailedCut? {
      DamageKeepsShape(w.handles, e.id, e.len, e.initiator, e.damage);
    }
  }

  lemma {:induction false} RunKeepsDetached(w: World, events: seq<Event>, id: ObjId, dst: ObjId, h: nat)
    requires Detached(w, id) && LegalRun(w, events, dst, h)
    requires forall i :: 0 <= i < |events| ==> !ReopensForWriting(events[i], id)
    ensures Detached(Run(w, events), id)
    decreases |events|
  {
    if events != [] {
      StepKeepsDetached(w, events[0], id);
      RunKeepsDetached(Step(w, events[0]), events[1..], id, dst, h);
    }
  }

  lemma {:induction false} RenamedHandleFollows(w: World, src: ObjId, dst: ObjId, h: nat)
    requires src != dst && WellFormed(w) && OneWriter(w, src, h)
    requires NoWriterOf(w, dst) && NoFlightOf(w, dst) && NoFlightOf(w, src)
    ensures var after := Renamed(w, src, dst, w.handles[h].buf.value);
            && Detached(after, src)
            && Sole(after, dst, h) && Synced(after, dst, h, w.handles[h].buf.value, false)
  {
    var after := Renamed(w, src, dst, w.handles[h].buf.value);
    assert after.handles[h].id == dst;
  }

  /** The requests that go through handle `h`, other than closing it. */
  predicate Through(e: Event, h: nat) {
    match e
    case Write(fh, _, _) => fh == h
    case FailedWrite(fh, _, _) => fh == h
    case Truncate(via, _, _, _) => via == Some(h)
    case FlushBegin(fh) => fh == h
    case FlushEnd(fh, _, _) => fh == h
    case _ => false
  }

  lemma {:induction false} StepThroughTouchesOnly(w: World, e: Event, id: ObjId, h: nat)
    requires Sole(w, id, h) && Legal(w, e, id, h) && Through(e, h)
    ensures Step(w, e).server - {id} == w.server - {id}
  {
  }

  /** Whatever is done through the one writer of an object, no other object on the server changes. */
  lemma {:induction false} RunThroughTouchesOnly(w: World, events: seq<Event>, id: ObjId, h: nat)
    requires Sole(w, id, h) && LegalRun(w, events, id, h)
    requires forall i :: 0 <= i < |events| ==> Through(events[i], h)
    ensures Sole(Run(w, events), id, h) && Run(w, events).server - {id} == w.server - {id}
    decreases |events|
  {
    if events != [] {
      StepKeepsSole(w, events[0], id, h);
      StepThroughTouchesOnly(w, events[0], id, h);
      RunThroughTouchesOnly(Step(w, events[0]), events[1..], id, h);
    }
  }

  lemma {:induction false} CloseTouchesOnly(w: World, id: ObjId, h: nat, outcome: PutOutcome)
    requires Sole(w, id, h)
    ensures Step(w, Release(h, outcome)).server - {id} == w.server - {id}
  {
  }

  /**
   * Once renamed, the handle writes back to the new key only. Through every later run the old key
   * stays absent from the server unless it is opened for writing again. Requests through the handle,
   * its close included, change no object but the new one. Closing puts the renamed body with the
   * later edits applied there, if no drift is left that the close does not repair.
   */
  lemma {:induction false} LaterWritesReachOnlyNewKey(w: World, src: ObjId, dst: ObjId, h: nat, events: seq<Event>,
        outcome: PutOutcome)
    requires src != dst && WellFormed(w) && OneWriter(w, src, h)
    requires NoWriterOf(w, dst) && NoFlightOf(w, dst) && NoFlightOf(w, src)
    requires LegalRun(Renamed(w, src, dst, w.handles[h].buf.value), events, dst, h)
    requires forall i :: 0 <= i < |events| ==> !ReopensForWriting(events[i], src)
    ensures var body := w.handles[h].buf.value;
            var after := Renamed(w, src, dst, body);
            var last := Run(after, events);
            var closed := Step(last, Release(h, outcome)).server;
            && src !in last.server && src !in closed
            && ((forall i :: 0 <= i < |events| ==> Through(events[i], h)) ==>
                  closed - {dst} == after.server - {dst} == w.server - {src, dst})
            && h in last.handles
            && (h !in last.flights
                && (Pending(last.handles[h]) ==> outcome.PutOk?)
                && (Drift(after, events, dst, h, false) ==> Pending(last.handles[h])) ==>
                  Seed(closed, dst) == Plain(after, events, dst, h, body))
  {
    var body := w.handles[h].buf.value;
    var after := Renamed(w, src, dst, body);
    var last := Run(after, events);
    RenamedHandleFollows(w, src, dst, h);
    RunKeepsDetached(after, events, src, dst, h);
    RunSynced(after, events, dst, h, body, false);
    CloseTouchesOnly(last, dst, h, outcome);
    ClosedSeed(last, dst, h, Plain(after, events, dst, h, body), Drift(after, events, dst, h, false), outcome);
    assert Step(last, Release(h, outcome)).server - {dst} == last.server - {dst};
    if forall i :: 0 <= i < |events| ==> Through(events[i], h) {
      RunThroughTouchesOnly(after, events, dst, h);
    }
  }

  lemma {:induction false} ClosedSeed(w: World, id: ObjId, h: nat, plain: Bytes, drift: bool, outcome: PutOutcome)
    requires Sole(w, id, h) && Synced(w, id, h, plain, drift)
    ensures h !in w.flights && (Pending(w.handles[h]) ==> outcome.PutOk?) && (drift ==> Pending(w.handles[h])) ==>
              Seed(Step(w, Release(h, outcome)).server, id) == plain
  {
  }

  // ----- The driver's code -----

  /** The handles of `src` that still have to PUT. */
  function PendingOf(handles: Handles, src: ObjId): set<nat> {
    set fh | fh in handles && handles[fh].id == src && Pending(handles[fh])
  }

  function MarkFlushed(handles: Handles, fhs: set<nat>): Handles {
    map fh | fh in handles :: if fh in fhs then handles[fh].(flushed := true) else handles[fh]
  }

  /** One PUT of a pending handle, from begin to end. One that does not work may still reach the server. */
  method FlushOne(m: Mount, fh: nat, works: bool)
    requires fh in m.handles && Pending(m.handles[fh]) && fh !in m.flights
    modifies m`server, m`handles, m`flights, m`history
    ensures m.flights == old(m.flights)
    ensures m.server - {old(m.handles)[fh].id} == old(m.server) - {old(m.handles)[fh].id}
    ensures m.handles == if works then old(m.handles)[fh := old(m.handles)[fh].(flushed := true)] else old(m.handles)
  {
    var landed: bool := *;
    m.BeginFlush(fh);
    m.EndFlush(fh, if works then PutOk else PutFailed(landed), []);
    assert m.flights == old(m.flights);
    assert !works ==> m.handles == old(m.handles);
  }

  lemma {:induction false} MarkOneMore(handles: Handles, done: set<nat>, fh: nat)
    requires fh in handles && fh !in done
    ensures fh in MarkFlushed(handles, done) && MarkFlushed(handles, done)[fh] == handles[fh]
    ensures MarkFlushed(handles, done)[fh := handles[fh].(flushed := true)] == MarkFlushed(handles, done + {fh})
  {
  }

  /** Flushes every pending handle of `src`, in any order; stops at the first PUT that fails: one of `trouble`. */
  method FlushSource(m: Mount, src: ObjId, trouble: set<nat>) returns (ok: bool)
    requires forall fh :: fh in PendingOf(m.handles, src) ==> fh !in m.flights
    modifies m`server, m`handles, m`flights, m`history
    ensures m.flights == old(m.flights)
    ensures m.server - {src} == old(m.server) - {src}
    ensures PendingOf(old(m.handles), src) == {} ==> m.server == old(m.server)
    ensures exists done :: m.handles == MarkFlushed(old(m.handles), done)
    ensures ok <==> PendingOf(old(m.handles), src) !! trouble
    ensures ok ==> m.handles == MarkFlushed(old(m.handles), PendingOf(old(m.handles), src))
  {
    var all := PendingOf(m.handles, src);
    var todo := all;
    ghost var done: set<nat> := {};
    assert m.handles == MarkFlushed(m.handles, done);
    while todo != {}
      invariant todo + done == all && todo !! done && done !! trouble
      invariant m.flights == old(m.flights)
      invariant m.server - {src} == old(m.server) - {src}
      invariant todo == all ==> m.server == old(m.server)
      invariant m.handles == MarkFlushed(old(m.handles), done)
      decreases todo
    {
      var fh :| fh in todo;
      MarkOneMore(old(m.handles), done, fh);
      FlushOne(m, fh, fh !in trouble);
      if fh in trouble {
        return false;
      }
      todo := todo - {fh};
      done := done + {fh};
    }
    assert done == all;
    return true;
  }

  function MovedKeys(handles: Handles, src: ObjId, dst: ObjId): Handles {
    map fh | fh in handles :: if handles[fh].id == src then handles[fh].(id := dst) else handles[fh]
  }

  /** Flushing first and moving the keys afterwards is the one-shot `Rekeyed`. */
  lemma {:induction false} FlushThenMoveIsRekeyed(handles: Handles, src: ObjId, dst: ObjId)
    ensures MovedKeys(MarkFlushed(handles, PendingOf(handles, src)), src, dst) == Rekeyed(handles, src, dst)
  {
  }

  lemma {:induction false} FlushKeepsSourceBody(w: World, w': World, src: ObjId, body: Bytes)
    requires w'.handles == MarkFlushed(w.handles, PendingOf(w.handles, src))
    requires PendingOf(w.handles, src) == {} ==> w'.server == w.server
    requires SourceBody(w', src, body)
    ensures SourceBody(w, src, body)
  {
    if fh :| fh in w'.handles && Writable(w'.handles[fh], src) && w'.handles[fh].buf.value == body {
      assert Writable(w.handles[fh], src) && w.handles[fh].buf.value == body;
    } else {
      assert forall fh :: fh in w.handles && Writable(w.handles[fh], src) ==> Writable(w'.handles[fh], src);
      assert forall fh :: fh in PendingOf(w.handles, src) ==> Writable(w.handles[fh], src);
      assert PendingOf(w.handles, src) == {};
    }
  }

  /** Whether there is something to rename does not depend on the flushes. */
  lemma {:induction false} FlushKeepsWriters(w: World, w': World, src: ObjId)
    requires w'.handles == MarkFlushed(w.handles, PendingOf(w.handles, src))
    requires PendingOf(w.handles, src) == {} ==> w'.server == w.server
    ensures (!NoWriterOf(w', src) || src in w'.server) <==> (!NoWriterOf(w, src) || src in w.server)
  {
    forall fh ensures fh in w.handles && Writable(w.handles[fh], src) <==>
        fh in w'.handles && Writable(w'.handles[fh], src)
    {
    }
    if NoWriterOf(w, src) {
      assert PendingOf(w.handles, src) == {};
    }
  }

  method RekeyHandles(m: Mount, src: ObjId, dst: ObjId)
    requires src != dst
    modifies m`handles
    ensures m.handles == MovedKeys(old(m.handles), src, dst)
  {
    var todo := m.handles.Keys;
    while todo != {}
      invariant m.handles.Keys == old(m.handles).Keys && todo <= m.handles.Keys
      invariant forall fh :: fh in m.handles ==>
                  m.handles[fh] == if fh !in todo && old(m.handles)[fh].id == src
                                   then old(m.handles)[fh].(id := dst) else old(m.handles)[fh]
      decreases todo
    {
      var fh :| fh in todo;
      todo := todo - {fh};
      if m.handles[fh].id == src {
        m.handles := m.handles[fh := m.handles[fh].(id := dst)];
      }
    }
  }

  /** Prefers any open write buffer of `src` (the scan order decides which), else a GET. */
  method PickSource(m: Mount, src: ObjId, works: bool) returns (found: bool, body: Bytes)
    ensures found <==> works && (!NoWriterOf(m.View(), src) || src in m.server)
    ensures found ==> SourceBody(m.View(), src, body)
  {
    body := [];
    if !works {
      return false, body;
    }
    var writers := set fh | fh in m.handles && Writable(m.handles[fh], src);
    if writers != {} {
      var fh :| fh in writers;
      return true, m.handles[fh].buf.value;
    }
    assert forall fh :: fh in m.handles && Writable(m.handles[fh], src) ==> fh in writers;
    if src in m.server {
      return true, m.server[src];
    }
    return false, body;
  }

  /** PUT the new key, then DELETE the old one; an object that is already gone counts as deleted. */
  method CopyThenDelete(m: Mount, src: ObjId, dst: ObjId, body: Bytes, put: PutOutcome, delete: Fault)
    returns (ok: bool)
    requires src != dst
    modifies m`server, m`history
    ensures ok <==> put.PutOk? && delete.Works?
    ensures ok ==> m.server == (old(m.server) - {src})[dst := body]
    ensures m.server - {src, dst} == old(m.server) - {src, dst}
  {
    m.PutObject(dst, body, put);
    if !put.PutOk? {
      return false;
    }
    m.DeleteObject(src, !delete.FailsBefore?);
    return delete.Works?;
  }

  /**
   * How the calls of a rename go: the handles whose flush fails, the temporary file with the reading of the
   * source, the PUT of the new key and the DELETE of the old one.
   */
  datatype Calls = Calls(flushFails: set<nat>, source: bool, put: PutOutcome, delete: Fault) {
    predicate AllWork(handles: Handles, src: ObjId) {
      && (forall fh :: fh in handles && handles[fh].id == src ==>
            handles[fh].buf.Some? && handles[fh].dirty && !handles[fh].flushed ==> fh !in flushFails)
      && source && put.PutOk? && delete.Works?
    }
  }

  ghost predicate OnlyFlagsDiffer(before: Handles, after: Handles) {
    && after.Keys == before.Keys
    && forall fh :: fh in before ==> after[fh].id == before[fh].id && after[fh].buf == before[fh].buf
  }

  /** Server and handles of the request: flush, pick the source, copy, delete, move the handles. */
  method RenameContents(m: Mount, src: ObjId, dst: ObjId, calls: Calls) returns (ok: bool)
    requires src != dst
    requires forall fh :: fh in PendingOf(m.handles, src) ==> fh !in m.flights
    modifies m`server, m`handles, m`flights, m`history
    ensures m.flights == old(m.flights)
    ensures ok <==> calls.AllWork(old(m.handles), src) && (!NoWriterOf(old(m.View()), src) || src in old(m.server))
    ensures ok ==>
              exists body :: SourceBody(old(m.View()), src, body) && m.View() == Renamed(old(m.View()), src, dst, body)
    ensures !ok ==> m.server - {src, dst} == old(m.server) - {src, dst} && OnlyFlagsDiffer(old(m.handles), m.handles)
  {
    ghost var before := m.View();
    var flushedAll := FlushSource(m, src, calls.flushFails);
    ghost var flushed := m.View();
    assert flushed.server - {src, dst} == (flushed.server - {src}) - {dst};
    assert before.server - {src, dst} == (before.server - {src}) - {dst};
    if !flushedAll {
      return false;
    }
    FlushKeepsWriters(before, flushed, src);
    var found, body := PickSource(m, src, calls.source);
    if !found {
      return false;
    }
    FlushKeepsSourceBody(before, flushed, src, body);
    var moved := CopyThenDelete(m, src, dst, body, calls.put, calls.delete);
    if !moved {
      return false;
    }
    RekeyHandles(m, src, dst);
    FlushThenMoveIsRekeyed(before.handles, src, dst);
    assert m.View() == Renamed(before, src, dst, body);
    return true;
  }

  /**
   * The whole request. It succeeds if and only if every call works and there is a writer's buffer or a
   * server object to rename. Success means the exact renamed state, for whichever writer the hash-map scan
   * found, and the inode keeps its number; failure leaves every handle on its key with its buffer and
   * every other object's body alone.
   */
  method RenameFile(m: Mount, src: ObjId, dst: ObjId, calls: Calls) returns (ok: bool)
    requires src != dst && I.Inverse(m.inodes.View())
    requires forall fh :: fh in PendingOf(m.handles, src) ==> fh !in m.flights
    modifies m`server, m`handles, m`flights, m`history, m.inodes
    ensures I.Inverse(m.inodes.View())
    ensures ok <==> calls.AllWork(old(m.handles), src) && (!NoWriterOf(old(m.View()), src) || src in old(m.server))
    ensures ok ==> FileRenamed(old(m.View()), m.View(), src, dst)
    ensures ok ==> forall h :: OneWriter(old(m.View()), src, h) ==>
              RenameResult(old(m.View()), src, dst, Some(h)) == Some(m.View())
    ensures ok && NoWriterOf(old(m.View()), src) ==> RenameResult(old(m.View()), src, dst, None) == Some(m.View())
    ensures ok ==>
              var from, to := I.Object(src.bucket, src.key), I.Object(dst.bucket, dst.key);
              var known := I.Assign(old(m.inodes.View()), from);
              m.inodes.View() == I.Repath(known, from, to) && m.inodes.byPath[to] == known.byPath[from]
    ensures !ok ==> m.server - {src, dst} == old(m.server) - {src, dst} && OnlyFlagsDiffer(old(m.handles), m.handles)
  {
    ghost var before := m.View();
    var from := I.Object(src.bucket, src.key);
    var _ := m.inodes.GetOrAssign(from);
    ok := RenameContents(m, src, dst, calls);
    if ok {
      ghost var body :| SourceBody(before, src, body) && m.View() == Renamed(before, src, dst, body);
      RenamedIsResult(before, src, dst, body);
      RenamedByName(before, src, dst, body);
      m.inodes.RepathTo(from, I.Object(dst.bucket, dst.key));
    }
  }
}
