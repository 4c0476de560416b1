/** The mounted driver as an object: one method per request, each one step of the state machine. */
module Driver {
  import opened Base
  import opened TempFiles
  import opened Inodes
  import W = WriteBack

  predicate NoneFaulty(handles: W.Handles, id: W.ObjId, faulty: map<nat, nat>) {
    forall fh :: fh in handles && W.Writable(handles[fh], id) ==> fh !in faulty
  }

  class Mount {
    var server: W.Store
    var handles: W.Handles
    var flights: map<nat, W.Flight>
    var nextFh: nat
    var localDirs: set<(string, string)>
    const inodes: InodeTable
    /** The server contents after each server call, in order. */
    ghost var history: seq<W.Store>

    ghost function View(): (w: W.World)
      reads this
    {
      W.World(server, handles, flights, nextFh)
    }

    constructor (remote: W.Store)
      ensures View() == W.World(remote, map[], map[], 1) && W.WellFormed(View())
      ensures localDirs == {} && history == [] && fresh(inodes)
      ensures Inverse(inodes.View()) && RootAtOne(inodes.View())
    {
      server, handles, flights, nextFh := remote, map[], map[], 1;
      localDirs, history := {}, [];
      inodes := new InodeTable();
    }

    // ----- Server calls -----

    method PutObject(id: W.ObjId, body: Bytes, outcome: W.PutOutcome)
      modifies this`server, this`history
      ensures server == W.Put(old(server), id, body, outcome)
      ensures history == old(history) + [server]
    {
      if outcome.PutOk? || outcome.landed {
        server := server[id := body];
      }
      history := history + [server];
    }

    method DeleteObject(id: W.ObjId, done: bool)
      modifies this`server, this`history
      ensures server == if done then old(server) - {id} else old(server)
      ensures history == old(history) + [server]
    {
      if done {
        server := server - {id};
      }
      history := history + [server];
    }

    // ----- Requests -----

    /** Resizes one buffer, or fails after overwriting part of its tail. */
    method CutBuffer(fh: nat, id: W.ObjId, len: nat, initiator: bool, failure: Option<nat>)
      requires fh in handles && W.Writable(handles[fh], id)
      modifies this`handles
      ensures handles == old(handles)[fh := if failure.None? then W.ResizeOne(old(handles)[fh], id, len, initiator)
                                            else W.Scar(old(handles)[fh], id, len, failure.value)]
    {
      var of := handles[fh];
      var curLen := |of.buf.value|;
      var tmp := new TempFile(of.buf.value);
      if failure.None? {
        tmp.SetBufferLen(len);
      } else if len < curLen {
        tmp.ZeroRange(len, Min(failure.value, curLen - len));
      }
      of := of.(buf := Some(tmp.contents));
      if failure.None? && initiator && (curLen != len || of.dirty) {
        of := of.(dirty := true, flushed := false);
      }
      handles := handles[fh := of];
    }

    /**
     * Resizes every writable buffer of the object, visiting the handle map in no particular order. The
     * temp files of the handles in `faulty` fail after zeroing that many bytes; an error leaves the buffers
     * visited before it resized.
     */
    method TruncateOpenBuffers(id: W.ObjId, len: nat, initiator: Option<nat>, faulty: map<nat, nat>)
      returns (ok: bool, ghost damage: W.Damage)
      modifies this`handles
      ensures ok <==> NoneFaulty(old(handles), id, faulty)
      ensures damage.remote.None?
      ensures handles == if ok then W.ResizeBuffers(old(handles), id, len, initiator)
                         else W.DamageBuffers(old(handles), id, len, initiator, damage)
    {
      var todo := handles.Keys;
      ok, damage := true, W.Damage({}, 0, 0, None);
      while todo != {}
        invariant handles.Keys == old(handles).Keys && todo <= handles.Keys
        invariant forall fh :: fh in handles ==>
                    handles[fh] == if fh in todo then old(handles)[fh]
                                   else W.ResizeOne(old(handles)[fh], id, len, initiator == Some(fh))
        invariant forall fh :: fh in handles && fh !in todo && W.Writable(old(handles)[fh], id) ==> fh !in faulty
        decreases todo
      {
        var fh :| fh in todo;
        todo := todo - {fh};
        if handles[fh].id == id && handles[fh].buf.Some? {
          CutBuffer(fh, id, len, initiator == Some(fh), if fh in faulty then Some(faulty[fh]) else None);
          if fh in faulty {
            return false, W.Damage(handles.Keys - todo - {fh}, fh, faulty[fh], None);
          }
        }
      }
      return true, damage;
    }

    /**
     * Opens an object. Without a temp file or a reachable server nothing happens; a truncating open
     * that cannot empty the other buffers has used up its handle number.
     */
    method OpenObject(id: W.ObjId, truncate: bool, writable: bool, prepared: bool, faulty: map<nat, nat>)
      returns (fh: Option<nat>, ghost damage: W.Damage)
      modifies this`handles, this`nextFh
      ensures fh.Some? <==> ((truncate || writable) ==> prepared) && (truncate ==> NoneFaulty(old(handles), id, faulty))
      ensures fh.Some? ==> View() == W.Step(old(View()), W.Open(id, truncate, writable)) && fh.value == old(nextFh)
      ensures fh.Some? && W.WellFormed(old(View())) ==>
                W.OpenEffect(old(server), old(handles), handles, id, truncate, writable, fh.value)
      ensures fh.None? ==>
                View() == if !prepared then old(View())
                          else
                            var cut := W.FailedCut(id, 0, Some(old(nextFh)), damage);
                            W.Step(old(View()), cut).(nextFh := old(nextFh) + 1)
    {
      damage := W.Damage({}, 0, 0, None);
      if (truncate || writable) && !prepared {
        return None, damage;
      }
      var of := W.OpenFile(id, None, false, false);
      if truncate {
        of := W.OpenFile(id, Some([]), true, false);
      } else if writable {
        of := W.OpenFile(id, Some(W.Seed(server, id)), false, false);
      }
      var number := nextFh;
      nextFh := nextFh + 1;
      if truncate {
        var ok;
        ok, damage := TruncateOpenBuffers(id, 0, Some(number), faulty);
        if !ok {
          return None, damage;
        }
      }
      handles := handles[number := of];
      if W.WellFormed(old(View())) {
        W.OpenMeaning(old(View()), id, truncate, writable);
      }
      return Some(number), damage;
    }

    method CreateObject(id: W.ObjId) returns (fh: nat)
      modifies this`handles, this`nextFh
      ensures View() == W.Step(old(View()), W.Create(id)) && fh == old(nextFh)
    {
      fh := nextFh;
      nextFh := nextFh + 1;
      handles := handles[fh := W.OpenFile(id, Some([]), true, false)];
    }

    /** Writes at an offset; a temp file with too little `room` keeps what fits and the handle stays unmarked. */
    method WriteAt(fh: nat, offset: nat, data: Bytes, room: Option<nat>) returns (ok: bool)
      modifies this`handles, this`flights
      ensures ok <==> fh in old(handles) && old(handles)[fh].buf.Some? && room.None?
      ensures room.None? ==> View() == W.Step(old(View()), W.Write(fh, offset, data))
      ensures room.Some? ==>
                View() == W.Step(old(View()), W.FailedWrite(fh, offset, data[..Min(room.value, |data|)]))
    {
      if fh !in handles || handles[fh].buf.None? {
        return false;
      }
      var tmp := new TempFile(handles[fh].buf.value);
      tmp.Seek(offset);
      ok := room.None?;
      var n := if ok then |data| else Min(room.value, |data|);
      assert ok ==> data[..n] == data;
      tmp.WriteAll(data[..n]);
      var of := handles[fh].(buf := Some(tmp.contents));
      handles := handles[fh := if ok then of.(dirty := true, flushed := false) else of];
      if fh in flights && (ok || n > 0) {
        flights := flights[fh := flights[fh].(torn := true)];
      }
    }

    /** Rewrites the server object at `len` bytes: HEAD, GET, resize, PUT. */
    method TruncateRemoteObject(id: W.ObjId, len: nat, outcome: W.PutOutcome) returns (result: W.RemoteResult)
      modifies this`server, this`history
      ensures (server, result) == W.TruncateRemote(old(server), id, len, outcome)
    {
      if id !in server {
        return W.RemoteNotFound;
      }
      if |server[id]| == len {
        return W.RemoteOk;
      }
      var tmp := new TempFile([]);
      if len > 0 {
        tmp.WriteAll(server[id]);
        tmp.SetBufferLen(len);
      }
      assert tmp.contents == Resize(server[id], len);
      PutObject(id, tmp.contents, outcome);
      result := if outcome.PutOk? then W.RemoteOk else W.RemoteFailed;
    }

    /**
     * Truncates through a writable handle or else by path. When the server cannot be asked, nothing
     * happens; when a buffer cannot be resized, what was done before stays.
     */
    method TruncateObject(via: Option<nat>, path: Option<W.ObjId>, len: nat, outcome: W.PutOutcome, reachable: bool,
                          faulty: map<nat, nat>)
      returns (ok: bool, ghost damage: W.Damage)
      modifies this`server, this`handles, this`history
      ensures var target := W.TruncateTarget(old(handles), via, path);
              var (next, fine) := W.TruncateStep(old(View()), via, path, len, outcome);
              if target.None? then ok && View() == old(View())
              else if !W.InitiatorWritable(old(handles), via, target.value) && !reachable then
                !ok && View() == old(View())
              else if !fine || NoneFaulty(old(handles), target.value, faulty) then ok == fine && View() == next
              else
                var initiator := if W.InitiatorWritable(old(handles), via, target.value) then via else None;
                !ok && View() == W.Step(old(View()), W.FailedCut(target.value, len, initiator, damage))
                && damage.remote == if initiator.Some? then None else Some(outcome)
    {
      damage := W.Damage({}, 0, 0, None);
      var target := W.TruncateTarget(handles, via, path);
      if target.None? {
        return true, damage;
      }
      if W.InitiatorWritable(handles, via, target.value) {
        ok, damage := TruncateOpenBuffers(target.value, len, via, faulty);
      } else if reachable {
        ok, damage := TruncateServerFirst(target.value, len, outcome, faulty);
      } else {
        ok := false;
      }
    }

    /** Rewrites the server object, then resizes the open buffers if that worked or a handle will still PUT. */
    method TruncateServerFirst(id: W.ObjId, len: nat, outcome: W.PutOutcome, faulty: map<nat, nat>)
      returns (ok: bool, ghost damage: W.Damage)
      modifies this`server, this`handles, this`history
      ensures var (remote, result) := W.TruncateRemote(old(server), id, len, outcome);
              var goesOn := result.RemoteOk? || (result.RemoteNotFound? && W.PutPending(old(handles), id));
              && server == remote && damage.remote == Some(outcome)
              && (ok <==> goesOn && NoneFaulty(old(handles), id, faulty))
              && handles == if !goesOn then old(handles)
                            else if ok then W.ResizeBuffers(old(handles), id, len, None)
                            else W.DamageBuffers(old(handles), id, len, None, damage)
    {
      var pending := W.PutPending(handles, id);
      var result := TruncateRemoteObject(id, len, outcome);
      if result.RemoteOk? || (result.RemoteNotFound? && pending) {
        ok, damage := TruncateOpenBuffers(id, len, None, faulty);
        damage := damage.(remote := Some(outcome));
      } else {
        ok, damage := false, W.Damage({}, 0, 0, Some(outcome));
      }
    }

    /** Marks the handle flushed under the lock and hands its buffer to a PUT. */
    method BeginFlush(fh: nat)
      modifies this`handles, this`flights
      ensures View() == W.Step(old(View()), W.FlushBegin(fh))
    {
      if fh !in handles || !W.Pending(handles[fh]) {
        return;
      }
      var of := handles[fh];
      handles := handles[fh := of.(flushed := true)];
      flights := flights[fh := W.Flight(of.id, of.buf.value, false)];
    }

    /** The PUT's result comes back; a failure undoes the optimistic flag. */
    method EndFlush(fh: nat, outcome: W.PutOutcome, mixture: Bytes)
      modifies this`server, this`handles, this`flights, this`history
      ensures View() == W.Step(old(View()), W.FlushEnd(fh, outcome, mixture))
      ensures fh in old(flights) ==> history == old(history) + [server]
    {
      if fh !in flights {
        return;
      }
      var fl := flights[fh];
      PutObject(fl.id, if fl.torn then mixture else fl.body, outcome);
      flights := flights - {fh};
      if !outcome.PutOk? && fh in handles {
        handles := handles[fh := handles[fh].(flushed := false)];
      }
    }

    method ReleaseHandle(fh: nat, outcome: W.PutOutcome)
      modifies this`server, this`handles, this`history
      ensures View() == W.Step(old(View()), W.Release(fh, outcome))
    {
      if fh !in handles {
        return;
      }
      var of := handles[fh];
      handles := handles - {fh};
      if of.dirty && !of.flushed && of.buf.Some? {
        PutObject(of.id, of.buf.value, outcome);
      }
    }
  }
}
