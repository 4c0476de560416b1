/**
 * The FUSE write-back layer as a state machine: open handles with private buffers, PUTs that are
 * begun under the handle lock and finish later, and a server reached only by whole-object calls.
 */
module WriteBack {
  import opened Base
  import opened TempFiles

  datatype ObjId = ObjId(bucket: string, key: string)

  /** `buf` is present exactly for writable opens. */
  datatype OpenFile = OpenFile(id: ObjId, buf: Option<Bytes>, dirty: bool, flushed: bool)

  type Store = map<ObjId, Bytes>

  type Handles = map<nat, OpenFile>

  /** A PUT in progress: it reads the live buffer, so a write meanwhile makes the upload a mixture. */
  datatype Flight = Flight(id: ObjId, body: Bytes, torn: bool)

  datatype World = World(server: Store, handles: Handles, flights: map<nat, Flight>, nextFh: nat)

  /** A PUT that reports failure may or may not have reached the server. */
  datatype PutOutcome = PutOk | PutFailed(landed: bool)

  datatype Event =
    | Open(id: ObjId, truncate: bool, writable: bool)
    | Create(id: ObjId)
    | Write(fh: nat, offset: nat, data: Bytes)
    /** A write whose temp file failed: `part` is what had reached the buffer. */
    | FailedWrite(fh: nat, offset: nat, part: Bytes)
    | Truncate(via: Option<nat>, path: Option<ObjId>, len: nat, outcome: PutOutcome)
    /** A resize of the open buffers that stopped half-way, see `Damage`. */
    | FailedCut(id: ObjId, len: nat, initiator: Option<nat>, damage: Damage)
    | FlushBegin(fh: nat)
    | FlushEnd(fh: nat, outcome: PutOutcome, mixture: Bytes)
    | Release(fh: nat, outcome: PutOutcome)

  /**
   * How far a resize of the open buffers got: the handles in `done` are resized, `zeroed` bytes of the
   * tail of `at` are overwritten, the others are untouched. The server may have been cut before.
   */
  datatype Damage = Damage(done: set<nat>, at: nat, zeroed: nat, remote: Option<PutOutcome>)

  predicate Writable(of: OpenFile, id: ObjId) {
    of.id == id && of.buf.Some?
  }

  /** The handle's buffer still has to be PUT. */
  predicate Pending(of: OpenFile) {
    of.buf.Some? && of.dirty && !of.flushed
  }

  // ----- Truncation -----

  /** The object a size change applies to: the handle's if it is open, else the inode's own. */
  function TruncateTarget(handles: Handles, via: Option<nat>, path: Option<ObjId>): Option<ObjId> {
    if via.Some? && via.value in handles then Some(handles[via.value].id) else path
  }

  predicate InitiatorWritable(handles: Handles, via: Option<nat>, id: ObjId) {
    via.Some? && via.value in handles && Writable(handles[via.value], id)
  }

  predicate PutPending(handles: Handles, id: ObjId) {
    exists fh :: fh in handles && handles[fh].id == id && Pending(handles[fh])
  }

  function ResizeOne(of: OpenFile, id: ObjId, len: nat, initiator: bool): OpenFile {
    if !Writable(of, id) then of
    else
      var cut := of.(buf := Some(Resize(of.buf.value, len)));
      if initiator && (|of.buf.value| != len || of.dirty) then cut.(dirty := true, flushed := false) else cut
  }

  function ResizeBuffers(handles: Handles, id: ObjId, len: nat, initiator: Option<nat>): Handles {
    map fh | fh in handles :: ResizeOne(handles[fh], id, len, initiator == Some(fh))
  }

  /** A buffer whose resize failed after the first `zeroed` bytes of the tail were overwritten. */
  function Scar(of: OpenFile, id: ObjId, len: nat, zeroed: nat): OpenFile {
    if !Writable(of, id) || |of.buf.value| <= len then of
    else of.(buf := Some(Splice(of.buf.value, len, Zeros(Min(zeroed, |of.buf.value| - len)))))
  }

  function DamageOne(of: OpenFile, fh: nat, id: ObjId, len: nat, initiator: Option<nat>, d: Damage): OpenFile {
    if fh in d.done then ResizeOne(of, id, len, initiator == Some(fh))
    else if fh == d.at then Scar(of, id, len, d.zeroed)
    else of
  }

  function DamageBuffers(handles: Handles, id: ObjId, len: nat, initiator: Option<nat>, d: Damage): Handles {
    map fh | fh in handles :: DamageOne(handles[fh], fh, id, len, initiator, d)
  }

  datatype RemoteResult = RemoteOk | RemoteNotFound | RemoteFailed

  function TruncateRemote(server: Store, id: ObjId, len: nat, outcome: PutOutcome): (Store, RemoteResult) {
    if id !in server then (server, RemoteNotFound)
    else if |server[id]| == len then (server, RemoteOk)
    else (Put(server, id, Resize(server[id], len), outcome), if outcome.PutOk? then RemoteOk else RemoteFailed)
  }

  function Put(server: Store, id: ObjId, body: Bytes, outcome: PutOutcome): Store {
    if outcome.PutOk? || outcome.landed then server[id := body] else server
  }

  function TruncateStep(w: World, via: Option<nat>, path: Option<ObjId>, len: nat, outcome: PutOutcome): (World, bool) {
    var target := TruncateTarget(w.handles, via, path);
    if target.None? then (w, true)
    else
      var id := target.value;
      if InitiatorWritable(w.handles, via, id) then
        (w.(handles := ResizeBuffers(w.handles, id, len, via)), true)
      else
        var (server, remote) := TruncateRemote(w.server, id, len, outcome);
        if remote.RemoteOk? || (remote.RemoteNotFound? && PutPending(w.handles, id)) then
          (w.(server := server, handles := ResizeBuffers(w.handles, id, len, None)), true)
        else
          (w.(server := server), false)
  }

  // ----- One step of the driver -----

  function Seed(server: Store, id: ObjId): Bytes {
    if id in server then server[id] else []
  }

  function Step(w: World, e: Event): World {
    match e
    case Open(id, trunc, writable) =>
      var others := if trunc then ResizeBuffers(w.handles, id, 0, Some(w.nextFh)) else w.handles;
      var of := if trunc then OpenFile(id, Some([]), true, false)
                else if writable then OpenFile(id, Some(Seed(w.server, id)), false, false)
                else OpenFile(id, None, false, false);
      w.(handles := others[w.nextFh := of], nextFh := w.nextFh + 1)
    case Create(id) =>
      w.(handles := w.handles[w.nextFh := OpenFile(id, Some([]), true, false)], nextFh := w.nextFh + 1)
    case Write(fh, offset, data) =>
      if fh !in w.handles || w.handles[fh].buf.None? then w
      else
        var of := w.handles[fh];
        var written := of.(buf := Some(Splice(of.buf.value, offset, data)), dirty := true, flushed := false);
        w.(handles := w.handles[fh := written],
           flights := if fh in w.flights then w.flights[fh := w.flights[fh].(torn := true)] else w.flights)
    case FailedWrite(fh, offset, part) =>
      if fh !in w.handles || w.handles[fh].buf.None? then w
      else
        var of := w.handles[fh];
        w.(handles := w.handles[fh := of.(buf := Some(Splice(of.buf.value, offset, part)))],
           flights := if fh in w.flights && part != [] then w.flights[fh := w.flights[fh].(torn := true)]
                      else w.flights)
    case Truncate(via, path, len, outcome) =>
      TruncateStep(w, via, path, len, outcome).0
    case FailedCut(id, len, initiator, damage) =>
      w.(server := if damage.remote.None? then w.server else TruncateRemote(w.server, id, len, damage.remote.value).0,
         handles := DamageBuffers(w.handles, id, len, initiator, damage))
    case FlushBegin(fh) =>
      if fh !in w.handles || !Pending(w.handles[fh]) then w
      else
        var of := w.handles[fh];
        w.(handles := w.handles[fh := of.(flushed := true)],
           flights := w.flights[fh := Flight(of.id, of.buf.value, false)])
    case FlushEnd(fh, outcome, mixture) =>
      if fh !in w.flights then w
      else
        var fl := w.flights[fh];
        var body := if fl.torn then mixture else fl.body;
        w.(server := Put(w.server, fl.id, body, outcome),
           flights := w.flights - {fh},
           handles := if !outcome.PutOk? && fh in w.handles
                      then w.handles[fh := w.handles[fh].(flushed := false)] else w.handles)
    case Release(fh, outcome) =>
      if fh !in w.handles then w
      else
        var of := w.handles[fh];
        w.(handles := w.handles - {fh},
           server := if Pending(of) then Put(w.server, of.id, of.buf.value, outcome) else w.server)
  }

  /**
   * A request through one handle, and its close, leaves every other handle alone; only the end of a PUT and
   * a close touch the server, and there no object but the one written back.
   */
  lemma {:induction false} RequestFrame(w: World, e: Event)
    requires e.Write? || e.FailedWrite? || e.FlushBegin? || e.FlushEnd? || e.Release?
    ensures var w' := Step(w, e);
            && w'.handles.Keys == (if e.Release? then w.handles.Keys - {e.fh} else w.handles.Keys)
            && w'.nextFh == w.nextFh
            && (forall g :: g in w.handles && g != e.fh ==> w'.handles[g] == w.handles[g])
            && (forall g :: g in w.flights && g != e.fh ==> g in w'.flights && w'.flights[g] == w.flights[g])
            && (e.FlushEnd? && e.fh in w.flights ==>
                w'.server - {w.flights[e.fh].id} == w.server - {w.flights[e.fh].id})
            && (e.Release? && e.fh in w.handles ==> w'.server - {w.handles[e.fh].id} == w.server - {w.handles[e.fh].id})
            && (e.Write? || e.FailedWrite? || e.FlushBegin? ==> w'.server == w.server)
  {
  }

  function Run(w: World, events: seq<Event>): World
    decreases |events|
  {
    if events == [] then w else Run(Step(w, events[0]), events[1..])
  }

  // ----- The plain file the run is compared with -----

  /**
   * What one event does to the contents of `id` as its one writer `h` has them: a call that succeeds
   * does all of it, a call that fails half-way what it got done.
   */
  function PlainStep(w: World, e: Event, id: ObjId, h: nat, body: Bytes): Bytes {
    match e
    case Write(fh, offset, data) => if fh == h then Splice(body, offset, data) else body
    case FailedWrite(fh, offset, part) => if fh == h then Splice(body, offset, part) else body
    case Truncate(via, path, len, outcome) =>
      if TruncateTarget(w.handles, via, path) == Some(id) && TruncateStep(w, via, path, len, outcome).1
      then Resize(body, len) else body
    case FailedCut(i, len, _, d) =>
      if i != id then body
      else if h in d.done then Resize(body, len)
      else if h == d.at && len < |body| then Splice(body, len, Zeros(Min(d.zeroed, |body| - len)))
      else body
    case _ => body
  }

  function Plain(w: World, events: seq<Event>, id: ObjId, h: nat, body: Bytes): Bytes
    decreases |events|
  {
    if events == [] then body
    else Plain(Step(w, events[0]), events[1..], id, h, PlainStep(w, events[0], id, h, body))
  }

  /**
   * Whether the server copy of `id` may have drifted from a handle that is not marked for PUT: a
   * truncate by path reported failure although it landed, or a failed request left bytes in the
   * buffer. The handle's own next successful PUT of an undisturbed buffer repairs it.
   */
  predicate DriftStep(w: World, e: Event, id: ObjId, h: nat, drift: bool) {
    match e
    case FailedWrite(fh, _, part) => drift || (fh == h && part != [])
    case Truncate(via, path, len, outcome) =>
      drift || (TruncateTarget(w.handles, via, path) == Some(id) && outcome.PutFailed? && outcome.landed)
    case FailedCut(i, _, _, _) => drift || i == id
    case FlushEnd(fh, outcome, _) =>
      drift && !(fh in w.flights && w.flights[fh].id == id && !w.flights[fh].torn && outcome.PutOk?)
    case _ => drift
  }

  predicate Drift(w: World, events: seq<Event>, id: ObjId, h: nat, drift: bool)
    decreases |events|
  {
    if events == [] then drift
    else Drift(Step(w, events[0]), events[1..], id, h, DriftStep(w, events[0], id, h, drift))
  }

  // ----- Runs with one writable handle `h` of `id` -----

  predicate WellFormed(w: World) {
    && (forall fh :: fh in w.handles ==> fh < w.nextFh)
    && (forall fh :: fh in w.flights ==> fh in w.handles)
  }

  predicate NoFlightOf(w: World, id: ObjId) {
    forall fh :: fh in w.flights ==> w.flights[fh].id != id
  }

  predicate NoWriterOf(w: World, id: ObjId) {
    forall fh :: fh in w.handles ==> !Writable(w.handles[fh], id)
  }

  /**
   * The discipline the driver runs under: `h` stays open and is the only writable handle of `id`,
   * one PUT per object at a time, no truncate of an object that is being PUT.
   */
  predicate Legal(w: World, e: Event, id: ObjId, h: nat) {
    match e
    case Open(i, trunc, writable) => i == id ==> !trunc && !writable
    case Create(i) => i != id
    case Write(_, _, _) => true
    case FailedWrite(_, _, _) => true
    case Truncate(via, path, _, _) => TruncateTarget(w.handles, via, path) == Some(id) ==> NoFlightOf(w, id)
    case FailedCut(i, _, _, _) => i == id ==> NoFlightOf(w, id)
    case FlushBegin(fh) => fh in w.handles ==> fh !in w.flights && NoFlightOf(w, w.handles[fh].id)
    case FlushEnd(_, _, _) => true
    case Release(fh, _) => fh != h && fh !in w.flights
  }

  predicate LegalRun(w: World, events: seq<Event>, id: ObjId, h: nat)
    decreases |events|
  {
    events == [] || (Legal(w, events[0], id, h) && LegalRun(Step(w, events[0]), events[1..], id, h))
  }

  ghost predicate Sole(w: World, id: ObjId, h: nat) {
    && WellFormed(w)
    && h in w.handles && Writable(w.handles[h], id)
    && (forall fh :: fh in w.handles && Writable(w.handles[fh], id) ==> fh == h)
    && (forall fh :: fh in w.flights && w.flights[fh].id == id ==> fh == h)
    && (h in w.flights ==> w.flights[h].id == id)
  }

  /** How buffer, server and a PUT in flight are related at every moment. */
  ghost predicate Synced(w: World, id: ObjId, h: nat, plain: Bytes, drift: bool)
    requires Sole(w, id, h)
  {
    var of := w.handles[h];
    && of.buf == Some(plain)
    && (h in w.flights ==> of.dirty)
    && (h in w.flights && of.flushed && !w.flights[h].torn ==> w.flights[h].body == plain)
    && (h in w.flights && of.flushed && !drift ==> !w.flights[h].torn)
    && (h !in w.flights && !Pending(of) && !drift ==>
          Seed(w.server, id) == plain && (of.dirty ==> id in w.server))
  }

  lemma {:induction false} ResizeKeepsShape(handles: Handles, id: ObjId, len: nat, initiator: Option<nat>)
    ensures ResizeBuffers(handles, id, len, initiator).Keys == handles.Keys
    ensures forall fh :: fh in handles ==>
              var of := ResizeBuffers(handles, id, len, initiator)[fh];
              of.id == handles[fh].id && of.buf.Some? == handles[fh].buf.Some?
  {
  }

  /** Resizing buffers or rewriting the server leaves the set of writers as it was. */
  lemma {:induction false} SoleKept(w: World, w': World, id: ObjId, h: nat)
    requires Sole(w, id, h)
    requires w'.handles.Keys == w.handles.Keys && w'.flights == w.flights && w'.nextFh == w.nextFh
    requires forall fh :: fh in w.handles ==>
               w'.handles[fh].id == w.handles[fh].id && w'.handles[fh].buf.Some? == w.handles[fh].buf.Some?
    ensures Sole(w', id, h)
  {
  }

  lemma {:induction false} TruncateKeepsShape(w: World, via: Option<nat>, path: Option<ObjId>, len: nat,
                                              outcome: PutOutcome)
    ensures var w' := TruncateStep(w, via, path, len, outcome).0;
            && w'.handles.Keys == w.handles.Keys && w'.flights == w.flights && w'.nextFh == w.nextFh
            && forall fh :: fh in w.handles ==>
                 w'.handles[fh].id == w.handles[fh].id && w'.handles[fh].buf.Some? == w.handles[fh].buf.Some?
  {
    var target := TruncateTarget(w.handles, via, path);
    if target.Some? {
      ResizeKeepsShape(w.handles, target.value, len, via);
      ResizeKeepsShape(w.handles, target.value, len, None);
    }
  }

  lemma {:induction false} TruncateKeepsSole(w: World, via: Option<nat>, path: Option<ObjId>, len: nat,
                                             outcome: PutOutcome, id: ObjId, h: nat)
    requires Sole(w, id, h)
    ensures Sole(TruncateStep(w, via, path, len, outcome).0, id, h)
  {
    TruncateKeepsShape(w, via, path, len, outcome);
    SoleKept(w, TruncateStep(w, via, path, len, outcome).0, id, h);
  }

  lemma {:induction false} DamageKeepsShape(handles: Handles, id: ObjId, len: nat, initiator: Option<nat>, d: Damage)
    ensures DamageBuffers(handles, id, len, initiator, d).Keys == handles.Keys
    ensures forall fh :: fh in handles ==>
              var of := DamageBuffers(handles, id, len, initiator, d)[fh];
              of.id == handles[fh].id && of.buf.Some? == handles[fh].buf.Some?
  {
  }

  lemma {:induction false} FailedCutKeepsSole(w: World, e: Event, id: ObjId, h: nat)
    requires Sole(w, id, h) && e.FailedCut?
    ensures Sole(Step(w, e), id, h)
  {
    DamageKeepsShape(w.handles, e.id, e.len, e.initiator, e.damage);
    SoleKept(w, Step(w, e), id, h);
  }

  lemma {:induction false} OpenKeepsSole(w: World, i: ObjId, trunc: bool, writable: bool, id: ObjId, h: nat)
    requires Sole(w, id, h) && (i == id ==> !trunc && !writable)
    ensures Sole(Step(w, Open(i, trunc, writable)), id, h)
  {
    if trunc {
      ResizeKeepsShape(w.handles, i, 0, Some(w.nextFh));
      var others := w.(handles := ResizeBuffers(w.handles, i, 0, Some(w.nextFh)));
      SoleKept(w, others, id, h);
      assert Step(w, Open(i, trunc, writable))
          == others.(handles := others.handles[w.nextFh := OpenFile(i, Some([]), true, false)], nextFh := w.nextFh + 1);
    }
  }

  lemma {:induction false} HandleEventKeepsSole(w: World, e: Event, id: ObjId, h: nat)
    requires Sole(w, id, h) && (e.Write? || e.FailedWrite? || e.FlushBegin? || e.FlushEnd?)
    ensures Sole(Step(w, e), id, h)
  {
  }

  lemma {:induction false} StepKeepsSole(w: World, e: Event, id: ObjId, h: nat)
    requires Sole(w, id, h) && Legal(w, e, id, h)
    ensures Sole(Step(w, e), id, h)
  {
    match e
    case Open(i, trunc, writable) => OpenKeepsSole(w, i, trunc, writable, id, h);
    case Create(_) =>
    case Write(_, _, _) => HandleEventKeepsSole(w, e, id, h);
    case FailedWrite(_, _, _) => HandleEventKeepsSole(w, e, id, h);
    case Truncate(via, path, len, outcome) => TruncateKeepsSole(w, via, path, len, outcome, id, h);
    case FailedCut(_, _, _, _) => FailedCutKeepsSole(w, e, id, h);
    case FlushBegin(_) => HandleEventKeepsSole(w, e, id, h);
    case FlushEnd(_, _, _) => HandleEventKeepsSole(w, e, id, h);
    case Release(_, _) =>
  }

  lemma {:induction false} WriteSynced(w: World, e: Event, id: ObjId, h: nat, plain: Bytes, drift: bool)
    requires Sole(w, id, h) && Synced(w, id, h, plain, drift) && (e.Write? || e.FailedWrite?)
    requires Sole(Step(w, e), id, h)
    ensures Synced(Step(w, e), id, h, PlainStep(w, e, id, h, plain), DriftStep(w, e, id, h, drift))
  {
  }

  lemma {:induction false} FlushSynced(w: World, e: Event, id: ObjId, h: nat, plain: Bytes, drift: bool)
    requires Sole(w, id, h) && Synced(w, id, h, plain, drift) && (e.FlushBegin? || e.FlushEnd?) && Legal(w, e, id, h)
    requires Sole(Step(w, e), id, h)
    ensures Synced(Step(w, e), id, h, PlainStep(w, e, id, h, plain), DriftStep(w, e, id, h, drift))
  {
  }

  /** Opening, creating and closing other handles. */
  lemma {:induction false} OthersSynced(w: World, e: Event, id: ObjId, h: nat, plain: Bytes, drift: bool)
    requires Sole(w, id, h) && Synced(w, id, h, plain, drift) && (e.Open? || e.Create? || e.Release?)
              && Legal(w, e, id, h)
    requires Sole(Step(w, e), id, h)
    ensures Synced(Step(w, e), id, h, PlainStep(w, e, id, h, plain), DriftStep(w, e, id, h, drift))
  {
  }

  lemma {:induction false} StepSynced(w: World, e: Event, id: ObjId, h: nat, plain: Bytes, drift: bool)
    requires Sole(w, id, h) && Synced(w, id, h, plain, drift) && Legal(w, e, id, h)
    ensures Sole(Step(w, e), id, h)
    ensures Synced(Step(w, e), id, h, PlainStep(w, e, id, h, plain), DriftStep(w, e, id, h, drift))
  {
    StepKeepsSole(w, e, id, h);
    match e
    case Open(_, _, _) => OthersSynced(w, e, id, h, plain, drift);
    case Create(_) => OthersSynced(w, e, id, h, plain, drift);
    case Write(_, _, _) => WriteSynced(w, e, id, h, plain, drift);
    case FailedWrite(_, _, _) => WriteSynced(w, e, id, h, plain, drift);
    case Truncate(via, path, len, outcome) => TruncateSynced(w, via, path, len, outcome, id, h, plain, drift);
    case FailedCut(_, _, _, _) => FailedCutSynced(w, e, id, h, plain, drift);
    case FlushBegin(_) => FlushSynced(w, e, id, h, plain, drift);
    case FlushEnd(_, _, _) => FlushSynced(w, e, id, h, plain, drift);
    case Release(_, _) => OthersSynced(w, e, id, h, plain, drift);
  }

  lemma {:induction false} TruncateSynced(w: World, via: Option<nat>, path: Option<ObjId>, len: nat,
                                          outcome: PutOutcome, id: ObjId, h: nat, plain: Bytes, drift: bool)
    requires Sole(w, id, h) && Synced(w, id, h, plain, drift)
    requires Legal(w, Truncate(via, path, len, outcome), id, h)
    ensures var e := Truncate(via, path, len, outcome);
            Sole(Step(w, e), id, h)
            && Synced(Step(w, e), id, h, PlainStep(w, e, id, h, plain), DriftStep(w, e, id, h, drift))
  {
    TruncateKeepsSole(w, via, path, len, outcome, id, h);
    var target := TruncateTarget(w.handles, via, path);
    if target == Some(id) && InitiatorWritable(w.handles, via, id) {
      TruncateViaSynced(w, path, len, outcome, id, h, plain, drift);
    } else if target == Some(id) {
      TruncateByPathSynced(w, via, path, len, outcome, id, h, plain, drift);
    } else {
      TruncateElsewhereSynced(w, via, path, len, outcome, id, h, plain, drift);
    }
  }

  lemma {:induction false} TruncateViaSynced(w: World, path: Option<ObjId>, len: nat, outcome: PutOutcome, id: ObjId,
                                             h: nat, plain: Bytes, drift: bool)
    requires Sole(w, id, h) && Synced(w, id, h, plain, drift) && NoFlightOf(w, id)
    requires Sole(TruncateStep(w, Some(h), path, len, outcome).0, id, h)
    ensures var e := Truncate(Some(h), path, len, outcome);
            Synced(TruncateStep(w, Some(h), path, len, outcome).0, id, h, PlainStep(w, e, id, h, plain),
                DriftStep(w, e, id, h, drift))
  {
    assert TruncateStep(w, Some(h), path, len, outcome).0.handles[h] == ResizeOne(w.handles[h], id, len, true);
    ResizeToOwnLength(plain);
  }

  /** A truncate of another object leaves this handle and this object alone. */
  lemma {:induction false} TruncateElsewhere(w: World, via: Option<nat>, path: Option<ObjId>, len: nat,
                                             outcome: PutOutcome, id: ObjId, h: nat)
    requires h in w.handles && w.handles[h].id == id && TruncateTarget(w.handles, via, path) != Some(id)
    ensures var next := TruncateStep(w, via, path, len, outcome).0;
            && h in next.handles && next.handles[h] == w.handles[h] && next.flights == w.flights
            && Seed(next.server, id) == Seed(w.server, id) && (id in next.server <==> id in w.server)
  {
  }

  lemma {:induction false} TruncateElsewhereSynced(w: World, via: Option<nat>, path: Option<ObjId>, len: nat,
                                                   outcome: PutOutcome, id: ObjId, h: nat, plain: Bytes, drift: bool)
    requires Sole(w, id, h) && Synced(w, id, h, plain, drift) && TruncateTarget(w.handles, via, path) != Some(id)
    requires Sole(TruncateStep(w, via, path, len, outcome).0, id, h)
    ensures Synced(TruncateStep(w, via, path, len, outcome).0, id, h, plain, drift)
  {
    TruncateElsewhere(w, via, path, len, outcome, id, h);
  }

  /** What a truncate that rewrites the server first does to the one writer and to the server copy. */
  lemma {:induction false} TruncateByPathMeaning(w: World, via: Option<nat>, path: Option<ObjId>, len: nat,
                                                 outcome: PutOutcome, id: ObjId, h: nat)
    requires h in w.handles && Writable(w.handles[h], id)
    requires forall fh :: fh in w.handles && Writable(w.handles[fh], id) ==> fh == h
    requires TruncateTarget(w.handles, via, path) == Some(id) && !InitiatorWritable(w.handles, via, id)
    ensures var (next, ok) := TruncateStep(w, via, path, len, outcome);
            && h in next.handles && next.flights == w.flights
            && next.server == TruncateRemote(w.server, id, len, outcome).0
            && next.handles[h] == (if ok then ResizeOne(w.handles[h], id, len, false) else w.handles[h])
            && (ok ==> if id in w.server then |w.server[id]| == len || outcome.PutOk? else Pending(w.handles[h]))
  {
    assert PutPending(w.handles, id) <==> Pending(w.handles[h]);
  }

  lemma {:induction false} TruncateByPathSynced(w: World, via: Option<nat>, path: Option<ObjId>, len: nat,
                                                outcome: PutOutcome, id: ObjId, h: nat, plain: Bytes, drift: bool)
    requires Sole(w, id, h) && Synced(w, id, h, plain, drift) && NoFlightOf(w, id)
    requires TruncateTarget(w.handles, via, path) == Some(id) && !InitiatorWritable(w.handles, via, id)
    requires Sole(TruncateStep(w, via, path, len, outcome).0, id, h)
    ensures var e := Truncate(via, path, len, outcome);
            Synced(TruncateStep(w, via, path, len, outcome).0, id, h, PlainStep(w, e, id, h, plain),
                DriftStep(w, e, id, h, drift))
  {
    TruncateByPathMeaning(w, via, path, len, outcome, id, h);
    ResizeToOwnLength(plain);
  }

  lemma {:induction false} FailedCutSynced(w: World, e: Event, id: ObjId, h: nat, plain: Bytes, drift: bool)
    requires Sole(w, id, h) && Synced(w, id, h, plain, drift) && e.FailedCut? && Legal(w, e, id, h)
    ensures Sole(Step(w, e), id, h)
            && Synced(Step(w, e), id, h, PlainStep(w, e, id, h, plain), DriftStep(w, e, id, h, drift))
  {
    FailedCutKeepsSole(w, e, id, h);
    assert Step(w, e).handles[h] == DamageOne(w.handles[h], h, e.id, e.len, e.initiator, e.damage);
    if e.id != id {
      assert Step(w, e).handles[h] == w.handles[h];
      assert Seed(Step(w, e).server, id) == Seed(w.server, id) && (id in Step(w, e).server <==> id in w.server);
    }
  }

  lemma {:induction false} RunSynced(w: World, events: seq<Event>, id: ObjId, h: nat, plain: Bytes, drift: bool)
    requires Sole(w, id, h) && Synced(w, id, h, plain, drift) && LegalRun(w, events, id, h)
    ensures var last := Run(w, events);
            Sole(last, id, h) && Synced(last, id, h, Plain(w, events, id, h, plain), Drift(w, events, id, h, drift))
    decreases |events|
  {
    if events != [] {
      StepSynced(w, events[0], id, h, plain, drift);
      RunSynced(Step(w, events[0]), events[1..], id, h, PlainStep(w, events[0], id, h, plain),
                DriftStep(w, events[0], id, h, drift));
    }
  }

  predicate OpensForWriting(e: Event) {
    (e.Open? && (e.truncate || e.writable)) || e.Create?
  }

  function OpenedBody(w: World, e: Event): Bytes
    requires OpensForWriting(e)
  {
    if e.Open? && !e.truncate && e.id in w.server then w.server[e.id] else []
  }

  /**
   * Write-back refines a plain file. Take any legal run that opens one writable handle of an object.
   * The handle's buffer is at every point the opened body with the successful writes and truncates
   * applied in order, and closing leaves exactly that body on the server whenever the handle was
   * dirtied and its last PUT succeeded: either close itself has nothing left to PUT, or its PUT works.
   */
  lemma {:induction false} WriteBackRefinesPlainFile(w: World, open: Event, events: seq<Event>, outcome: PutOutcome)
    requires WellFormed(w) && OpensForWriting(open)
    requires NoWriterOf(w, open.id) && NoFlightOf(w, open.id)
    requires LegalRun(Step(w, open), events, open.id, w.nextFh)
    ensures var h := w.nextFh;
            var w1 := Step(w, open);
            var last := Run(w1, events);
            var plain := Plain(w1, events, open.id, h, OpenedBody(w, open));
            && h in last.handles
            && last.handles[h].buf == Some(plain)
            && (var of := last.handles[h];
                var closed := Step(last, Release(h, outcome)).server;
                h !in last.flights && of.dirty
                && (Pending(of) ==> outcome.PutOk?)
                && (Drift(w1, events, open.id, h, false) ==> Pending(of))
                ==> open.id in closed && closed[open.id] == plain)
  {
    var h := w.nextFh;
    var w1 := Step(w, open);
    var body := OpenedBody(w, open);
    OpenedIsSynced(w, open);
    RunSynced(w1, events, open.id, h, body, false);
    CloseOfSynced(Run(w1, events), open.id, h, Plain(w1, events, open.id, h, body),
        Drift(w1, events, open.id, h, false), outcome);
  }

  lemma {:induction false} OpenedIsSynced(w: World, open: Event)
    requires WellFormed(w) && OpensForWriting(open) && NoWriterOf(w, open.id) && NoFlightOf(w, open.id)
    ensures Sole(Step(w, open), open.id, w.nextFh)
    ensures Synced(Step(w, open), open.id, w.nextFh, OpenedBody(w, open), false)
  {
  }

  lemma {:induction false} CloseOfSynced(w: World, id: ObjId, h: nat, plain: Bytes, drift: bool, outcome: PutOutcome)
    requires Sole(w, id, h) && Synced(w, id, h, plain, drift)
    ensures var of := w.handles[h];
            var closed := Step(w, Release(h, outcome)).server;
            h !in w.flights && of.dirty && (Pending(of) ==> outcome.PutOk?) && (drift ==> Pending(of)) ==>
              id in closed && closed[id] == plain
  {
  }

  /** A failed PUT re-arms the handle, and a retry that succeeds uploads the whole buffer. */
  lemma {:induction false} FailedPutRearms(w: World, id: ObjId, h: nat, plain: Bytes, landed: bool, mixture: Bytes)
    requires Sole(w, id, h) && Synced(w, id, h, plain, false)
    requires h in w.flights
    ensures var failed := Step(w, FlushEnd(h, PutFailed(landed), mixture));
            var retried := Step(Step(failed, FlushBegin(h)), FlushEnd(h, PutOk, mixture));
            && Pending(failed.handles[h])
            && !Pending(retried.handles[h])
            && retried.server == w.server[id := plain]
  {
    var failed := Step(w, FlushEnd(h, PutFailed(landed), mixture));
    StepSynced(w, FlushEnd(h, PutFailed(landed), mixture), id, h, plain, false);
    var retried := Step(Step(failed, FlushBegin(h)), FlushEnd(h, PutOk, mixture));
    assert retried.server == failed.server[id := plain];
  }

  // ----- Truncating through a handle and truncating by path agree -----

  /** Server and every writable handle of `id` hold the same body. */
  ghost predicate Agree(w: World, id: ObjId, body: Bytes) {
    && id in w.server && w.server[id] == body
    && (forall fh :: fh in w.handles && Writable(w.handles[fh], id) ==> w.handles[fh].buf == Some(body))
  }

  /** Truncating through the handle, before and after its flush. */
  lemma {:induction false} CutThenFlushed(w: World, id: ObjId, h: nat, body: Bytes, len: nat, any: PutOutcome,
                                          mixture: Bytes)
    requires Agree(w, id, body)
    requires h in w.handles && Writable(w.handles[h], id) && h !in w.flights
    ensures var cut := Step(w, Truncate(Some(h), Some(id), len, any));
            var flushed := Step(Step(cut, FlushBegin(h)), FlushEnd(h, PutOk, mixture));
            && cut.handles == ResizeBuffers(w.handles, id, len, Some(h))
            && flushed.server == w.server[id := Resize(body, len)]
            && flushed.handles ==
                cut.handles[h := if Pending(cut.handles[h]) then cut.handles[h].(flushed := true) else cut.handles[h]]
  {
    var cut := Step(w, Truncate(Some(h), Some(id), len, any));
    assert cut.handles[h].buf == Some(Resize(body, len));
    if |body| == len {
      ResizeToOwnLength(body);
      assert w.server == w.server[id := body];
    }
  }

  lemma {:induction false} CutByPath(w: World, id: ObjId, body: Bytes, len: nat)
    requires Agree(w, id, body)
    ensures var byPath := Step(w, Truncate(None, Some(id), len, PutOk));
            && byPath.server == w.server[id := Resize(body, len)]
            && byPath.handles == ResizeBuffers(w.handles, id, len, None)
  {
    if |body| == len {
      ResizeToOwnLength(body);
      assert w.server == w.server[id := body];
    }
  }

  /** What a resize does to the handles one by one, started by `h` or by nobody. */
  lemma {:induction false} CutHandles(handles: Handles, id: ObjId, h: nat, len: nat)
    ensures var own, none := ResizeBuffers(handles, id, len, Some(h)), ResizeBuffers(handles, id, len, None);
            && own.Keys == none.Keys == handles.Keys
            && (forall fh :: fh in handles ==>
                own[fh].buf == none[fh].buf && own[fh].id == none[fh].id == handles[fh].id)
            && (forall fh :: fh in handles && Writable(handles[fh], id) ==>
                  own[fh].buf == Some(Resize(handles[fh].buf.value, len)))
            && (forall fh :: fh in handles && handles[fh].id != id ==> own[fh] == none[fh] == handles[fh])
            && (forall fh :: fh in handles && Pending(none[fh]) ==> Pending(handles[fh]))
            && (forall fh :: fh in handles && Pending(own[fh]) && !Pending(handles[fh]) ==> fh == h)
  {
  }

  lemma {:induction false} TruncateViaHandleEqualsByPath(w: World, id: ObjId, h: nat, body: Bytes, len: nat,
        any: PutOutcome, mixture: Bytes)
    requires Agree(w, id, body)
    requires h in w.handles && Writable(w.handles[h], id) && h !in w.flights
    ensures var cut := Step(w, Truncate(Some(h), Some(id), len, any));
            var viaHandle := Step(Step(cut, FlushBegin(h)), FlushEnd(h, PutOk, mixture));
            var byPath := Step(w, Truncate(None, Some(id), len, PutOk));
            && viaHandle.server == byPath.server == w.server[id := Resize(body, len)]
            && Agree(viaHandle, id, Resize(body, len)) && Agree(byPath, id, Resize(body, len))
            && viaHandle.handles.Keys == byPath.handles.Keys == w.handles.Keys
            && (forall fh :: fh in w.handles ==> viaHandle.handles[fh].buf == byPath.handles[fh].buf)
            && (forall fh :: fh in w.handles && w.handles[fh].id != id ==>
                  viaHandle.handles[fh] == byPath.handles[fh] == w.handles[fh])
            && (forall fh :: fh in w.handles && Pending(byPath.handles[fh]) ==> Pending(w.handles[fh]))
            && (forall fh :: fh in w.handles && Pending(cut.handles[fh]) && !Pending(w.handles[fh]) ==> fh == h)
            && !Pending(viaHandle.handles[h])
  {
    CutThenFlushed(w, id, h, body, len, any, mixture);
    CutByPath(w, id, body, len);
    CutHandles(w.handles, id, h, len);
  }

  // ----- What single requests do, handle by handle -----

  /**
   * An open under the number `fh`. A truncating one leaves every other writable handle of the object with
   * an empty buffer and its flags as they were, and is itself due for an empty PUT. Any other leaves the
   * handles alone; a writable one starts from the object's body, or from nothing if there is none.
   */
  ghost predicate OpenEffect(server: Store, before: Handles, after: Handles, id: ObjId, truncate: bool, writable: bool,
                             fh: nat) {
    && after.Keys == before.Keys + {fh}
    && after[fh] == OpenFile(id,
                             if truncate then Some([])
                             else if !writable then None
                             else if id in server then Some(server[id])
                             else Some([]),
                             truncate, false)
    && forall g :: g in before && g != fh ==>
         after[g] == if truncate && before[g].id == id && before[g].buf.Some?
                     then OpenFile(id, Some([]), before[g].dirty, before[g].flushed)
                     else before[g]
  }

  lemma {:induction false} OpenMeaning(w: World, id: ObjId, truncate: bool, writable: bool)
    requires WellFormed(w)
    ensures var next := Step(w, Open(id, truncate, writable));
            && OpenEffect(w.server, w.handles, next.handles, id, truncate, writable, w.nextFh)
            && next.server == w.server && next.flights == w.flights && next.nextFh == w.nextFh + 1
  {
    var next := Step(w, Open(id, truncate, writable));
    forall g | g in w.handles && truncate && w.handles[g].id == id && w.handles[g].buf.Some?
      ensures next.handles[g] == OpenFile(id, Some([]), w.handles[g].dirty, w.handles[g].flushed)
    {
      assert Resize(w.handles[g].buf.value, 0) == [];
    }
  }

  /**
   * A truncate through an open handle is of the handle's object, whatever path the inode has by now. If the
   * handle is writable, the server is left alone; every writable handle of the object has its body cut or
   * zero-extended; and only the initiator is marked, and only if its length changed or it was dirty.
   */
  lemma {:induction false} TruncateThroughWritableHandle(w: World, h: nat, path: Option<ObjId>, len: nat,
        any: PutOutcome)
    requires h in w.handles && w.handles[h].buf.Some?
    ensures var next := Step(w, Truncate(Some(h), path, len, any));
            var id := w.handles[h].id;
            && next.server == w.server && next.handles.Keys == w.handles.Keys
            && (forall g :: g in w.handles && !(w.handles[g].id == id && w.handles[g].buf.Some?) ==>
                  next.handles[g] == w.handles[g])
            && (forall g :: g in w.handles && w.handles[g].id == id && w.handles[g].buf.Some? ==>
                  && next.handles[g].id == id && next.handles[g].buf == Some(Resize(w.handles[g].buf.value, len))
                  && (g != h ==>
                        && next.handles[g].dirty == w.handles[g].dirty
                        && next.handles[g].flushed == w.handles[g].flushed))
            && (if |w.handles[h].buf.value| != len || w.handles[h].dirty
                then next.handles[h].dirty && !next.handles[h].flushed
                else !next.handles[h].dirty && next.handles[h].flushed == w.handles[h].flushed)
  {
  }

  /** A truncate of a size the buffer already has leaves a clean handle clean, and everything else as it was. */
  lemma {:induction false} SizePreservingTruncateIsQuiet(w: World, h: nat, path: Option<ObjId>, any: PutOutcome)
    requires h in w.handles && w.handles[h].buf.Some? && !w.handles[h].dirty
    requires forall g :: g in w.handles && Writable(w.handles[g], w.handles[h].id) ==> g == h
    ensures Step(w, Truncate(Some(h), path, |w.handles[h].buf.value|, any)) == w
  {
    ResizeToOwnLength(w.handles[h].buf.value);
    TruncateThroughWritableHandle(w, h, path, |w.handles[h].buf.value|, any);
    assert Step(w, Truncate(Some(h), path, |w.handles[h].buf.value|, any)).handles == w.handles;
  }

  /**
   * A truncate that does not come through a writable handle succeeds if and only if the object is on the
   * server and has the size already or is rewritten, or it is not there and some handle will still PUT it.
   * On success every writable handle is resized and none is marked; on failure no handle changes.
   */
  lemma {:induction false} TruncateOtherwise(w: World, via: Option<nat>, path: Option<ObjId>, id: ObjId, len: nat,
                                             outcome: PutOutcome)
    requires if via.Some? && via.value in w.handles then w.handles[via.value].id == id && w.handles[via.value].buf.None?
             else path == Some(id)
    ensures var (next, ok) := TruncateStep(w, via, path, len, outcome);
            && (ok <==> if id in w.server then |w.server[id]| == len || outcome.PutOk?
                        else exists g :: g in w.handles && w.handles[g].id == id && w.handles[g].buf.Some?
                                         && w.handles[g].dirty && !w.handles[g].flushed)
            && (ok && id in w.server ==> next.server == w.server[id := Resize(w.server[id], len)])
            && (id !in w.server ==> next.server == w.server)
            && next.handles.Keys == w.handles.Keys
            && (forall g :: g in w.handles ==>
                  next.handles[g] == if ok && w.handles[g].id == id && w.handles[g].buf.Some?
                                     then w.handles[g].(buf := Some(Resize(w.handles[g].buf.value, len)))
                                     else w.handles[g])
  {
    if id in w.server && |w.server[id]| == len {
      ResizeToOwnLength(w.server[id]);
      assert w.server == w.server[id := w.server[id]];
    }
    PutPendingByName(w.handles, id);
  }

  lemma {:induction false} PutPendingByName(handles: Handles, id: ObjId)
    ensures PutPending(handles, id) <==>
            exists g :: g in handles && handles[g].id == id && handles[g].buf.Some?
                        && handles[g].dirty && !handles[g].flushed
  {
    if PutPending(handles, id) {
      var g :| g in handles && handles[g].id == id && Pending(handles[g]);
    }
  }
}
