/**
 * Directory rename against write-back: when renaming and then closing every handle comes to the same as
 * closing every handle and then renaming, with a complete listing each time.
 */
module DirClose {
  import opened Base
  import opened WriteBack
  import opened DirRename

  // ----- Closing every handle -----

  predicate PendsOn(handles: Handles, fh: nat, id: ObjId) {
    fh in handles && Pending(handles[fh]) && handles[fh].id == id
  }

  function PutOne(server: Store, handles: Handles, fh: nat): Store {
    if fh in handles && Pending(handles[fh]) then server[handles[fh].id := handles[fh].buf.value] else server
  }

  /** The server after the handles have been closed in this order and every PUT has worked. */
  function Closed(server: Store, handles: Handles, order: seq<nat>): Store
    decreases |order|
  {
    if order == [] then server else Closed(PutOne(server, handles, order[0]), handles, order[1..])
  }

  function ReleaseAll(order: seq<nat>): seq<Event>
    decreases |order|
  {
    if order == [] then [] else [Release(order[0], PutOk)] + ReleaseAll(order[1..])
  }

  /** Every handle once. */
  ghost predicate Enumerates(order: seq<nat>, keys: set<nat>) {
    && (forall i, j :: 0 <= i < j < |order| ==> order[i] != order[j])
    && (forall fh :: fh in order <==> fh in keys)
  }

  lemma {:induction false} ClosedIgnores(server: Store, handles: Handles, order: seq<nat>, fh: nat)
    requires fh !in order
    ensures Closed(server, handles - {fh}, order) == Closed(server, handles, order)
    decreases |order|
  {
    if order != [] {
      ClosedIgnores(PutOne(server, handles, order[0]), handles, order[1..], fh);
      assert PutOne(server, handles - {fh}, order[0]) == PutOne(server, handles, order[0]);
    }
  }

  /** `Closed` is what the driver's close requests do. */
  lemma {:induction false} ClosedIsRelease(w: World, order: seq<nat>)
    requires forall i, j :: 0 <= i < j < |order| ==> order[i] != order[j]
    ensures Run(w, ReleaseAll(order)).server == Closed(w.server, w.handles, order)
    decreases |order|
  {
    if order != [] {
      var fh, rest := order[0], order[1..];
      var next := Step(w, Release(fh, PutOk));
      assert ReleaseAll(order)[0] == Release(fh, PutOk) && ReleaseAll(order)[1..] == ReleaseAll(rest);
      ClosedIsRelease(next, rest);
      assert next.handles == w.handles - {fh};
      ClosedIgnores(next.server, w.handles, rest, fh);
    }
  }

  function Lookup(server: Store, id: ObjId): Option<Bytes> {
    if id in server then Some(server[id]) else None
  }

  lemma {:induction false} ClosedLeaves(server: Store, handles: Handles, order: seq<nat>, id: ObjId)
    requires forall fh :: fh in order ==> !PendsOn(handles, fh, id)
    ensures Lookup(Closed(server, handles, order), id) == Lookup(server, id)
    decreases |order|
  {
    if order != [] {
      assert !PendsOn(handles, order[0], id);
      ClosedLeaves(PutOne(server, handles, order[0]), handles, order[1..], id);
    }
  }

  /** If all handles that still have to PUT an object hold the same body, that is what is left. */
  lemma {:induction false} ClosedWrites(server: Store, handles: Handles, order: seq<nat>, id: ObjId, fh: nat,
                                        body: Bytes)
    requires fh in order && PendsOn(handles, fh, id)
    requires forall g :: g in order && PendsOn(handles, g, id) ==> handles[g].buf == Some(body)
    ensures Lookup(Closed(server, handles, order), id) == Some(body)
    decreases |order|
  {
    var next, rest := PutOne(server, handles, order[0]), order[1..];
    if g :| g in rest && PendsOn(handles, g, id) {
      ClosedWrites(next, handles, rest, id, g, body);
    } else {
      assert fh == order[0];
      ClosedLeaves(next, handles, rest, id);
    }
  }

  /** The handle closed last has the last word. */
  lemma {:induction false} LastWins(server: Store, handles: Handles, order: seq<nat>, id: ObjId)
    requires order != [] && PendsOn(handles, order[|order| - 1], id)
    ensures Lookup(Closed(server, handles, order), id) == handles[order[|order| - 1]].buf
    decreases |order|
  {
    if |order| > 1 {
      LastWins(PutOne(server, handles, order[0]), handles, order[1..], id);
    }
  }

  lemma {:induction false} EnumerationEndingWith(keys: set<nat>, fh: nat) returns (order: seq<nat>)
    requires fh in keys
    ensures Enumerates(order, keys) && order[|order| - 1] == fh
  {
    var others := Enumeration(keys - {fh});
    order := others + [fh];
  }

  lemma {:induction false} Enumeration(keys: set<nat>) returns (order: seq<nat>)
    ensures Enumerates(order, keys)
  {
    if keys == {} {
      order := [];
    } else {
      var fh :| fh in keys;
      var others := Enumeration(keys - {fh});
      order := others + [fh];
    }
  }

  // ----- What is open and not yet uploaded -----

  /** Handles that still have to PUT one object hold the same body, so the order of closing them does not show. */
  ghost predicate OrderFree(handles: Handles) {
    forall f, g, id :: PendsOn(handles, f, id) && PendsOn(handles, g, id) ==> handles[f].buf == handles[g].buf
  }

  /** The body an object has once every handle is closed. */
  ghost function Latest(server: Store, handles: Handles, id: ObjId): Option<Bytes> {
    if exists fh :: PendsOn(handles, fh, id) then
      var fh :| PendsOn(handles, fh, id);
      handles[fh].buf
    else Lookup(server, id)
  }

  lemma {:induction false} ClosedIsLatest(server: Store, handles: Handles, order: seq<nat>, id: ObjId)
    requires Enumerates(order, handles.Keys) && OrderFree(handles)
    ensures Lookup(Closed(server, handles, order), id) == Latest(server, handles, id)
  {
    if exists fh :: PendsOn(handles, fh, id) {
      var fh :| PendsOn(handles, fh, id) && Latest(server, handles, id) == handles[fh].buf;
      ClosedWrites(server, handles, order, id, fh, handles[fh].buf.value);
    } else {
      ClosedLeaves(server, handles, order, id);
    }
  }

  // ----- The two orders -----

  /** A complete listing of the source tree. */
  function Listing(server: Store, mv: Move): set<string> {
    set id | id in server && mv.Id(id).Some? :: id.key
  }

  /** A listing that has every key of the source tree is what the rename acts on. */
  lemma {:induction false} CompleteListingIsActedOn(server: Store, mv: Move, listed: seq<string>)
    requires forall k :: mv.Key(k).Some? ==> (k in listed <==> ObjId(mv.bucket, k) in server)
    ensures Wanted(listed, mv) == Listing(server, mv)
  {
    forall k ensures k in Wanted(listed, mv) <==> k in Listing(server, mv) {
      WantedMeaning(listed, mv, k);
      if mv.Key(k).Some? {
        ListedIff(server, mv, ObjId(mv.bucket, k));
      }
    }
  }

  function RenameThenClose(w: World, mv: Move, order: seq<nat>): Store {
    var listed := Listing(w.server, mv);
    Closed(MovedStore(w.server, mv, listed), MovedHandles(w.handles, mv, listed), order)
  }

  function CloseThenRename(w: World, mv: Move, order: seq<nat>): Store {
    var closed := Closed(w.server, w.handles, order);
    MovedStore(closed, mv, Listing(closed, mv))
  }

  /**
   * Everything below the source that still has to be uploaded is on the server already, and nothing
   * below the destination that still has to be uploaded disagrees with what will be moved onto it.
   */
  ghost predicate Settled(w: World, mv: Move) {
    && (forall fh, id :: PendsOn(w.handles, fh, id) && mv.Id(id).Some? ==> id in w.server)
    && (forall fh, id :: PendsOn(w.handles, fh, id) && mv.Reversed().Id(id).Some? ==>
          var back := mv.Reversed().Id(id).value;
          back in w.server ==> Latest(w.server, w.handles, back) == w.handles[fh].buf)
  }

  lemma {:induction false} IdMoves(mv: Move, id: ObjId)
    requires mv.Valid()
    ensures mv.Id(id).Some? ==>
              mv.Id(mv.Id(id).value).None? && mv.Reversed().Id(mv.Id(id).value) == Some(id)
    ensures mv.Reversed().Id(id).Some? ==>
              mv.Id(id).None? && mv.Id(mv.Reversed().Id(id).value) == Some(id)
  {
    KeyMoves(mv, id.key);
    KeyMovesBack(mv, id.key);
  }

  /** What a rename with a complete listing leaves under each key. */
  lemma {:induction false} MovedLookup(server: Store, mv: Move, id: ObjId)
    requires mv.Valid()
    ensures var back := mv.Reversed().Id(id);
            Lookup(MovedStore(server, mv, Listing(server, mv)), id) ==
              if mv.Id(id).Some? then None
              else if back.Some? && back.value in server then Lookup(server, back.value)
              else Lookup(server, id)
  {
    IdMoves(mv, id);
    var listed := Listing(server, mv);
    assert id in server && mv.Id(id).Some? ==> id.key in listed;
    forall k | k in listed && mv.Key(k).Some? && ObjId(mv.bucket, mv.Key(k).value) == id
      ensures mv.Reversed().Id(id) == Some(ObjId(mv.bucket, k))
    {
      IdMoves(mv, ObjId(mv.bucket, k));
    }
    if mv.Reversed().Id(id).Some? && mv.Reversed().Id(id).value in server {
      assert mv.Reversed().Id(id).value.key in listed;
    }
  }

  /** Which object a handle puts after the rename: a listed one moved with it, any other did not. */
  lemma {:induction false} MovedPendsOn(w: World, mv: Move, fh: nat, id: ObjId)
    requires mv.Valid()
    ensures var after := MovedHandles(w.handles, mv, Listing(w.server, mv));
            var back := mv.Reversed().Id(id);
            && (PendsOn(after, fh, id) <==>
                  || (PendsOn(w.handles, fh, id) && !(mv.Id(id).Some? && id in w.server))
                  || (back.Some? && back.value in w.server && PendsOn(w.handles, fh, back.value)))
            && (fh in w.handles ==> fh in after && after[fh].buf == w.handles[fh].buf)
  {
    IdMoves(mv, id);
    var listed := Listing(w.server, mv);
    if fh in w.handles {
      var was := w.handles[fh].id;
      IdMoves(mv, was);
      ListedIff(w.server, mv, was);
    }
  }

  lemma {:induction false} ListedIff(server: Store, mv: Move, id: ObjId)
    ensures mv.Id(id).Some? ==> (id.key in Listing(server, mv) <==> id in server)
  {
    if mv.Id(id).Some? && id.key in Listing(server, mv) {
      var x :| x in server && mv.Id(x).Some? && x.key == id.key;
      assert x == id;
    }
  }

  /** The object below the source is gone either way. */
  lemma {:induction false} AgreeBelowSource(w: World, mv: Move, order: seq<nat>, id: ObjId)
    requires mv.Valid() && Settled(w, mv) && mv.Id(id).Some?
    ensures Lookup(RenameThenClose(w, mv, order), id) == Lookup(CloseThenRename(w, mv, order), id)
  {
    IdMoves(mv, id);
    MovedLookup(w.server, mv, id);
    MovedLookup(Closed(w.server, w.handles, order), mv, id);
    var after := MovedHandles(w.handles, mv, Listing(w.server, mv));
    forall fh ensures !PendsOn(after, fh, id) {
      MovedPendsOn(w, mv, fh, id);
    }
    ClosedLeaves(MovedStore(w.server, mv, Listing(w.server, mv)), after, order, id);
  }

  /** An object onto which one is moved ends with the moved body either way. */
  lemma {:induction false} AgreeOnTarget(w: World, mv: Move, order: seq<nat>, id: ObjId)
    requires mv.Valid() && OrderFree(w.handles) && Settled(w, mv) && Enumerates(order, w.handles.Keys)
    requires mv.Reversed().Id(id).Some? && mv.Reversed().Id(id).value in w.server
    ensures Lookup(RenameThenClose(w, mv, order), id) == Lookup(CloseThenRename(w, mv, order), id)
  {
    var back := mv.Reversed().Id(id).value;
    var listed := Listing(w.server, mv);
    var after := MovedHandles(w.handles, mv, listed);
    var body := Latest(w.server, w.handles, back);
    IdMoves(mv, id);
    MovedLookup(w.server, mv, id);
    MovedLookup(Closed(w.server, w.handles, order), mv, id);
    ClosedIsLatest(w.server, w.handles, order, back);
    forall fh | PendsOn(after, fh, id) ensures fh in order && after[fh].buf == body {
      MovedPendsOn(w, mv, fh, id);
    }
    if fh :| PendsOn(after, fh, id) {
      ClosedWrites(MovedStore(w.server, mv, listed), after, order, id, fh, body.value);
    } else {
      forall fh ensures !PendsOn(w.handles, fh, back) {
        MovedPendsOn(w, mv, fh, id);
      }
      ClosedLeaves(MovedStore(w.server, mv, listed), after, order, id);
    }
  }

  /** Any other object is where it was either way. */
  lemma {:induction false} AgreeElsewhere(w: World, mv: Move, order: seq<nat>, id: ObjId)
    requires mv.Valid() && OrderFree(w.handles) && Settled(w, mv) && Enumerates(order, w.handles.Keys)
    requires mv.Id(id).None? && (mv.Reversed().Id(id).Some? ==> mv.Reversed().Id(id).value !in w.server)
    ensures Lookup(RenameThenClose(w, mv, order), id) == Lookup(CloseThenRename(w, mv, order), id)
  {
    var listed := Listing(w.server, mv);
    var after := MovedHandles(w.handles, mv, listed);
    var closed := Closed(w.server, w.handles, order);
    MovedLookup(w.server, mv, id);
    MovedLookup(closed, mv, id);
    ClosedIsLatest(w.server, w.handles, order, id);
    if mv.Reversed().Id(id).Some? {
      IdMoves(mv, id);
      ClosedLeaves(w.server, w.handles, order, mv.Reversed().Id(id).value);
    }
    assert Lookup(CloseThenRename(w, mv, order), id) == Latest(w.server, w.handles, id);
    forall fh ensures PendsOn(after, fh, id) <==> PendsOn(w.handles, fh, id) {
      MovedPendsOn(w, mv, fh, id);
    }
    if exists fh :: PendsOn(w.handles, fh, id) {
      var fh :| PendsOn(w.handles, fh, id) && Latest(w.server, w.handles, id) == w.handles[fh].buf;
      forall g | PendsOn(after, g, id) ensures after[g].buf == w.handles[fh].buf {
        MovedPendsOn(w, mv, g, id);
      }
      ClosedWrites(MovedStore(w.server, mv, listed), after, order, id, fh, w.handles[fh].buf.value);
    } else {
      ClosedLeaves(MovedStore(w.server, mv, listed), after, order, id);
    }
  }

  lemma {:induction false} SettledCommutes(w: World, mv: Move, order: seq<nat>)
    requires mv.Valid() && OrderFree(w.handles) && Settled(w, mv) && Enumerates(order, w.handles.Keys)
    ensures RenameThenClose(w, mv, order) == CloseThenRename(w, mv, order)
  {
    var a, b := RenameThenClose(w, mv, order), CloseThenRename(w, mv, order);
    forall id ensures Lookup(a, id) == Lookup(b, id) {
      var back := mv.Reversed().Id(id);
      if mv.Id(id).Some? {
        AgreeBelowSource(w, mv, order, id);
      } else if back.Some? && back.value in w.server {
        AgreeOnTarget(w, mv, order, id);
      } else {
        AgreeElsewhere(w, mv, order, id);
      }
    }
    SameLookups(a, b);
  }

  lemma {:induction false} SameLookups(a: Store, b: Store)
    requires forall id :: Lookup(a, id) == Lookup(b, id)
    ensures a == b
  {
    forall id ensures (id in a <==> id in b) && (id in a ==> a[id] == b[id]) {
      assert Lookup(a, id) == Lookup(b, id);
    }
  }

  /** A handle below the source whose object was never uploaded puts it back under the old key. */
  lemma {:induction false} UnlistedStaysBehind(w: World, mv: Move, fh: nat, id: ObjId) returns (order: seq<nat>)
    requires mv.Valid() && PendsOn(w.handles, fh, id) && mv.Id(id).Some? && id !in w.server
    ensures Enumerates(order, w.handles.Keys)
    ensures Lookup(RenameThenClose(w, mv, order), id).Some? && Lookup(CloseThenRename(w, mv, order), id).None?
  {
    order := EnumerationEndingWith(w.handles.Keys, fh);
    MovedPendsOn(w, mv, fh, id);
    var listed := Listing(w.server, mv);
    LastWins(MovedStore(w.server, mv, listed), MovedHandles(w.handles, mv, listed), order, id);
    MovedLookup(Closed(w.server, w.handles, order), mv, id);
  }

  /** A handle below the destination that disagrees has the last word when it is closed last. */
  lemma {:induction false} TargetOverwritten(w: World, mv: Move, fh: nat, id: ObjId) returns (order: seq<nat>)
    requires mv.Valid() && OrderFree(w.handles) && PendsOn(w.handles, fh, id) && mv.Reversed().Id(id).Some?
    requires var back := mv.Reversed().Id(id).value;
             back in w.server && Latest(w.server, w.handles, back) != w.handles[fh].buf
    ensures Enumerates(order, w.handles.Keys)
    ensures Lookup(RenameThenClose(w, mv, order), id) != Lookup(CloseThenRename(w, mv, order), id)
  {
    var back := mv.Reversed().Id(id).value;
    order := EnumerationEndingWith(w.handles.Keys, fh);
    IdMoves(mv, id);
    MovedPendsOn(w, mv, fh, id);
    var listed := Listing(w.server, mv);
    LastWins(MovedStore(w.server, mv, listed), MovedHandles(w.handles, mv, listed), order, id);
    MovedLookup(Closed(w.server, w.handles, order), mv, id);
    ClosedIsLatest(w.server, w.handles, order, back);
  }

  /**
   * Renaming a directory and then closing every handle, in whatever order, comes to the same as closing
   * every handle and then renaming if and only if no handle below the source has an object to upload that
   * the server does not have yet, and no handle below the destination one to upload that differs from the
   * body being moved onto it.
   */
  lemma {:induction false} DirRenameCommutesIff(w: World, mv: Move)
    requires mv.Valid() && OrderFree(w.handles)
    ensures Settled(w, mv) <==>
            forall order :: Enumerates(order, w.handles.Keys) ==>
              RenameThenClose(w, mv, order) == CloseThenRename(w, mv, order)
  {
    if Settled(w, mv) {
      forall order | Enumerates(order, w.handles.Keys)
        ensures RenameThenClose(w, mv, order) == CloseThenRename(w, mv, order)
      {
        SettledCommutes(w, mv, order);
      }
    } else if fh, id :| PendsOn(w.handles, fh, id) && mv.Id(id).Some? && id !in w.server {
      var order := UnlistedStaysBehind(w, mv, fh, id);
      assert RenameThenClose(w, mv, order) != CloseThenRename(w, mv, order);
    } else {
      var fh, id :| PendsOn(w.handles, fh, id) && mv.Reversed().Id(id).Some?
                    && mv.Reversed().Id(id).value in w.server
                    && Latest(w.server, w.handles, mv.Reversed().Id(id).value) != w.handles[fh].buf;
      var order := TargetOverwritten(w, mv, fh, id);
      assert RenameThenClose(w, mv, order) != CloseThenRename(w, mv, order);
    }
  }

  /**
   * A reachable failing run, for every rename and every name below its source: create a file there and
   * rename the directory before it is closed. Closing first moves the file; renaming first leaves the
   * handle on the old key, and closing it brings the old directory back.
   */
  lemma {:induction false} CreatedFileStaysBehind(mv: Move, key: string) returns (w: World)
    requires mv.Valid() && mv.Key(key).Some?
    ensures w == Run(World(map[], map[], map[], 1), [Create(ObjId(mv.bucket, key))])
    ensures w.handles.Keys == {1}
    ensures RenameThenClose(w, mv, [1]) == map[ObjId(mv.bucket, key) := []]
    ensures CloseThenRename(w, mv, [1]) == map[ObjId(mv.bucket, mv.Key(key).value) := []]
  {
    var id, e := ObjId(mv.bucket, key), Create(ObjId(mv.bucket, key));
    var start := World(map[], map[], map[], 1);
    w := Run(start, [e]);
    assert Run(start, [e]) == Run(Step(start, e), []);
    var of := OpenFile(id, Some([]), true, false);
    assert w.handles == map[1 := of];
    assert Closed(map[], w.handles, [1]) == Closed(PutOne(map[], w.handles, 1), w.handles, []);
    assert Closed(w.server, w.handles, [1]) == map[id := []];
    var moved := MovedStore(map[id := []], mv, Listing(map[id := []], mv));
    forall x ensures Lookup(moved, x) == Lookup(map[ObjId(mv.bucket, mv.Key(key).value) := []], x) {
      MovedLookup(map[id := []], mv, x);
      IdMoves(mv, x);
      IdMoves(mv, id);
    }
    SameLookups(moved, map[ObjId(mv.bucket, mv.Key(key).value) := []]);
    assert Listing(w.server, mv) == {};
    assert MovedHandles(w.handles, mv, {}) == w.handles && MovedStore(w.server, mv, {}) == map[];
  }
}
