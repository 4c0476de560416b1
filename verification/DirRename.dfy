/**
 * Renaming a virtual directory: move every listed object, then rewrite local directories and inodes
 * under the old prefix. The handle map, the local-directory set and the inode table are hash
 * containers, so every scan below visits its elements in an arbitrary order.
 */
module DirRename {
  import opened Base
  import opened WriteBack
  import opened Driver
  import I = Inodes

  // ----- Prefix arithmetic -----

  function Under(dir: string): string {
    dir + "/"
  }

  predicate Below(dir: string, key: string) {
    Under(dir) <= key
  }

  function Rebase(s: string, d: string, key: string): string
    requires Below(s, key)
  {
    Under(d) + key[|Under(s)|..]
  }

  /** Neither directory is the other or an ancestor of the other. */
  predicate Apart(s: string, d: string) {
    !(Under(s) <= Under(d)) && !(Under(d) <= Under(s))
  }

  lemma {:induction false} CommonKeyComparable(s: string, d: string, key: string)
    ensures Below(s, key) && Below(d, key) ==> Under(s) <= Under(d) || Under(d) <= Under(s)
    ensures Below(s, d) ==> Under(s) <= Under(d)
  {
    var p, q := Under(s), Under(d);
    if p <= key && q <= key {
      assert p == key[..|p|] && q == key[..|q|];
      assert if |p| <= |q| then p == q[..|p|] else q == p[..|q|];
    }
  }

  lemma {:induction false} TreesAreDisjoint(s: string, d: string, key: string)
    requires Apart(s, d) && Below(s, key)
    ensures !Below(d, key) && key != d
  {
    CommonKeyComparable(s, d, key);
  }

  /** `Apart` is exactly what keeps the two trees from sharing a key. */
  lemma {:induction false} ApartIffNoSharedKey(s: string, d: string)
    ensures Apart(s, d) <==> forall key :: !(Below(s, key) && Below(d, key))
  {
    if Apart(s, d) {
      forall key ensures !(Below(s, key) && Below(d, key)) {
        CommonKeyComparable(s, d, key);
      }
    } else {
      assert (Below(s, Under(d)) && Below(d, Under(d))) || (Below(s, Under(s)) && Below(d, Under(s)));
    }
  }

  lemma {:induction false} RebaseIsInverse(s: string, d: string, key: string)
    requires Below(s, key)
    ensures Below(d, Rebase(s, d, key)) && Rebase(d, s, Rebase(s, d, key)) == key
  {
    assert Under(s) + key[|Under(s)|..] == key;
  }

  /** The rename being carried out. */
  datatype Move = Move(bucket: string, s: string, d: string) {
    predicate Valid() {
      Apart(s, d)
    }

    function Reversed(): Move {
      Move(bucket, d, s)
    }

    function Key(key: string): Option<string> {
      if Below(s, key) then Some(Rebase(s, d, key)) else None
    }

    function Dir(dir: string): Option<string> {
      if dir == s then Some(d) else Key(dir)
    }

    /** Where an inode path goes, if it lies in the moved tree. */
    function Path(p: I.InodePath): Option<I.InodePath> {
      match p
      case VirtualDir(b, prefix) =>
        if b == bucket && Dir(prefix).Some? then Some(I.VirtualDir(b, Dir(prefix).value)) else None
      case Object(b, key) =>
        if b == bucket && Key(key).Some? then Some(I.Object(b, Key(key).value)) else None
      case _ => None
    }

    function Id(id: ObjId): Option<ObjId> {
      if id.bucket == bucket && Key(id.key).Some? then Some(ObjId(bucket, Key(id.key).value)) else None
    }

    function LocalDir(x: (string, string)): (string, string) {
      if x.0 == bucket && Dir(x.1).Some? then (bucket, Dir(x.1).value) else x
    }
  }

  lemma {:induction false} KeyMoves(mv: Move, key: string)
    requires mv.Valid()
    ensures mv.Key(key).Some? ==>
              mv.Key(mv.Key(key).value).None? && mv.Reversed().Key(mv.Key(key).value) == Some(key)
  {
    if Below(mv.s, key) {
      RebaseIsInverse(mv.s, mv.d, key);
      TreesAreDisjoint(mv.d, mv.s, Rebase(mv.s, mv.d, key));
    }
  }

  lemma {:induction false} DirMoves(mv: Move, dir: string)
    requires mv.Valid()
    ensures mv.Dir(dir).Some? ==>
              mv.Dir(mv.Dir(dir).value).None? && mv.Reversed().Dir(mv.Dir(dir).value) == Some(dir)
  {
    KeyMoves(mv, dir);
    if Below(mv.s, dir) {
      RebaseIsInverse(mv.s, mv.d, dir);
      TreesAreDisjoint(mv.d, mv.s, Rebase(mv.s, mv.d, dir));
      assert Rebase(mv.s, mv.d, dir) != mv.d;
    }
    CommonKeyComparable(mv.s, mv.d, mv.d);
  }

  /** A moved path leaves the old tree, and the reverse move brings it back to where it was. */
  lemma {:induction false} PathMoves(mv: Move, p: I.InodePath)
    requires mv.Valid()
    ensures mv.Path(p).Some? ==>
              mv.Path(mv.Path(p).value).None? && mv.Reversed().Path(mv.Path(p).value) == Some(p)
  {
    match p
    case VirtualDir(_, prefix) => DirMoves(mv, prefix);
    case Object(_, key) => KeyMoves(mv, key);
    case _ =>
  }

  /** The same read backwards, from a place in the new tree. */
  lemma {:induction false} PathMovesBack(mv: Move, q: I.InodePath)
    requires mv.Valid()
    ensures mv.Reversed().Path(q).Some? ==>
              mv.Path(q).None? && mv.Path(mv.Reversed().Path(q).value) == Some(q)
  {
    PathMoves(mv.Reversed(), q);
    assert mv.Reversed().Reversed() == mv;
    if mv.Reversed().Path(q).Some? {
      PathMoves(mv, mv.Reversed().Path(q).value);
    }
  }

  // ----- The inode table -----

  function MovedPaths(t: I.Table, mv: Move): set<I.InodePath> {
    set p | p in t.byPath && mv.Path(p).Some?
  }

  /** An entry sitting where one of the `done` paths has moved to: it is evicted. */
  predicate Displaced(mv: Move, p: I.InodePath, done: set<I.InodePath>) {
    mv.Reversed().Path(p).Some? && mv.Reversed().Path(p).value in done
  }

  function Shifted(mv: Move, e: I.Entry, done: set<I.InodePath>): I.Entry {
    if e.path in done && mv.Path(e.path).Some? then e.(path := mv.Path(e.path).value) else e
  }

  /** The number map once the paths in `done` have moved: numbers and metadata stay, paths change. */
  function PartialImage(t: I.Table, mv: Move, done: set<I.InodePath>): map<nat, I.Entry> {
    map i | i in t.byIno && !Displaced(mv, t.byIno[i].path, done) :: Shifted(mv, t.byIno[i], done)
  }

  /** `after` is `before` with the whole tree moved. */
  ghost predicate TreeMoved(before: I.Table, after: I.Table, mv: Move) {
    && after.byIno == PartialImage(before, mv, MovedPaths(before, mv))
    && after.nextIno == before.nextIno
    && I.Inverse(after)
  }

  lemma {:induction false} RepathOneMore(t0: I.Table, t: I.Table, mv: Move, done: set<I.InodePath>, p: I.InodePath)
    requires mv.Valid() && I.Inverse(t0) && I.Inverse(t)
    requires done <= MovedPaths(t0, mv) && t.byIno == PartialImage(t0, mv, done)
    requires mv.Path(p).Some?
    ensures var more := if p in t0.byPath then done + {p} else done;
            I.Repath(t, p, mv.Path(p).value).byIno == PartialImage(t0, mv, more)
  {
    PathMoves(mv, p);
    PathMovesBack(mv, p);
    if p !in t.byPath {
      if p in t0.byPath && p !in done {
        NotYetMoved(t0, t, mv, done, p);
      }
      assert p in t0.byPath ==> done + {p} == done;
    } else {
      var ino := t.byPath[p];
      PathMoves(mv, t0.byIno[ino].path);
      assert t0.byIno[ino].path == p && p !in done;
      RepathPresent(t0, t, mv, done, p);
    }
  }

  lemma {:induction false} RepathPresent(t0: I.Table, t: I.Table, mv: Move, done: set<I.InodePath>, p: I.InodePath)
    requires mv.Valid() && I.Inverse(t0) && I.Inverse(t)
    requires done <= MovedPaths(t0, mv) && t.byIno == PartialImage(t0, mv, done)
    requires mv.Path(p).Some? && p in t.byPath && p in t0.byPath && p !in done && t.byPath[p] == t0.byPath[p]
    ensures I.Repath(t, p, mv.Path(p).value).byIno == PartialImage(t0, mv, done + {p})
  {
    var after := I.Repath(t, p, mv.Path(p).value).byIno;
    var image := PartialImage(t0, mv, done + {p});
    forall i: nat ensures SameAt(after, image, i) {
      if i in t0.byIno {
        RepathOneEntry(t0, t, mv, done, p, i);
      }
    }
    SameEverywhere(after, image);
  }

  predicate SameAt(a: map<nat, I.Entry>, b: map<nat, I.Entry>, i: nat) {
    (i in a <==> i in b) && (i in a && i in b ==> a[i] == b[i])
  }

  lemma {:induction false} SameEverywhere(a: map<nat, I.Entry>, b: map<nat, I.Entry>)
    requires forall i: nat :: SameAt(a, b, i)
    ensures a == b
  {
    forall i: nat ensures (i in a <==> i in b) && (i in a ==> a[i] == b[i]) {
      assert SameAt(a, b, i);
    }
  }

  lemma {:induction false} NotYetMoved(t0: I.Table, t: I.Table, mv: Move, done: set<I.InodePath>, p: I.InodePath)
    requires mv.Valid() && I.Inverse(t0) && I.Inverse(t) && t.byIno == PartialImage(t0, mv, done)
    requires p in t0.byPath && p !in done && mv.Path(p).Some?
    ensures p in t.byPath
  {
    PathMovesBack(mv, p);
    assert t0.byPath[p] in t.byIno;
  }

  lemma {:induction false} DisplacedOneMore(mv: Move, x: I.InodePath, done: set<I.InodePath>, p: I.InodePath)
    requires mv.Valid() && mv.Path(p).Some?
    ensures Displaced(mv, x, done + {p}) <==> Displaced(mv, x, done) || x == mv.Path(p).value
  {
    PathMoves(mv, p);
    PathMovesBack(mv, x);
  }

  /** Where the entry that had path `x` is, once the paths in `done` have moved. */
  lemma {:induction false} ShiftedOneMore(mv: Move, e: I.Entry, done: set<I.InodePath>, p: I.InodePath)
    requires mv.Valid() && mv.Path(p).Some? && p !in done && !Displaced(mv, e.path, done)
    ensures var q := mv.Path(p).value;
            var now := Shifted(mv, e, done);
            && (now.path == p <==> e.path == p)
            && (now.path == q ==> e.path == q)
            && (e.path == q ==> now == e)
            && Shifted(mv, e, done + {p}) == if e.path == p then now.(path := q) else now
  {
    PathMoves(mv, p);
    PathMoves(mv, e.path);
  }

  /** What moving `p` does to the entry with number `i`. */
  lemma {:induction false} RepathOneEntry(t0: I.Table, t: I.Table, mv: Move, done: set<I.InodePath>, p: I.InodePath,
                                          i: nat)
    requires mv.Valid() && I.Inverse(t) && t.byIno == PartialImage(t0, mv, done)
    requires mv.Path(p).Some? && p in t.byPath && p !in done
    requires i in t0.byIno
    ensures SameAt(I.Repath(t, p, mv.Path(p).value).byIno, PartialImage(t0, mv, done + {p}), i)
  {
    PathMoves(mv, p);
    DisplacedOneMore(mv, t0.byIno[i].path, done, p);
    I.RepathEntry(t, p, mv.Path(p).value, i);
    if !Displaced(mv, t0.byIno[i].path, done) {
      ShiftedOneMore(mv, t0.byIno[i], done, p);
    }
  }

  /** Any two tables that satisfy `TreeMoved` are equal: the scan order cannot show. */
  lemma {:induction false} TreeMovedIsUnique(t: I.Table, a: I.Table, b: I.Table, mv: Move)
    requires TreeMoved(t, a, mv) && TreeMoved(t, b, mv)
    ensures a == b
  {
    I.ByPathDetermined(a, b);
  }

  /**
   * What `TreeMoved` means path by path: moved paths keep number and cached size, the old tree is
   * empty, and paths outside both trees are exactly as before.
   */
  lemma {:induction false} TreeMovedMeaning(t: I.Table, after: I.Table, mv: Move)
    requires mv.Valid() && I.Inverse(t) && TreeMoved(t, after, mv)
    ensures forall p :: p in t.byPath && mv.Path(p).Some? ==>
              var q := mv.Path(p).value;
              && q in after.byPath && after.byPath[q] == t.byPath[p]
              && after.byIno[t.byPath[p]] == t.byIno[t.byPath[p]].(path := q)
    ensures forall p :: p in after.byPath ==> mv.Path(p).None?
    ensures forall p :: mv.Path(p).None? && mv.Reversed().Path(p).None? ==>
              (p in after.byPath <==> p in t.byPath)
              && (p in t.byPath ==> after.byPath[p] == t.byPath[p] && after.byIno[t.byPath[p]] == t.byIno[t.byPath[p]])
    ensures I.RootAtOne(t) ==> I.RootAtOne(after)
  {
    forall p | p in t.byPath && mv.Path(p).Some?
      ensures var q := mv.Path(p).value;
              && q in after.byPath && after.byPath[q] == t.byPath[p]
              && after.byIno[t.byPath[p]] == t.byIno[t.byPath[p]].(path := q)
    {
      PathMovesBack(mv, p);
      assert t.byPath[p] in after.byIno;
    }
    forall p | p in after.byPath
      ensures mv.Path(p).None?
    {
      PathMoves(mv, t.byIno[after.byPath[p]].path);
    }
    forall p | mv.Path(p).None? && mv.Reversed().Path(p).None?
      ensures (p in after.byPath <==> p in t.byPath)
              && (p in t.byPath ==> after.byPath[p] == t.byPath[p] && after.byIno[t.byPath[p]] == t.byIno[t.byPath[p]])
    {
      if p in t.byPath {
        assert t.byPath[p] in after.byIno;
      }
      if p in after.byPath {
        PathMoves(mv, t.byIno[after.byPath[p]].path);
      }
    }
  }

  // ----- Server store and handles -----

  /** The store once the objects with the keys in `done` have moved. */
  function MovedStore(store: Store, mv: Move, done: set<string>): Store {
    map id | id in store.Keys + (set k | k in done && mv.Key(k).Some? :: ObjId(mv.bucket, mv.Key(k).value))
             && !(id.bucket == mv.bucket && id.key in done) ::
      var back := mv.Reversed().Id(id);
      if back.Some? && back.value.key in done && back.value in store then store[back.value]
      else if id in store then store[id] else []
  }

  function MovedHandle(of: OpenFile, mv: Move, done: set<string>): OpenFile {
    if of.id.key in done && mv.Id(of.id).Some? then of.(id := mv.Id(of.id).value) else of
  }

  function MovedHandles(handles: Handles, mv: Move, done: set<string>): Handles {
    map fh | fh in handles :: MovedHandle(handles[fh], mv, done)
  }

  ghost predicate Movable(store: Store, mv: Move, done: set<string>) {
    forall k :: k in done ==> mv.Key(k).Some? && ObjId(mv.bucket, k) in store
  }

  lemma {:induction false} MovedStoreOneMore(store: Store, mv: Move, done: set<string>, key: string)
    requires mv.Valid() && Movable(store, mv, done) && mv.Key(key).Some?
    requires var now := MovedStore(store, mv, done); ObjId(mv.bucket, key) in now
    ensures var now := MovedStore(store, mv, done);
            var from, to := ObjId(mv.bucket, key), ObjId(mv.bucket, mv.Key(key).value);
            && from in store && key !in done && now[from] == store[from]
            && now[to := now[from]] - {from} == MovedStore(store, mv, done + {key})
            && Movable(store, mv, done + {key})
  {
    var now := MovedStore(store, mv, done);
    var from, to := ObjId(mv.bucket, key), ObjId(mv.bucket, mv.Key(key).value);
    KeyMoves(mv, key);
    KeyMovesBack(mv, key);
    forall k | k in done ensures mv.Key(k).value != key {
      KeyMoves(mv, k);
    }
    assert from in store && now[from] == store[from];
    var next := now[to := now[from]] - {from};
    var goal := MovedStore(store, mv, done + {key});
    forall id
      ensures id in next <==> id in goal
      ensures id in next && id in goal ==> next[id] == goal[id]
    {
      MoveOneId(store, mv, done, key, id);
    }
  }

  lemma {:induction false} KeyMovesBack(mv: Move, key: string)
    requires mv.Valid()
    ensures mv.Reversed().Key(key).Some? ==>
              mv.Key(key).None? && mv.Key(mv.Reversed().Key(key).value) == Some(key)
  {
    KeyMoves(mv.Reversed(), key);
    assert mv.Reversed().Reversed() == mv;
  }

  /** What moving `key` does to the object `id`. */
  lemma {:induction false} MoveOneId(store: Store, mv: Move, done: set<string>, key: string, id: ObjId)
    requires mv.Valid() && Movable(store, mv, done) && mv.Key(key).Some?
    requires ObjId(mv.bucket, key) in store && key !in done
    ensures var from, to := ObjId(mv.bucket, key), ObjId(mv.bucket, mv.Key(key).value);
            var next := MovedStore(store, mv, done)[to := store[from]] - {from};
            var goal := MovedStore(store, mv, done + {key});
            (id in next <==> id in goal) && (id in next && id in goal ==> next[id] == goal[id])
  {
    var from, to := ObjId(mv.bucket, key), ObjId(mv.bucket, mv.Key(key).value);
    KeyMoves(mv, key);
    KeyMoves(mv, id.key);
    KeyMovesBack(mv, id.key);
    var back := mv.Reversed().Id(id);
    if id == to {
      assert back == Some(from);
      assert id.key !in done;
    }
  }

  /** Every object that was under the old prefix is still there, under its old key or its new one. */
  ghost predicate NothingLost(before: Store, after: Store, mv: Move) {
    forall id :: id in before && mv.Id(id).Some? ==>
      || (id in after && after[id] == before[id])
      || (mv.Id(id).value in after && after[mv.Id(id).value] == before[id])
  }

  /** Objects outside both trees are untouched. */
  ghost predicate OutsideSame(before: Store, after: Store, mv: Move) {
    forall id :: mv.Id(id).None? && mv.Reversed().Id(id).None? ==>
      (id in after <==> id in before) && (id in before ==> after[id] == before[id])
  }

  /** The states between the server calls that move one object. */
  ghost predicate Between(now: Store, mid: Store, from: ObjId, to: ObjId) {
    || mid == now
    || (from in now && (mid == now[to := now[from]] || mid == now[to := now[from]] - {from}))
  }

  lemma {:induction false} MovedStoreLosesNothing(store: Store, mv: Move, done: set<string>)
    requires mv.Valid() && Movable(store, mv, done)
    ensures NothingLost(store, MovedStore(store, mv, done), mv)
    ensures OutsideSame(store, MovedStore(store, mv, done), mv)
  {
    var now := MovedStore(store, mv, done);
    forall id | id in store && mv.Id(id).Some?
      ensures (id in now && now[id] == store[id])
              || (mv.Id(id).value in now && now[mv.Id(id).value] == store[id])
    {
      KeyMoves(mv, id.key);
      if id.key in done {
        assert mv.Id(id).value.key !in done;
      } else {
        KeyMoves(mv.Reversed(), id.key);
        assert mv.Reversed().Reversed() == mv;
      }
    }
    forall id | mv.Id(id).None? && mv.Reversed().Id(id).None?
      ensures (id in now <==> id in store) && (id in store ==> now[id] == store[id])
    {
      forall k | k in done ensures ObjId(mv.bucket, mv.Key(k).value) != id {
        KeyMoves(mv, k);
      }
    }
  }

  lemma {:induction false} BetweenLosesNothing(store: Store, mv: Move, done: set<string>, key: string, mid: Store)
    requires mv.Valid() && Movable(store, mv, done) && mv.Key(key).Some?
    requires Between(MovedStore(store, mv, done), mid, ObjId(mv.bucket, key), ObjId(mv.bucket, mv.Key(key).value))
    ensures NothingLost(store, mid, mv) && OutsideSame(store, mid, mv)
  {
    var now := MovedStore(store, mv, done);
    var from, to := ObjId(mv.bucket, key), ObjId(mv.bucket, mv.Key(key).value);
    MovedStoreLosesNothing(store, mv, done);
    KeyMoves(mv, key);
    if mid != now {
      MovedStoreOneMore(store, mv, done, key);
      MovedStoreLosesNothing(store, mv, done + {key});
      if mid == now[to := now[from]] {
        var next := mid - {from};
        assert next == MovedStore(store, mv, done + {key});
        forall id | id in store && mv.Id(id).Some?
          ensures (id in mid && mid[id] == store[id]) || (mv.Id(id).value in mid && mid[mv.Id(id).value] == store[id])
        {
          if id in next {
            assert mid[id] == next[id];
          }
          KeyMoves(mv, id.key);
          if mv.Id(id).value in next {
            assert mid[mv.Id(id).value] == next[mv.Id(id).value];
          }
        }
        forall id | mv.Id(id).None? && mv.Reversed().Id(id).None?
          ensures (id in mid <==> id in store) && (id in store ==> mid[id] == store[id])
        {
          assert id != from;
          assert id in mid <==> id in next;
        }
      }
    }
  }

  /** With a complete listing the old tree is empty afterwards and the new tree holds its exact image. */
  lemma {:induction false} CompleteListingMovesTree(store: Store, mv: Move, listed: set<string>)
    requires mv.Valid()
    requires forall k :: k in listed <==> ObjId(mv.bucket, k) in store && mv.Key(k).Some?
    ensures var after := MovedStore(store, mv, listed);
            && (forall id :: id in store && mv.Id(id).Some? ==>
                  id !in after && mv.Id(id).value in after && after[mv.Id(id).value] == store[id])
            && (forall id :: id in after && mv.Reversed().Id(id).Some? && mv.Reversed().Id(id).value !in store ==>
                  id in store && after[id] == store[id])
            && OutsideSame(store, after, mv)
  {
    var after := MovedStore(store, mv, listed);
    MovedStoreLosesNothing(store, mv, listed);
    forall id | id in store && mv.Id(id).Some?
      ensures id !in after && mv.Id(id).value in after && after[mv.Id(id).value] == store[id]
    {
      assert id.key in listed;
    }
    forall id | id in after && mv.Reversed().Id(id).Some? && mv.Reversed().Id(id).value !in store
      ensures id in store && after[id] == store[id]
    {
      forall k | k in listed && mv.Key(k).Some? ensures ObjId(mv.bucket, mv.Key(k).value) != id {
        KeyMoves(mv, k);
      }
    }
  }

  // ----- The same in terms of names: everything at `s/r` goes to `d/r` -----

  function Slash(dir: string, r: string): string {
    dir + "/" + r
  }

  lemma {:induction false} KeyOfSlash(mv: Move, r: string)
    ensures mv.Key(Slash(mv.s, r)) == Some(Slash(mv.d, r))
  {
    var key := Slash(mv.s, r);
    assert Under(mv.s) <= key && key[|Under(mv.s)|..] == r;
  }

  lemma {:induction false} SlashOfKey(mv: Move, key: string) returns (r: string)
    requires mv.Key(key).Some?
    ensures key == Slash(mv.s, r) && mv.Key(key).value == Slash(mv.d, r)
  {
    r := key[|Under(mv.s)|..];
    assert key == Under(mv.s) + r;
    KeyOfSlash(mv, r);
  }

  function At(b: string, dir: string, r: string): ObjId {
    ObjId(b, Slash(dir, r))
  }

  lemma {:induction false} IdIsBelow(mv: Move, id: ObjId)
    ensures mv.Id(id).Some? ==> exists r :: id == At(mv.bucket, mv.s, r)
  {
    if mv.Id(id).Some? {
      var r := SlashOfKey(mv, id.key);
      assert id == At(mv.bucket, mv.s, r);
    }
  }

  /** Every listed object is under its new key and no longer under its old one; nothing else changed. */
  ghost predicate StoreImage(before: Store, after: Store, b: string, s: string, d: string, listed: seq<string>) {
    && (forall r :: Slash(s, r) in listed ==>
          && At(b, s, r) in before && At(b, s, r) !in after
          && At(b, d, r) in after && after[At(b, d, r)] == before[At(b, s, r)])
    && (forall id :: (forall r :: Slash(s, r) in listed ==> id != At(b, s, r) && id != At(b, d, r)) ==>
          (id in after <==> id in before) && (id in before ==> after[id] == before[id]))
  }

  lemma {:induction false} StoreImageOf(before: Store, mv: Move, listed: seq<string>)
    requires mv.Valid() && Movable(before, mv, Wanted(listed, mv))
    ensures StoreImage(before, MovedStore(before, mv, Wanted(listed, mv)), mv.bucket, mv.s, mv.d, listed)
  {
    var done := Wanted(listed, mv);
    var after := MovedStore(before, mv, done);
    forall r | Slash(mv.s, r) in listed
      ensures At(mv.bucket, mv.s, r) in before && At(mv.bucket, mv.s, r) !in after
      ensures At(mv.bucket, mv.d, r) in after && after[At(mv.bucket, mv.d, r)] == before[At(mv.bucket, mv.s, r)]
    {
      KeyOfSlash(mv, r);
      KeyMoves(mv, Slash(mv.s, r));
      WantedMeaning(listed, mv, Slash(mv.s, r));
      WantedMeaning(listed, mv, Slash(mv.d, r));
    }
    forall id | forall r :: Slash(mv.s, r) in listed ==> id != At(mv.bucket, mv.s, r) && id != At(mv.bucket, mv.d, r)
      ensures (id in after <==> id in before) && (id in before ==> after[id] == before[id])
    {
      OutsideImage(before, mv, listed, id);
    }
  }

  lemma {:induction false} OutsideImage(before: Store, mv: Move, listed: seq<string>, id: ObjId)
    requires mv.Valid() && Movable(before, mv, Wanted(listed, mv))
    requires forall r :: Slash(mv.s, r) in listed ==> id != At(mv.bucket, mv.s, r) && id != At(mv.bucket, mv.d, r)
    ensures var after := MovedStore(before, mv, Wanted(listed, mv));
            (id in after <==> id in before) && (id in before ==> after[id] == before[id])
  {
    var done := Wanted(listed, mv);
    forall k | k in done ensures ObjId(mv.bucket, k) != id && ObjId(mv.bucket, mv.Key(k).value) != id {
      WantedMeaning(listed, mv, k);
      var r := SlashOfKey(mv, k);
      assert id != At(mv.bucket, mv.s, r) && id != At(mv.bucket, mv.d, r);
    }
    KeyMovesBack(mv, id.key);
  }

  /** Handles on a listed object follow it, whatever their mode and state; the others stay as they are. */
  ghost predicate HandlesImage(before: Handles, after: Handles, b: string, s: string, d: string, listed: seq<string>) {
    && after.Keys == before.Keys
    && (forall fh, r :: fh in before && before[fh].id == At(b, s, r) && Slash(s, r) in listed ==>
          after[fh] == before[fh].(id := At(b, d, r)))
    && (forall fh :: fh in before && (forall r :: Slash(s, r) in listed ==> before[fh].id != At(b, s, r)) ==>
          after[fh] == before[fh])
  }

  lemma {:induction false} HandlesImageOf(before: Handles, mv: Move, listed: seq<string>)
    requires mv.Valid()
    ensures HandlesImage(before, MovedHandles(before, mv, Wanted(listed, mv)), mv.bucket, mv.s, mv.d, listed)
  {
    var after := MovedHandles(before, mv, Wanted(listed, mv));
    forall fh, r | fh in before && before[fh].id == At(mv.bucket, mv.s, r) && Slash(mv.s, r) in listed
      ensures after[fh] == before[fh].(id := At(mv.bucket, mv.d, r))
    {
      KeyOfSlash(mv, r);
      WantedMeaning(listed, mv, Slash(mv.s, r));
    }
    forall fh | fh in before && (forall r :: Slash(mv.s, r) in listed ==> before[fh].id != At(mv.bucket, mv.s, r))
      ensures after[fh] == before[fh]
    {
      WantedMeaning(listed, mv, before[fh].id.key);
      IdIsBelow(mv, before[fh].id);
    }
  }

  /** A directory known only locally is known under its new name, and the old name is gone. */
  ghost predicate DirMoved(before: set<(string, string)>, after: set<(string, string)>, from: (string, string),
                           to: (string, string)) {
    from !in after && (to in after <==> from in before || to in before)
  }

  ghost predicate DirsImage(before: set<(string, string)>, after: set<(string, string)>, b: string, s: string,
                            d: string) {
    && DirMoved(before, after, (b, s), (b, d))
    && (forall r :: DirMoved(before, after, (b, Slash(s, r)), (b, Slash(d, r))))
    && (forall x: (string, string) ::
          x != (b, s) && x != (b, d) && (forall r :: x != (b, Slash(s, r)) && x != (b, Slash(d, r))) ==>
          (x in after <==> x in before))
  }

  lemma {:induction false} DirOfSlash(mv: Move, r: string)
    requires mv.Valid()
    ensures mv.Dir(Slash(mv.s, r)) == Some(Slash(mv.d, r)) && mv.Dir(mv.s) == Some(mv.d)
  {
    KeyOfSlash(mv, r);
    assert |Slash(mv.s, r)| > |mv.s|;
  }

  lemma {:induction false} LocalDirGoes(mv: Move, x: (string, string))
    requires mv.Valid()
    ensures mv.LocalDir(x) != x ==>
              || (x == (mv.bucket, mv.s) && mv.LocalDir(x) == (mv.bucket, mv.d))
              || (exists r :: x == (mv.bucket, Slash(mv.s, r)) && mv.LocalDir(x) == (mv.bucket, Slash(mv.d, r)))
  {
    if mv.LocalDir(x) != x && x.1 != mv.s {
      var r := SlashOfKey(mv, x.1);
      assert x == (mv.bucket, Slash(mv.s, r));
    }
  }

  lemma {:induction false} DirGoes(before: set<(string, string)>, mv: Move, from: string, to: string)
    requires mv.Valid() && mv.Dir(from) == Some(to)
    ensures DirMoved(before, set x | x in before :: mv.LocalDir(x), (mv.bucket, from), (mv.bucket, to))
  {
    var after := set x | x in before :: mv.LocalDir(x);
    var f, t := (mv.bucket, from), (mv.bucket, to);
    DirMoves(mv, from);
    assert mv.LocalDir(f) == t && mv.LocalDir(t) == t;
    forall x | x in before ensures mv.LocalDir(x) != f && (mv.LocalDir(x) == t ==> x == f || x == t) {
      if x.0 == mv.bucket {
        DirMoves(mv, x.1);
      }
    }
  }

  lemma {:induction false} DirsImageOf(before: set<(string, string)>, mv: Move)
    requires mv.Valid()
    ensures DirsImage(before, set x | x in before :: mv.LocalDir(x), mv.bucket, mv.s, mv.d)
  {
    var after := set x | x in before :: mv.LocalDir(x);
    DirGoes(before, mv, mv.s, mv.d);
    forall r ensures DirMoved(before, after, (mv.bucket, Slash(mv.s, r)), (mv.bucket, Slash(mv.d, r))) {
      DirOfSlash(mv, r);
      DirGoes(before, mv, Slash(mv.s, r), Slash(mv.d, r));
    }
    forall x: (string, string) | x != (mv.bucket, mv.s) && x != (mv.bucket, mv.d)
                                 && (forall r :: x != (mv.bucket, Slash(mv.s, r)) && x != (mv.bucket, Slash(mv.d, r)))
      ensures x in after <==> x in before
    {
      LocalDirGoes(mv, x);
      forall y | y in before && mv.LocalDir(y) == x ensures y == x {
        LocalDirGoes(mv, y);
      }
    }
  }

  /** A path's inode is found at its new path with its number and metadata, and the old path is unknown. */
  ghost predicate InodeMoved(before: I.Table, after: I.Table, from: I.InodePath, to: I.InodePath) {
    && from !in after.byPath
    && (from in before.byPath ==>
          && to in after.byPath && after.byPath[to] == before.byPath[from]
          && after.byPath[to] in before.byIno && after.byPath[to] in after.byIno
          && after.byIno[after.byPath[to]] == before.byIno[after.byPath[to]].(path := to))
    && (from !in before.byPath ==> InodeKept(before, after, to))
  }

  ghost predicate InodeKept(before: I.Table, after: I.Table, p: I.InodePath) {
    && (p in after.byPath <==> p in before.byPath)
    && (p in before.byPath ==>
          && after.byPath[p] == before.byPath[p] && before.byPath[p] in before.byIno && before.byPath[p] in after.byIno
          && after.byIno[before.byPath[p]] == before.byIno[before.byPath[p]])
  }

  ghost predicate InodesImage(before: I.Table, after: I.Table, b: string, s: string, d: string) {
    && InodeMoved(before, after, I.VirtualDir(b, s), I.VirtualDir(b, d))
    && (forall r :: InodeMoved(before, after, I.VirtualDir(b, Slash(s, r)), I.VirtualDir(b, Slash(d, r))))
    && (forall r :: InodeMoved(before, after, I.Object(b, Slash(s, r)), I.Object(b, Slash(d, r))))
    && (forall p :: Elsewhere(p, b, s, d) ==> InodeKept(before, after, p))
  }

  /** A path in neither tree. */
  ghost predicate Elsewhere(p: I.InodePath, b: string, s: string, d: string) {
    && p != I.VirtualDir(b, s) && p != I.VirtualDir(b, d)
    && (forall r :: p != I.VirtualDir(b, Slash(s, r)) && p != I.VirtualDir(b, Slash(d, r)))
    && (forall r :: p != I.Object(b, Slash(s, r)) && p != I.Object(b, Slash(d, r)))
  }

  lemma {:induction false} PathGoes(before: I.Table, after: I.Table, mv: Move, from: I.InodePath, to: I.InodePath)
    requires mv.Valid() && I.Inverse(before) && TreeMoved(before, after, mv) && mv.Path(from) == Some(to)
    ensures InodeMoved(before, after, from, to)
  {
    TreeMovedMeaning(before, after, mv);
    PathMoves(mv, from);
    if from !in before.byPath {
      TargetKept(before, after, mv, from, to);
    }
  }

  lemma {:induction false} TargetKept(before: I.Table, after: I.Table, mv: Move, from: I.InodePath, to: I.InodePath)
    requires mv.Valid() && I.Inverse(before) && TreeMoved(before, after, mv) && mv.Path(from) == Some(to)
    requires from !in before.byPath
    ensures InodeKept(before, after, to)
  {
    PathMoves(mv, from);
    if to in before.byPath {
      assert before.byPath[to] in after.byIno;
    }
    if to in after.byPath {
      PathMoves(mv, before.byIno[after.byPath[to]].path);
    }
  }

  lemma {:induction false} PathOutside(mv: Move, p: I.InodePath)
    requires Elsewhere(p, mv.bucket, mv.s, mv.d)
    ensures mv.Path(p).None? && mv.Reversed().Path(p).None?
  {
    if mv.Path(p).Some? {
      PathIsBelow(mv, p);
    }
    if mv.Reversed().Path(p).Some? {
      PathIsBelow(mv.Reversed(), p);
    }
  }

  lemma {:induction false} PathIsBelow(mv: Move, p: I.InodePath)
    requires mv.Path(p).Some?
    ensures || p == I.VirtualDir(mv.bucket, mv.s)
            || (exists r :: p == I.VirtualDir(mv.bucket, Slash(mv.s, r)))
            || (exists r :: p == I.Object(mv.bucket, Slash(mv.s, r)))
  {
    match p
    case VirtualDir(_, prefix) =>
      if prefix != mv.s {
        var r := SlashOfKey(mv, prefix);
        assert p == I.VirtualDir(mv.bucket, Slash(mv.s, r));
      }
    case Object(_, key) =>
      var r := SlashOfKey(mv, key);
      assert p == I.Object(mv.bucket, Slash(mv.s, r));
    case _ =>
  }

  lemma {:induction false} InodesImageOf(before: I.Table, after: I.Table, mv: Move)
    requires mv.Valid() && I.Inverse(before) && TreeMoved(before, after, mv)
    ensures InodesImage(before, after, mv.bucket, mv.s, mv.d)
  {
    var b, s, d := mv.bucket, mv.s, mv.d;
    PathGoes(before, after, mv, I.VirtualDir(b, s), I.VirtualDir(b, d));
    forall r ensures InodeMoved(before, after, I.VirtualDir(b, Slash(s, r)), I.VirtualDir(b, Slash(d, r))) {
      DirOfSlash(mv, r);
      PathGoes(before, after, mv, I.VirtualDir(b, Slash(s, r)), I.VirtualDir(b, Slash(d, r)));
    }
    forall r ensures InodeMoved(before, after, I.Object(b, Slash(s, r)), I.Object(b, Slash(d, r))) {
      KeyOfSlash(mv, r);
      PathGoes(before, after, mv, I.Object(b, Slash(s, r)), I.Object(b, Slash(d, r)));
    }
    forall p | Elsewhere(p, b, s, d) ensures InodeKept(before, after, p) {
      PathOutside(mv, p);
      TreeMovedMeaning(before, after, mv);
    }
  }

  /** Every object at `s/r` is there or at `d/r`, and objects in neither tree are untouched. */
  ghost predicate KeptAll(before: Store, mid: Store, b: string, s: string, d: string) {
    && (forall r :: At(b, s, r) in before ==>
          || (At(b, s, r) in mid && mid[At(b, s, r)] == before[At(b, s, r)])
          || (At(b, d, r) in mid && mid[At(b, d, r)] == before[At(b, s, r)]))
    && (forall id :: (forall r :: id != At(b, s, r) && id != At(b, d, r)) ==>
          (id in mid <==> id in before) && (id in before ==> mid[id] == before[id]))
  }

  lemma {:induction false} KeptAllOf(before: Store, mid: Store, mv: Move)
    requires NothingLost(before, mid, mv) && OutsideSame(before, mid, mv)
    ensures KeptAll(before, mid, mv.bucket, mv.s, mv.d)
  {
    var b := mv.bucket;
    forall r | At(b, mv.s, r) in before
      ensures (At(b, mv.s, r) in mid && mid[At(b, mv.s, r)] == before[At(b, mv.s, r)])
              || (At(b, mv.d, r) in mid && mid[At(b, mv.d, r)] == before[At(b, mv.s, r)])
    {
      KeyOfSlash(mv, r);
      assert mv.Id(At(b, mv.s, r)) == Some(At(b, mv.d, r));
    }
    forall id | forall r :: id != At(b, mv.s, r) && id != At(b, mv.d, r)
      ensures (id in mid <==> id in before) && (id in before ==> mid[id] == before[id])
    {
      IdIsBelow(mv, id);
      IdIsBelow(mv.Reversed(), id);
    }
  }

  // ----- The driver's code -----

  /**
   * GET, PUT under the new key, DELETE the old one. Unless `works`, one of the calls fails, before or after its
   * effect.
   */
  method MoveObject(m: Mount, from: ObjId, to: ObjId, works: bool) returns (ok: bool)
    requires from != to
    modifies m`server, m`history
    ensures ok <==> works && from in old(m.server)
    ensures ok ==> from in old(m.server) && m.server == old(m.server)[to := old(m.server)[from]] - {from}
    ensures Between(old(m.server), m.server, from, to)
    ensures |old(m.history)| <= |m.history| && m.history[..|old(m.history)|] == old(m.history)
    ensures forall i :: |old(m.history)| <= i < |m.history| ==> Between(old(m.server), m.history[i], from, to)
  {
    var getFails: bool, putFails: bool, landed: bool, deleted: bool := *, *, *, *;
    if from !in m.server || (!works && getFails) {
      return false;
    }
    var body := m.server[from];
    var putWorks := works || !putFails;
    m.PutObject(to, body, if putWorks then PutOk else PutFailed(landed));
    if !putWorks {
      return false;
    }
    m.DeleteObject(from, works || deleted);
    return works;
  }

  method RekeyHandlesOf(m: Mount, from: ObjId, to: ObjId)
    modifies m`handles
    ensures m.handles.Keys == old(m.handles).Keys
    ensures forall fh :: fh in m.handles ==>
              m.handles[fh] ==
                if old(m.handles)[fh].id == from then old(m.handles)[fh].(id := to) else old(m.handles)[fh]
  {
    var todo := m.handles.Keys;
    while todo != {}
      invariant m.handles.Keys == old(m.handles).Keys && todo <= m.handles.Keys
      invariant forall fh :: fh in m.handles ==>
                  m.handles[fh] == if fh !in todo && old(m.handles)[fh].id == from
                                   then old(m.handles)[fh].(id := to) else old(m.handles)[fh]
      decreases todo
    {
      var fh :| fh in todo;
      todo := todo - {fh};
      if m.handles[fh].id == from {
        m.handles := m.handles[fh := m.handles[fh].(id := to)];
      }
    }
  }

  lemma {:induction false} MovedHandlesOneMore(handles: Handles, now: Handles, next: Handles, mv: Move,
                                               done: set<string>, key: string)
    requires mv.Valid() && mv.Key(key).Some? && now == MovedHandles(handles, mv, done)
    requires forall k :: k in done ==> mv.Key(k).Some?
    requires var from, to := ObjId(mv.bucket, key), ObjId(mv.bucket, mv.Key(key).value);
             next.Keys == now.Keys
             && forall fh :: fh in now ==> next[fh] == if now[fh].id == from then now[fh].(id := to) else now[fh]
    ensures next == MovedHandles(handles, mv, done + {key})
  {
    forall fh | fh in handles
      ensures next[fh] == MovedHandle(handles[fh], mv, done + {key})
    {
      KeyMoves(mv, handles[fh].id.key);
    }
  }

  /** Collects the directories to rename in one scan, then removes and inserts them one by one. */
  method RewriteLocalDirs(m: Mount, mv: Move)
    requires mv.Valid()
    modifies m`localDirs
    ensures m.localDirs == set x | x in old(m.localDirs) :: mv.LocalDir(x)
  {
    var todo := m.localDirs;
    var updates: seq<((string, string), (string, string))> := [];
    while todo != {}
      invariant todo <= m.localDirs
      invariant forall u :: u in updates ==>
                u.0 in m.localDirs && u.1 == mv.LocalDir(u.0) && u.0.0 == mv.bucket && mv.Dir(u.0.1).Some?
      invariant forall x :: x in m.localDirs && x !in todo && mv.LocalDir(x) != x ==> (x, mv.LocalDir(x)) in updates
      decreases todo
    {
      var x :| x in todo;
      todo := todo - {x};
      if x.0 == mv.bucket && mv.Dir(x.1).Some? {
        updates := updates + [(x, (mv.bucket, mv.Dir(x.1).value))];
      }
    }
    ghost var before := m.localDirs;
    var i := 0;
    while i < |updates|
      invariant 0 <= i <= |updates|
      invariant forall y :: y in m.localDirs ==> exists x :: x in before && (y == x || y == mv.LocalDir(x))
      invariant forall x :: x in before && mv.LocalDir(x) == x ==> x in m.localDirs
      invariant forall j :: 0 <= j < i ==> updates[j].0 !in m.localDirs && updates[j].1 in m.localDirs
    {
      var (was, now) := updates[i];
      DirMoves(mv, was.1);
      forall j | 0 <= j < i ensures updates[j].1 != was && updates[j].0 != now {
        DirMoves(mv, updates[j].0.1);
      }
      m.localDirs := m.localDirs - {was} + {now};
      i := i + 1;
    }
    ghost var image := set x | x in before :: mv.LocalDir(x);
    forall x | x in before && mv.LocalDir(x) != x
      ensures x !in m.localDirs && mv.LocalDir(x) in m.localDirs
    {
      assert (x, mv.LocalDir(x)) in updates;
    }
    assert m.localDirs == image;
  }

  /** One path of the snapshot. */
  method RepathOne(inodes: I.InodeTable, mv: Move, p: I.InodePath, ghost t0: I.Table, ghost done: set<I.InodePath>)
    returns (ghost done': set<I.InodePath>)
    requires mv.Valid() && I.Inverse(t0) && I.Inverse(inodes.View()) && done <= MovedPaths(t0, mv)
    requires inodes.byIno == PartialImage(t0, mv, done) && inodes.nextIno == t0.nextIno
    modifies inodes
    ensures I.Inverse(inodes.View()) && inodes.nextIno == t0.nextIno
    ensures inodes.byIno == PartialImage(t0, mv, done')
    ensures done' == if p in MovedPaths(t0, mv) then done + {p} else done
  {
    done' := if p in MovedPaths(t0, mv) then done + {p} else done;
    if mv.Path(p).Some? {
      RepathOneMore(t0, inodes.View(), mv, done, p);
      inodes.RepathTo(p, mv.Path(p).value);
    }
  }

  function PathsOf(byIno: map<nat, I.Entry>): set<I.InodePath> {
    set ino | ino in byIno :: byIno[ino].path
  }

  /** A snapshot of the paths holds everything that is still to be moved. */
  lemma {:induction false} SnapshotCovers(t0: I.Table, t: I.Table, mv: Move, moved: set<I.InodePath>)
    requires mv.Valid() && I.Inverse(t0) && I.Inverse(t) && moved <= MovedPaths(t0, mv)
    requires t.byIno == PartialImage(t0, mv, moved)
    ensures MovedPaths(t0, mv) <= moved + PathsOf(t.byIno)
  {
    forall p | p in MovedPaths(t0, mv) - moved ensures p in PathsOf(t.byIno) {
      NotYetMoved(t0, t, mv, moved, p);
    }
  }

  /** Repaths everything still under the old prefix, from a snapshot taken in arbitrary order. */
  method RepathSnapshot(inodes: I.InodeTable, mv: Move, ghost t0: I.Table, ghost moved: set<I.InodePath>)
    requires mv.Valid() && I.Inverse(t0) && I.Inverse(inodes.View())
    requires moved <= MovedPaths(t0, mv)
    requires inodes.byIno == PartialImage(t0, mv, moved) && inodes.nextIno == t0.nextIno
    modifies inodes
    ensures TreeMoved(t0, inodes.View(), mv)
  {
    var todo := PathsOf(inodes.byIno);
    ghost var done, all := moved, MovedPaths(t0, mv);
    SnapshotCovers(t0, inodes.View(), mv, moved);
    while todo != {}
      invariant I.Inverse(inodes.View()) && inodes.nextIno == t0.nextIno
      invariant done <= all <= done + todo
      invariant inodes.byIno == PartialImage(t0, mv, done)
      decreases todo
    {
      var p :| p in todo;
      todo := todo - {p};
      done := RepathOne(inodes, mv, p, t0, done);
    }
    assert done == all;
  }

  /** The listed keys that lie under the source prefix. */
  function Wanted(listed: seq<string>, mv: Move): set<string> {
    if listed == [] then {}
    else
      var n := |listed| - 1;
      Wanted(listed[..n], mv) + if mv.Key(listed[n]).Some? then {listed[n]} else {}
  }

  lemma {:induction false} WantedMeaning(listed: seq<string>, mv: Move, k: string)
    ensures k in Wanted(listed, mv) <==> k in listed && mv.Key(k).Some?
  {
    if listed != [] {
      WantedMeaning(listed[..|listed| - 1], mv, k);
    }
  }

  lemma {:induction false} WantedOneMore(listed: seq<string>, mv: Move, n: nat)
    requires n < |listed|
    ensures Wanted(listed[..n + 1], mv) == Wanted(listed[..n], mv) + if mv.Key(listed[n]).Some? then {listed[n]} else {}
  {
    assert listed[..n + 1][..n] == listed[..n];
  }

  ghost predicate Extends(before: seq<Store>, after: seq<Store>) {
    |before| <= |after| && after[..|before|] == before
  }

  /** At every recorded server state from index `start` on, nothing is lost and nothing outside changed. */
  ghost predicate SafeSince(history: seq<Store>, start: nat, store: Store, mv: Move) {
    forall i :: start <= i < |history| ==> NothingLost(store, history[i], mv) && OutsideSame(store, history[i], mv)
  }

  lemma {:induction false} StillUnderOldKey(store: Store, mv: Move, done: set<string>, key: string)
    requires mv.Valid() && Movable(store, mv, done) && mv.Key(key).Some?
    ensures ObjId(mv.bucket, key) in MovedStore(store, mv, done) <==> ObjId(mv.bucket, key) in store && key !in done
  {
    forall k | k in done ensures mv.Key(k).value != key {
      KeyMoves(mv, k);
    }
  }

  method MoveOneListed(m: Mount, mv: Move, key: string, works: bool, ghost store: Store, ghost done: set<string>)
    returns (ok: bool)
    requires mv.Valid() && mv.Key(key).Some? && Movable(store, mv, done) && m.server == MovedStore(store, mv, done)
    modifies m`server, m`history
    ensures ok <==> works && ObjId(mv.bucket, key) in store && key !in done
    ensures ok ==> m.server == MovedStore(store, mv, done + {key}) && Movable(store, mv, done + {key})
    ensures NothingLost(store, m.server, mv) && OutsideSame(store, m.server, mv)
    ensures Extends(old(m.history), m.history) && SafeSince(m.history, |old(m.history)|, store, mv)
  {
    KeyMoves(mv, key);
    var from, to := ObjId(mv.bucket, key), ObjId(mv.bucket, mv.Key(key).value);
    StillUnderOldKey(store, mv, done, key);
    ok := MoveObject(m, from, to, works);
    if ok {
      MovedStoreOneMore(store, mv, done, key);
    }
    BetweenLosesNothing(store, mv, done, key, m.server);
    forall i | |old(m.history)| <= i < |m.history|
      ensures NothingLost(store, m.history[i], mv) && OutsideSame(store, m.history[i], mv)
    {
      BetweenLosesNothing(store, mv, done, key, m.history[i]);
    }
  }

  lemma {:induction false} SafeComposes(h0: seq<Store>, h1: seq<Store>, h2: seq<Store>, store: Store, mv: Move)
    requires Extends(h0, h1) && SafeSince(h1, |h0|, store, mv)
    requires Extends(h1, h2) && SafeSince(h2, |h1|, store, mv)
    ensures Extends(h0, h2) && SafeSince(h2, |h0|, store, mv)
  {
    assert h2[..|h0|] == h2[..|h1|][..|h0|];
    assert forall i :: 0 <= i < |h1| ==> h2[i] == h1[i];
  }

  lemma {:induction false} NothingMovedYet(start: World, table: I.Table, mv: Move)
    ensures MovedStore(start.server, mv, {}) == start.server
    ensures MovedHandles(start.handles, mv, {}) == start.handles
    ensures PartialImage(table, mv, {}) == table.byIno
  {
  }

  /** Where the mount stands when the keys `done` and the object paths `moved` have been dealt with. */
  ghost predicate Progress(m: Mount, start: World, table: I.Table, mv: Move, done: set<string>, moved: set<I.InodePath>)
    reads m, m.inodes
  {
    && Movable(start.server, mv, done)
    && m.handles == MovedHandles(start.handles, mv, done)
    && moved <= MovedPaths(table, mv)
    && I.Inverse(m.inodes.View())
    && m.inodes.byIno == PartialImage(table, mv, moved) && m.inodes.nextIno == table.nextIno
  }

  /** One listed key: move the object, then its handles, then its inode. */
  method MoveKey(m: Mount, mv: Move, key: string, works: bool, ghost start: World, ghost table: I.Table,
                 ghost done: set<string>, ghost moved: set<I.InodePath>)
    returns (ok: bool, ghost moved': set<I.InodePath>)
    requires mv.Valid() && mv.Key(key).Some? && I.Inverse(table)
    requires Progress(m, start, table, mv, done, moved) && m.server == MovedStore(start.server, mv, done)
    modifies m`server, m`handles, m`history, m.inodes
    ensures ok <==> works && ObjId(mv.bucket, key) in start.server && key !in done
    ensures ok ==>
              && Progress(m, start, table, mv, done + {key}, moved')
              && m.server == MovedStore(start.server, mv, done + {key})
    ensures !ok ==> Progress(m, start, table, mv, done, moved')
    ensures NothingLost(start.server, m.server, mv) && OutsideSame(start.server, m.server, mv)
    ensures Extends(old(m.history), m.history) && SafeSince(m.history, |old(m.history)|, start.server, mv)
  {
    moved' := moved;
    ok := MoveOneListed(m, mv, key, works, start.server, done);
    if ok {
      var newKey := mv.Key(key).value;
      ghost var handlesNow := m.handles;
      RekeyHandlesOf(m, ObjId(mv.bucket, key), ObjId(mv.bucket, newKey));
      MovedHandlesOneMore(start.handles, handlesNow, m.handles, mv, done, key);
      ghost var p := I.Object(mv.bucket, key);
      RepathOneMore(table, m.inodes.View(), mv, moved, p);
      m.inodes.RepathTo(I.Object(mv.bucket, key), I.Object(mv.bucket, newKey));
      moved' := if p in table.byPath then moved + {p} else moved;
    }
  }

  /** The key at position `n` is not below the source, or it is there, its calls work and it is not listed twice. */
  predicate CanMove(store: Store, mv: Move, listed: seq<string>, n: nat, trouble: set<string>)
    requires n < |listed|
  {
    mv.Key(listed[n]).Some? ==>
      ObjId(mv.bucket, listed[n]) in store && listed[n] !in trouble && listed[n] !in listed[..n]
  }

  /** The next listed key: skipped, or moved, or the error to stop at. */
  method MoveNext(m: Mount, mv: Move, listed: seq<string>, n: nat, trouble: set<string>, ghost start: World,
                  ghost table: I.Table, ghost moved: set<I.InodePath>, ghost recorded: seq<Store>)
    returns (ok: bool, ghost moved': set<I.InodePath>)
    requires mv.Valid() && I.Inverse(table) && n < |listed|
    requires Progress(m, start, table, mv, Wanted(listed[..n], mv), moved)
    requires m.server == MovedStore(start.server, mv, Wanted(listed[..n], mv))
    requires Extends(recorded, m.history) && SafeSince(m.history, |recorded|, start.server, mv)
    modifies m`server, m`handles, m`history, m.inodes
    ensures ok <==> CanMove(start.server, mv, listed, n, trouble)
    ensures Progress(m, start, table, mv, Wanted(if ok then listed[..n + 1] else listed[..n], mv), moved')
    ensures ok ==> m.server == MovedStore(start.server, mv, Wanted(listed[..n + 1], mv))
    ensures !ok ==> NothingLost(start.server, m.server, mv) && OutsideSame(start.server, m.server, mv)
    ensures Extends(recorded, m.history) && SafeSince(m.history, |recorded|, start.server, mv)
  {
    ghost var done := Wanted(listed[..n], mv);
    moved' := moved;
    if mv.Key(listed[n]).Some? {
      ghost var sofar := m.history;
      WantedMeaning(listed[..n], mv, listed[n]);
      ok, moved' := MoveKey(m, mv, listed[n], listed[n] !in trouble, start, table, done, moved);
      SafeComposes(recorded, sofar, m.history, start.server, mv);
    } else {
      ok := true;
    }
    WantedOneMore(listed, mv, n);
  }

  /** Moves the listed objects one after the other; stops at an error. A call for the keys in `trouble` fails. */
  method MoveListed(m: Mount, mv: Move, listed: seq<string>, trouble: set<string>)
    returns (ok: bool, ghost done: set<string>, ghost moved: set<I.InodePath>)
    requires mv.Valid() && I.Inverse(m.inodes.View())
    modifies m`server, m`handles, m`history, m.inodes
    ensures ok <==> forall n :: 0 <= n < |listed| ==> CanMove(old(m.server), mv, listed, n, trouble)
    ensures Progress(m, old(m.View()), old(m.inodes.View()), mv, done, moved)
    ensures ok ==> done == Wanted(listed, mv) && m.server == MovedStore(old(m.server), mv, done)
    ensures NothingLost(old(m.server), m.server, mv) && OutsideSame(old(m.server), m.server, mv)
    ensures Extends(old(m.history), m.history) && SafeSince(m.history, |old(m.history)|, old(m.server), mv)
  {
    moved := {};
    ghost var start, table := m.View(), m.inodes.View();
    NothingMovedYet(start, table, mv);
    var n := 0;
    while n < |listed|
      invariant 0 <= n <= |listed|
      invariant Progress(m, start, table, mv, Wanted(listed[..n], mv), moved)
      invariant m.server == MovedStore(start.server, mv, Wanted(listed[..n], mv))
      invariant forall i :: 0 <= i < n ==> CanMove(start.server, mv, listed, i, trouble)
      invariant Extends(old(m.history), m.history) && SafeSince(m.history, |old(m.history)|, start.server, mv)
    {
      ok, moved := MoveNext(m, mv, listed, n, trouble, start, table, moved, old(m.history));
      if !ok {
        return false, Wanted(listed[..n], mv), moved;
      }
      n := n + 1;
    }
    assert listed[..n] == listed;
    done := Wanted(listed, mv);
    MovedStoreLosesNothing(start.server, mv, done);
    return true, done, moved;
  }

  /** The whole request, in terms of the move. */
  method RenameTree(m: Mount, mv: Move, listed: seq<string>, trouble: set<string>) returns (ok: bool)
    requires mv.Valid() && I.Inverse(m.inodes.View())
    modifies m`server, m`handles, m`localDirs, m`history, m.inodes
    ensures I.Inverse(m.inodes.View())
    ensures ok <==> forall n :: 0 <= n < |listed| ==> CanMove(old(m.server), mv, listed, n, trouble)
    ensures ok ==> Movable(old(m.server), mv, Wanted(listed, mv))
    ensures ok ==> m.server == MovedStore(old(m.server), mv, Wanted(listed, mv))
    ensures ok ==> m.handles == MovedHandles(old(m.handles), mv, Wanted(listed, mv))
    ensures ok ==> m.localDirs == set x | x in old(m.localDirs) :: mv.LocalDir(x)
    ensures ok ==> TreeMoved(old(m.inodes.View()), m.inodes.View(), mv)
    ensures !ok ==> m.localDirs == old(m.localDirs)
    ensures NothingLost(old(m.server), m.server, mv) && OutsideSame(old(m.server), m.server, mv)
    ensures Extends(old(m.history), m.history) && SafeSince(m.history, |old(m.history)|, old(m.server), mv)
  {
    ghost var table := m.inodes.View();
    ghost var done, moved;
    ok, done, moved := MoveListed(m, mv, listed, trouble);
    if !ok {
      return;
    }
    RewriteLocalDirs(m, mv);
    RepathSnapshot(m.inodes, mv, table, moved);
  }

  /** Every listed object below the source is there, is listed once, and none of its calls fails. */
  ghost predicate AllCanMove(store: Store, b: string, s: string, listed: seq<string>, trouble: set<string>) {
    forall n, r :: 0 <= n < |listed| && listed[n] == Slash(s, r) ==>
      At(b, s, r) in store && listed[n] !in trouble && listed[n] !in listed[..n]
  }

  /** Everything at `s/r` is at `d/r`: the store, the handles on listed objects, local directories and inodes. */
  ghost predicate TreeRenamed(server: Store, handles: Handles, dirs: set<(string, string)>, table: I.Table,
                              server': Store, handles': Handles, dirs': set<(string, string)>, table': I.Table,
                              b: string, s: string, d: string, listed: seq<string>) {
    && StoreImage(server, server', b, s, d, listed)
    && HandlesImage(handles, handles', b, s, d, listed)
    && DirsImage(dirs, dirs', b, s, d)
    && InodesImage(table, table', b, s, d)
  }

  lemma {:induction false} TreeRenamedOf(server: Store, handles: Handles, dirs: set<(string, string)>, table: I.Table,
                                         table': I.Table, mv: Move, listed: seq<string>)
    requires mv.Valid() && Movable(server, mv, Wanted(listed, mv)) && I.Inverse(table) && TreeMoved(table, table', mv)
    ensures TreeRenamed(server, handles, dirs, table, MovedStore(server, mv, Wanted(listed, mv)),
                        MovedHandles(handles, mv, Wanted(listed, mv)), set x | x in dirs :: mv.LocalDir(x), table',
                        mv.bucket, mv.s, mv.d, listed)
  {
    StoreImageOf(server, mv, listed);
    HandlesImageOf(handles, mv, listed);
    DirsImageOf(dirs, mv);
    InodesImageOf(table, table', mv);
  }

  /**
   * The whole request. It succeeds if and only if every listed object below the source is there, listed
   * once, and none of its calls fails. Success takes everything at `s/r` to `d/r`: the store, the handles
   * on listed objects, the local directories and the inode table. Whether it succeeds or stops at any
   * error, at every server call no object of the moved tree is missing and nothing outside has changed.
   */
  method RenameDirectory(m: Mount, mv: Move, listed: seq<string>, trouble: set<string>) returns (ok: bool)
    requires mv.Valid() && I.Inverse(m.inodes.View())
    modifies m`server, m`handles, m`localDirs, m`history, m.inodes
    ensures I.Inverse(m.inodes.View())
    ensures ok <==> AllCanMove(old(m.server), mv.bucket, mv.s, listed, trouble)
    ensures ok ==> TreeRenamed(old(m.server), old(m.handles), old(m.localDirs), old(m.inodes.View()),
                               m.server, m.handles, m.localDirs, m.inodes.View(), mv.bucket, mv.s, mv.d, listed)
    ensures !ok ==> m.localDirs == old(m.localDirs)
    ensures KeptAll(old(m.server), m.server, mv.bucket, mv.s, mv.d)
    ensures KeptSince(old(m.history), m.history, old(m.server), mv.bucket, mv.s, mv.d)
  {
    ghost var server, handles, dirs, table := m.server, m.handles, m.localDirs, m.inodes.View();
    ghost var recorded := m.history;
    ok := RenameTree(m, mv, listed, trouble);
    CanMoveByName(server, mv, listed, trouble);
    KeptAllOf(server, m.server, mv);
    KeptSinceOf(server, recorded, m.history, mv);
    if ok {
      TreeRenamedOf(server, handles, dirs, table, m.inodes.View(), mv, listed);
    }
  }

  lemma {:induction false} CanMoveByName(store: Store, mv: Move, listed: seq<string>, trouble: set<string>)
    ensures (forall n :: 0 <= n < |listed| ==> CanMove(store, mv, listed, n, trouble)) <==>
            AllCanMove(store, mv.bucket, mv.s, listed, trouble)
  {
    if forall n :: 0 <= n < |listed| ==> CanMove(store, mv, listed, n, trouble) {
      forall n, r | 0 <= n < |listed| && listed[n] == Slash(mv.s, r)
        ensures At(mv.bucket, mv.s, r) in store && listed[n] !in trouble && listed[n] !in listed[..n]
      {
        assert CanMove(store, mv, listed, n, trouble);
        KeyOfSlash(mv, r);
      }
    }
    if AllCanMove(store, mv.bucket, mv.s, listed, trouble) {
      forall n | 0 <= n < |listed| ensures CanMove(store, mv, listed, n, trouble) {
        if mv.Key(listed[n]).Some? {
          var r := SlashOfKey(mv, listed[n]);
          assert At(mv.bucket, mv.s, r) in store;
        }
      }
    }
  }

  /** No server call on the way lost anything. */
  ghost predicate KeptSince(recorded: seq<Store>, history: seq<Store>, store: Store, b: string, s: string, d: string) {
    Extends(recorded, history) && forall i :: |recorded| <= i < |history| ==> KeptAll(store, history[i], b, s, d)
  }

  lemma {:induction false} KeptSinceOf(store: Store, recorded: seq<Store>, history: seq<Store>, mv: Move)
    requires Extends(recorded, history) && SafeSince(history, |recorded|, store, mv)
    ensures KeptSince(recorded, history, store, mv.bucket, mv.s, mv.d)
  {
    forall i | |recorded| <= i < |history| ensures KeptAll(store, history[i], mv.bucket, mv.s, mv.d) {
      KeptAllOf(store, history[i], mv);
    }
  }
}
