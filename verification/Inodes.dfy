/** The inode table of the FUSE driver: two hash maps that must stay each other's inverse. */
module Inodes {
  import opened Base

  const ROOT_INO: nat := 1

  datatype InodePath =
    | Root
    | Bucket(name: string)
    | VirtualDir(bucket: string, prefix: string)
    | Object(bucket: string, key: string)

  /** `size` is the cached object size; `current` says whether the rest of the metadata may be used. */
  datatype Entry = Entry(path: InodePath, size: Option<nat>, current: bool)

  datatype Table = Table(byIno: map<nat, Entry>, byPath: map<InodePath, nat>, nextIno: nat)

  // ----- What a table must satisfy -----

  /** The two maps are mutually inverse and every number was issued by the counter. */
  ghost predicate Inverse(t: Table) {
    && (forall p :: p in t.byPath ==> t.byPath[p] in t.byIno && t.byIno[t.byPath[p]].path == p)
    && (forall i :: i in t.byIno ==> t.byIno[i].path in t.byPath && t.byPath[t.byIno[i].path] == i)
    && (forall i :: i in t.byIno ==> i < t.nextIno)
  }

  ghost predicate RootAtOne(t: Table) {
    && ROOT_INO in t.byIno
    && t.byIno[ROOT_INO].path == Root
  }

  // ----- The operations, on values -----

  function Fresh(): Table {
    Table(map[ROOT_INO := Entry(Root, None, false)], map[Root := ROOT_INO], 2)
  }

  function Assign(t: Table, p: InodePath): Table {
    if p in t.byPath then t
    else Table(t.byIno[t.nextIno := Entry(p, None, false)], t.byPath[p := t.nextIno], t.nextIno + 1)
  }

  function Repath(t: Table, from: InodePath, to: InodePath): Table {
    if from !in t.byPath then t
    else
      var ino := t.byPath[from];
      var rest := t.byPath - {from};
      var renamed := if ino in t.byIno then t.byIno[ino := t.byIno[ino].(path := to)] else t.byIno;
      var live := if to in rest && rest[to] != ino then renamed - {rest[to]} else renamed;
      Table(live, rest[to := ino], t.nextIno)
  }

  function Remove(t: Table, ino: nat): Table {
    if ino !in t.byIno then t
    else t.(byIno := t.byIno - {ino}, byPath := t.byPath - {t.byIno[ino].path})
  }

  function SetSize(t: Table, ino: nat, size: nat): Table {
    if ino !in t.byIno then t
    else t.(byIno := t.byIno[ino := t.byIno[ino].(size := Some(size), current := true)])
  }

  function InvalidateMeta(t: Table, ino: nat): Table {
    if ino !in t.byIno then t
    else t.(byIno := t.byIno[ino := t.byIno[ino].(current := false)])
  }

  function NoteWritten(t: Table, ino: nat, size: nat): Table {
    InvalidateMeta(SetSize(t, ino, size), ino)
  }

  // ----- Runs -----

  datatype Op =
    | OpAssign(path: InodePath)
    | OpRepath(from: InodePath, to: InodePath)
    | OpRemove(ino: nat)
    | OpSetSize(ino: nat, size: nat)
    | OpNoteWritten(ino: nat, size: nat)

  function Step(t: Table, op: Op): Table {
    match op
    case OpAssign(p) => Assign(t, p)
    case OpRepath(from, to) => Repath(t, from, to)
    case OpRemove(i) => Remove(t, i)
    case OpSetSize(i, n) => SetSize(t, i, n)
    case OpNoteWritten(i, n) => NoteWritten(t, i, n)
  }

  function Run(t: Table, ops: seq<Op>): Table
    decreases |ops|
  {
    if ops == [] then t else Run(Step(t, ops[0]), ops[1..])
  }

  /** The driver never removes inode 1 and never renames the mount root. */
  predicate SparesRoot(op: Op) {
    match op
    case OpRepath(from, to) => from != Root && to != Root
    case OpRemove(i) => i != ROOT_INO
    case _ => true
  }

  lemma {:induction false} StepKeepsInverse(t: Table, op: Op)
    requires Inverse(t)
    ensures Inverse(Step(t, op))
    ensures t.nextIno <= Step(t, op).nextIno
    ensures forall i :: i in Step(t, op).byIno ==> i in t.byIno || i == t.nextIno < Step(t, op).nextIno
  {
    match op
    case OpAssign(_) =>
    case OpRepath(from, to) =>
    case OpRemove(_) =>
    case OpSetSize(_, _) =>
    case OpNoteWritten(_, _) =>
  }

  /** What each operation but a rename does to the table, entry by entry; all other entries survive it. */
  lemma {:induction false} StepEntries(t: Table, op: Op, i: nat)
    requires Inverse(t)
    ensures var after := Step(t, op).byIno;
            match op
            case OpAssign(p) =>
              if i == t.nextIno && p !in t.byPath then i in after && after[i] == Entry(p, None, false)
              else (i in after <==> i in t.byIno) && (i in t.byIno ==> after[i] == t.byIno[i])
            case OpRemove(ino) =>
              (i in after <==> i in t.byIno && i != ino) && (i in after ==> after[i] == t.byIno[i])
            case OpSetSize(ino, n) =>
              && (i in after <==> i in t.byIno)
              && (i in t.byIno ==> after[i] == if i == ino then Entry(t.byIno[i].path, Some(n), true) else t.byIno[i])
            case OpNoteWritten(ino, n) =>
              && (i in after <==> i in t.byIno)
              && (i in t.byIno ==> after[i] == if i == ino then Entry(t.byIno[i].path, Some(n), false) else t.byIno[i])
            case OpRepath(_, _) => true
  {
  }

  /** A rename entry by entry: the holder of `from` gets the new path, a holder of `to` is dropped. */
  lemma {:induction false} RepathEntry(t: Table, from: InodePath, to: InodePath, i: nat)
    requires Inverse(t) && from in t.byPath && from != to
    ensures var after := Repath(t, from, to).byIno;
            && (i in after <==> i in t.byIno && t.byIno[i].path != to)
            && (i in after ==> after[i] == if t.byIno[i].path == from then t.byIno[i].(path := to) else t.byIno[i])
  {
  }

  /**
   * A rename moves the root away from number 1 exactly when it names the root on one side only;
   * every other rename, known or unknown source, leaves it.
   */
  lemma {:induction false} RepathKeepsRootIff(t: Table, from: InodePath, to: InodePath)
    requires Inverse(t) && RootAtOne(t)
    ensures RootAtOne(Repath(t, from, to)) <==> (from !in t.byPath || (from == Root <==> to == Root))
  {
    assert t.byPath[Root] == ROOT_INO;
    if from in t.byPath && from != Root && to == Root {
      assert ROOT_INO !in Repath(t, from, to).byIno;
    }
  }

  /** Every run keeps the two maps inverse and the root at number 1. */
  lemma {:induction false} RunKeepsTable(t: Table, ops: seq<Op>)
    requires Inverse(t)
    ensures Inverse(Run(t, ops))
    ensures t.nextIno <= Run(t, ops).nextIno
    ensures RootAtOne(t) && (forall i :: 0 <= i < |ops| ==> SparesRoot(ops[i])) ==> RootAtOne(Run(t, ops))
    decreases |ops|
  {
    if ops != [] {
      StepKeepsInverse(t, ops[0]);
      if RootAtOne(t) && SparesRoot(ops[0]) {
        assert t.byPath[Root] == ROOT_INO;
        assert RootAtOne(Step(t, ops[0]));
      }
      RunKeepsTable(Step(t, ops[0]), ops[1..]);
    }
  }

  /** A number below the counter that is not live stays dead for the rest of the run. */
  lemma {:induction false} EvictedNeverReissued(t: Table, ops: seq<Op>, ino: nat)
    requires Inverse(t)
    requires ino < t.nextIno && ino !in t.byIno
    ensures ino !in Run(t, ops).byIno
    decreases |ops|
  {
    if ops != [] {
      StepKeepsInverse(t, ops[0]);
      EvictedNeverReissued(Step(t, ops[0]), ops[1..], ino);
    }
  }

  lemma {:induction false} RunSplits(t: Table, ops: seq<Op>, k: nat)
    requires k <= |ops|
    ensures Run(t, ops) == Run(Run(t, ops[..k]), ops[k..])
    decreases k
  {
    if k > 0 {
      assert ops[1..][..k - 1] == ops[..k][1..] && ops[1..][k - 1..] == ops[k..];
      RunSplits(Step(t, ops[0]), ops[1..], k - 1);
    } else {
      assert ops[0..] == ops && ops[..0] == [];
    }
  }

  /** A new path gets a number that no table of the run ever contained. */
  lemma {:induction false} AssignedNumberIsNew(t: Table, ops: seq<Op>, p: InodePath)
    requires Inverse(t)
    requires p !in Run(t, ops).byPath
    ensures var now := Run(t, ops);
            && Assign(now, p).byPath[p] == now.nextIno
            && forall k :: 0 <= k <= |ops| ==> now.nextIno !in Run(t, ops[..k]).byIno
  {
    forall k | 0 <= k <= |ops| ensures Run(t, ops).nextIno !in Run(t, ops[..k]).byIno {
      RunSplits(t, ops, k);
      RunKeepsTable(t, ops[..k]);
      RunKeepsTable(Run(t, ops[..k]), ops[k..]);
    }
  }

  /** The path map carries no information of its own: it is determined by the number map. */
  lemma {:induction false} ByPathDetermined(a: Table, b: Table)
    requires Inverse(a) && Inverse(b) && a.byIno == b.byIno
    ensures a.byPath == b.byPath
  {
    assert forall p :: p in a.byPath ==> p in b.byPath && a.byPath[p] == b.byPath[p];
    assert forall p :: p in b.byPath ==> p in a.byPath;
  }

  // ----- The table as the driver holds it -----

  class InodeTable {
    var nextIno: nat
    var byIno: map<nat, Entry>
    var byPath: map<InodePath, nat>

    ghost function View(): (t: Table)
      reads this
    {
      Table(byIno, byPath, nextIno)
    }

    constructor ()
      ensures View() == Fresh()
      ensures Inverse(View()) && RootAtOne(View())
    {
      nextIno := 2;
      byIno := map[ROOT_INO := Entry(Root, None, false)];
      byPath := map[Root := ROOT_INO];
    }

    method GetOrAssign(path: InodePath) returns (ino: nat)
      requires Inverse(View())
      modifies this
      ensures Inverse(View())
      ensures View() == Assign(old(View()), path)
      ensures path in byPath && byPath[path] == ino
    {
      if path in byPath {
        return byPath[path];
      }
      ino := nextIno;
      nextIno := nextIno + 1;
      byIno := byIno[ino := Entry(path, None, false)];
      byPath := byPath[path := ino];
    }

    /** Moves a path mapping, keeping number and cached metadata; a stale holder of `to` is dropped. */
    method RepathTo(from: InodePath, to: InodePath)
      requires Inverse(View())
      modifies this
      ensures Inverse(View())
      ensures View() == Repath(old(View()), from, to)
      ensures old(from in byPath) ==> to in byPath && byPath[to] == old(byPath[from])
    {
      if from !in byPath {
        return;
      }
      var ino := byPath[from];
      byPath := byPath - {from};
      if ino in byIno {
        byIno := byIno[ino := byIno[ino].(path := to)];
      }
      if to in byPath && byPath[to] != ino {
        byIno := byIno - {byPath[to]};
      }
      byPath := byPath[to := ino];
    }

    method Evict(ino: nat)
      requires Inverse(View())
      modifies this
      ensures Inverse(View())
      ensures View() == Remove(old(View()), ino)
      ensures ino !in byIno
    {
      if ino in byIno {
        byPath := byPath - {byIno[ino].path};
        byIno := byIno - {ino};
      }
    }
  }
}
