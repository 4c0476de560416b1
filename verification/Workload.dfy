/**
 * The mixed workload: any number of workers run puts, reads and deletes against one pool and one
 * server. A step is one call of one worker, in the order each operation makes them.
 */
module Workload {
  import opened Base
  import opened Pools

  datatype Worker =
    | Idle
    | Putting(key: Key)
    | Publishing(key: Key)
    | Reading(key: Key)
    | Releasing(key: Key)
    | Deleting(key: Key)
    | Returning(key: Key)

  datatype Action =
    | BeginPut(w: nat)
    | BeginRead(w: nat, idx: nat)
    | BeginDelete(w: nat, start: nat)
    | Next(w: nat, fault: Fault)

  /**
   * `server` holds the objects that exist; `doubtful` the keys of deletes that reported an error
   * after the object was gone.
   */
  datatype State = State(pool: Pool, next: nat, workers: map<nat, Worker>, server: set<Key>, doubtful: set<Key>)

  function At(s: State, w: nat): Worker {
    if w in s.workers then s.workers[w] else Idle
  }

  function Goes(s: State, w: nat, to: Worker): State {
    s.(workers := s.workers[w := to])
  }

  function Began(s: State, a: Action): State
    requires !a.Next?
  {
    match a
    case BeginPut(w) => Goes(s.(next := s.next + 1), w, Putting(s.next))
    case BeginRead(w, idx) =>
      if idx >= |s.pool.keys| then s
          else Goes(s.(pool := Leased(s.pool, s.pool.keys[idx])), w, Reading(s.pool.keys[idx]))
    case BeginDelete(w, start) =>
      if start >= |s.pool.keys| then s
      else
        var at := FirstFree(s.pool, start, 0);
        if at.None? then s
        else Goes(s.(pool := s.pool.(keys := SwapRemove(s.pool.keys, at.value))), w, Deleting(s.pool.keys[at.value]))
  }

  function Advanced(s: State, w: nat, fault: Fault): State {
    match At(s, w)
    case Idle => s
    case Putting(key) =>
      var server := if fault.FailsBefore? then s.server else s.server + {key};
      Goes(s.(server := server), w, if fault.Works? then Publishing(key) else Idle)
    case Publishing(key) => Goes(s.(pool := Added(s.pool, key)), w, Idle)
    case Reading(key) => Goes(s, w, Releasing(key))
    case Releasing(key) => Goes(s.(pool := Released(s.pool, key)), w, Idle)
    case Deleting(key) =>
      var server := if fault.FailsBefore? then s.server else s.server - {key};
      var doubtful := if fault.FailsAfter? then s.doubtful + {key} else s.doubtful;
      Goes(s.(server := server, doubtful := doubtful), w, if fault.Works? then Idle else Returning(key))
    case Returning(key) => Goes(s.(pool := Added(s.pool, key)), w, Idle)
  }

  function Step(s: State, a: Action): State {
    match a
    case Next(w, fault) => Advanced(s, w, fault)
    case _ => if At(s, a.w).Idle? then Began(s, a) else s
  }

  /** The prepared objects have numbers below `objects`; puts number from there on. */
  function Start(prepared: seq<Key>, objects: nat, cap: nat): State {
    State(Pool(prepared, map[], cap), objects, map[], set k | k in prepared, {})
  }

  function Run(s: State, actions: Trace<Action>): State {
    match actions
    case Begin => s
    case Then(earlier, a) => Step(Run(s, earlier), a)
  }

  // ----- What every step keeps -----

  /** The key a worker has to itself: being created, or taken out for deletion. */
  function Owned(w: Worker): Option<Key> {
    match w
    case Putting(key) => Some(key)
    case Publishing(key) => Some(key)
    case Deleting(key) => Some(key)
    case Returning(key) => Some(key)
    case _ => None
  }

  predicate Reads(w: Worker, key: Key) {
    w == Reading(key) || w == Releasing(key)
  }

  function ReadersOf(workers: map<nat, Worker>, key: Key): set<nat> {
    set w | w in workers && Reads(workers[w], key)
  }

  /** Every key is in one place: in the pool once, or owned by one worker. */
  ghost predicate OnePlace(s: State) {
    && Distinct(s.pool.keys)
    && (forall k :: k in s.pool.keys ==> k < s.next)
    && (forall w :: w in s.workers && Owned(s.workers[w]).Some? ==>
          Owned(s.workers[w]).value < s.next && Owned(s.workers[w]).value !in s.pool.keys)
    && (forall v, w :: v in s.workers && w in s.workers && v != w && Owned(s.workers[v]).Some? ==>
          Owned(s.workers[v]) != Owned(s.workers[w]))
  }

  /** Lease counts are the outstanding reads. */
  ghost predicate Counted(s: State) {
    forall k :: (if k in s.pool.readers then s.pool.readers[k] else 0) == |ReadersOf(s.workers, k)|
  }

  /** No zero counts, and what is leased is pooled. */
  ghost predicate LeasesPooled(s: State) {
    forall k :: k in s.pool.readers ==> s.pool.readers[k] > 0 && k in s.pool.keys
  }

  predicate Live(s: State, k: Key) {
    k in s.server || k in s.doubtful
  }

  /** Pooled keys and keys on their way to or from the pool have an object behind them. */
  ghost predicate Backed(s: State) {
    && (forall k :: k in s.pool.keys ==> Live(s, k))
    && (forall w :: w in s.workers ==> match s.workers[w]
          case Publishing(key) => Live(s, key)
          case Deleting(key) => Live(s, key)
          case Returning(key) => Live(s, key)
          case _ => true)
  }

  ghost predicate Invariant(s: State) {
    OnePlace(s) && Counted(s) && LeasesPooled(s) && Backed(s)
  }

  lemma {:induction false} SwapRemoveMeaning(keys: seq<Key>, i: nat)
    requires i < |keys| && Distinct(keys)
    ensures Distinct(SwapRemove(keys, i))
    ensures forall k :: k in SwapRemove(keys, i) <==> k in keys && k != keys[i]
  {
    var last := |keys| - 1;
    var after := SwapRemove(keys, i);
    forall k | k in keys && k != keys[i] ensures k in after {
      var j :| 0 <= j < |keys| && keys[j] == k;
      assert after[if j == last then i else j] == k;
    }
  }

  lemma {:induction false} ReadersAfter(workers: map<nat, Worker>, w: nat, to: Worker, k: Key)
    ensures ReadersOf(workers[w := to], k) == if Reads(to, k) then ReadersOf(workers, k) + {w}
              else ReadersOf(workers, k) - {w}
  {
  }

  /** One worker moves on: what keeps every key in one place. */
  lemma {:induction false} MoveKeepsOnePlace(s: State, t: State, w: nat, to: Worker)
    requires OnePlace(s) && t.workers == s.workers[w := to] && s.next <= t.next && Distinct(t.pool.keys)
    requires forall k :: k in t.pool.keys ==> k in s.pool.keys || (Owned(At(s, w)) == Some(k) && Owned(to).None?)
    requires Owned(to).Some? ==>
               var k := Owned(to).value;
               k < t.next && k !in t.pool.keys && (k in s.pool.keys || Owned(At(s, w)) == Some(k) || s.next <= k)
    ensures OnePlace(t)
  {
  }

  lemma {:induction false} StepKeepsOnePlace(s: State, a: Action)
    requires OnePlace(s)
    ensures OnePlace(Step(s, a))
  {
    var t := Step(s, a);
    if a.BeginDelete? && a.start < |s.pool.keys| && FirstFree(s.pool, a.start, 0).Some? {
      SwapRemoveMeaning(s.pool.keys, FirstFree(s.pool, a.start, 0).value);
      assert s.pool.keys[FirstFree(s.pool, a.start, 0).value] in s.pool.keys;
    }
    if t != s {
      assert a.BeginDelete? || t.pool.keys == s.pool.keys
          || (Owned(At(s, a.w)).Some? && t.pool.keys == s.pool.keys + [Owned(At(s, a.w)).value]);
      MoveKeepsOnePlace(s, t, a.w, t.workers[a.w]);
    }
  }

  function Count(p: Pool, k: Key): nat {
    if k in p.readers then p.readers[k] else 0
  }

  lemma {:induction false} MoveKeepsCounted(s: State, t: State, w: nat, to: Worker)
    requires Counted(s) && t.workers == s.workers[w := to]
    requires forall k :: Count(t.pool, k) + (if Reads(At(s, w), k) then 1 else 0) ==
              Count(s.pool, k) + if Reads(to, k) then 1 else 0
    ensures Counted(t)
  {
    forall k ensures Count(t.pool, k) == |ReadersOf(t.workers, k)| {
      ReadersAfter(s.workers, w, to, k);
      assert Count(s.pool, k) == |ReadersOf(s.workers, k)|;
      assert w in ReadersOf(s.workers, k) <==> Reads(At(s, w), k);
    }
  }

  lemma {:induction false} StepKeepsCounted(s: State, a: Action)
    requires Counted(s)
    ensures Counted(Step(s, a))
  {
    var t := Step(s, a);
    if t != s {
      if At(s, a.w).Releasing? {
        var k := At(s, a.w).key;
        assert a.w in ReadersOf(s.workers, k);
        assert Count(s.pool, k) > 0;
      }
      MoveKeepsCounted(s, t, a.w, t.workers[a.w]);
    }
  }

  lemma {:induction false} StepKeepsLeasesPooled(s: State, a: Action)
    requires OnePlace(s) && LeasesPooled(s)
    ensures LeasesPooled(Step(s, a))
  {
    if a.BeginDelete? && a.start < |s.pool.keys| && FirstFree(s.pool, a.start, 0).Some? {
      SwapRemoveMeaning(s.pool.keys, FirstFree(s.pool, a.start, 0).value);
    }
  }

  /** The object of a running delete is nobody else's, so its removal unbacks no other key. */
  lemma {:induction false} StepKeepsLive(s: State, a: Action, k: Key)
    requires Live(s, k)
    ensures Live(Step(s, a), k) || (a.Next? && At(s, a.w) == Deleting(k) && a.fault.Works?)
  {
  }

  lemma {:induction false} StepKeepsBacked(s: State, a: Action)
    requires OnePlace(s) && Backed(s)
    ensures Backed(Step(s, a))
  {
    var t := Step(s, a);
    if a.BeginDelete? && a.start < |s.pool.keys| && FirstFree(s.pool, a.start, 0).Some? {
      SwapRemoveMeaning(s.pool.keys, FirstFree(s.pool, a.start, 0).value);
      assert s.pool.keys[FirstFree(s.pool, a.start, 0).value] in s.pool.keys;
    }
    forall k | k in t.pool.keys ensures Live(t, k) {
      if k in s.pool.keys {
        StepKeepsLive(s, a, k);
      }
    }
    forall w | w in t.workers && Owned(t.workers[w]).Some? && !t.workers[w].Putting?
      ensures Live(t, Owned(t.workers[w]).value)
    {
      if w != a.w {
        StepKeepsLive(s, a, Owned(s.workers[w]).value);
      }
    }
  }

  lemma {:induction false} StepKeepsInvariant(s: State, a: Action)
    requires Invariant(s)
    ensures Invariant(Step(s, a))
  {
    StepKeepsOnePlace(s, a);
    StepKeepsCounted(s, a);
    StepKeepsLeasesPooled(s, a);
    StepKeepsBacked(s, a);
  }

  lemma {:induction false} RunKeepsInvariant(s: State, actions: Trace<Action>)
    requires Invariant(s)
    ensures Invariant(Run(s, actions))
  {
    if actions.Then? {
      RunKeepsInvariant(s, actions.earlier);
      StepKeepsInvariant(Run(s, actions.earlier), actions.last);
    }
  }

  function Larger(a: nat, b: nat): (m: nat)
    ensures (m == a || m == b) && a <= m && b <= m
  {
    if a < b then b else a
  }

  /** The pool never grows past its cap, unless it was prepared with more. */
  lemma {:induction false} RunKeepsCap(s: State, actions: Trace<Action>)
    ensures Run(s, actions).pool.cap == s.pool.cap
    ensures |Run(s, actions).pool.keys| <= Larger(|s.pool.keys|, s.pool.cap)
  {
    if actions.Then? {
      RunKeepsCap(s, actions.earlier);
    }
  }

  lemma {:induction false} StartIsValid(prepared: seq<Key>, objects: nat, cap: nat)
    requires Distinct(prepared) && forall k :: k in prepared ==> k < objects
    ensures Invariant(Start(prepared, objects, cap))
  {
    var s := Start(prepared, objects, cap);
    forall k ensures ReadersOf(s.workers, k) == {} {
    }
  }

  /**
   * In every run: pooled keys are distinct, lease counts are the outstanding reads, a key being read
   * is pooled and not being deleted by anyone, and its object exists unless an earlier delete of it
   * reported an error after taking effect. The pool stays within its cap, or what it was prepared with.
   */
  lemma {:induction false} ReadsAreSafe(prepared: seq<Key>, objects: nat, cap: nat, actions: Trace<Action>, reader: nat,
                                        other: nat)
    requires Distinct(prepared) && forall k :: k in prepared ==> k < objects
    ensures var s := Run(Start(prepared, objects, cap), actions);
            && Distinct(s.pool.keys) && (|s.pool.keys| <= cap || |s.pool.keys| <= |prepared|)
            && (forall k :: (if k in s.pool.readers then s.pool.readers[k] else 0) == |ReadersOf(s.workers, k)|)
            && (At(s, reader).Reading? ==>
                  var k := At(s, reader).key;
                  && k in s.pool.keys && k in s.pool.readers
                  && (k in s.server || k in s.doubtful)
                  && At(s, other) != Deleting(k) && At(s, other) != Returning(k))
  {
    var s := Run(Start(prepared, objects, cap), actions);
    StartIsValid(prepared, objects, cap);
    RunKeepsInvariant(Start(prepared, objects, cap), actions);
    RunKeepsCap(Start(prepared, objects, cap), actions);
    if At(s, reader).Reading? {
      assert reader in ReadersOf(s.workers, At(s, reader).key);
    }
  }

  // ----- A worker's code -----

  datatype Op = Put | Get | Stat | Delete | List

  class Bench {
    const pool: ObjectPool
    var putSeq: nat
    var server: set<Key>
    ghost var doubtful: set<Key>

    constructor (pool: ObjectPool, putSeq: nat, server: set<Key>)
      ensures this.pool == pool && this.putSeq == putSeq && this.server == server && doubtful == {}
    {
      this.pool, this.putSeq, this.server, doubtful := pool, putSeq, server, {};
    }
  }

  ghost predicate Shows(b: Bench, s: State)
    reads b, b.pool
  {
    s.pool == b.pool.View() && s.next == b.putSeq && s.server == b.server && s.doubtful == b.doubtful
  }

  predicate OnlyBy(actions: Trace<Action>, w: nat) {
    actions.Then? ==> actions.last.w == w && OnlyBy(actions.earlier, w)
  }

  /** `now` is reached from `s` by actions of worker `w` alone. */
  ghost predicate Reaches(s: State, actions: Trace<Action>, w: nat, now: State) {
    Run(s, actions) == now && OnlyBy(actions, w)
  }

  lemma {:induction false} ReachesOneMore(s: State, actions: Trace<Action>, w: nat, now: State, a: Action)
    requires Reaches(s, actions, w, now) && a.w == w
    ensures Reaches(s, Then(actions, a), w, Step(now, a))
  {
  }

  ghost predicate OnlyWorkersDiffer(s: State, t: State) {
    t == s.(workers := t.workers)
  }

  /**
   * What one operation leaves behind. A put takes the next number and pools it if the request worked and
   * there is room. GET and STAT pick the key at the random index and change nothing. A delete picks an
   * unleased pooled key; the key leaves the pool if the request worked, and comes back otherwise. A list
   * uses no key.
   */
  ghost predicate OpEffect(op: Op, random: nat, fault: Fault, key: Option<Key>, s: State, t: State) {
    match op
    case Put =>
      && key == Some(s.next) && t.next == s.next + 1
      && t.server == (if fault == FailsBefore then s.server else s.server + {s.next}) && t.doubtful == s.doubtful
      && t.pool.readers == s.pool.readers
      && t.pool.keys == if fault == Works && |s.pool.keys| < s.pool.cap then s.pool.keys + [s.next] else s.pool.keys
    case Delete =>
      && (key.None? <==> forall i :: 0 <= i < |s.pool.keys| ==> s.pool.keys[i] in s.pool.readers)
      && (key.None? ==> OnlyWorkersDiffer(s, t))
      && (key.Some? ==>
            && key.value in s.pool.keys && key.value !in s.pool.readers
            && t.next == s.next && t.pool.readers == s.pool.readers
            && t.server == (if fault == FailsBefore then s.server else s.server - {key.value})
            && t.doubtful == (if fault == FailsAfter then s.doubtful + {key.value} else s.doubtful)
            && multiset(s.pool.keys) ==
               multiset(t.pool.keys) + if fault == Works
                   || |s.pool.keys| > s.pool.cap then multiset{key.value} else multiset{})
    case List => key == None && t == s
    case _ =>
      && key == (if random < |s.pool.keys| then Some(s.pool.keys[random]) else None)
      && OnlyWorkersDiffer(s, t)
  }

  method ExecutePut(b: Bench, w: nat, fault: Fault, ghost s: State)
    returns (key: Key, ghost actions: Trace<Action>, ghost now: State)
    requires Shows(b, s) && At(s, w).Idle?
    modifies b, b.pool
    ensures Shows(b, now) && Reaches(s, actions, w, now) && At(now, w).Idle?
    ensures OpEffect(Put, 0, fault, Some(key), s, now)
  {
    actions, now := Begin, s;
    key := b.putSeq;
    b.putSeq := key + 1;
    ReachesOneMore(s, actions, w, now, BeginPut(w));
    actions, now := Then(actions, BeginPut(w)), Step(now, BeginPut(w));
    if !fault.FailsBefore? {
      b.server := b.server + {key};
    }
    ReachesOneMore(s, actions, w, now, Next(w, fault));
    actions, now := Then(actions, Next(w, fault)), Step(now, Next(w, fault));
    if fault.Works? {
      b.pool.ReturnKey(key);
      ReachesOneMore(s, actions, w, now, Next(w, Works));
      actions, now := Then(actions, Next(w, Works)), Step(now, Next(w, Works));
    }
  }

  lemma {:induction false} LeaseAndRelease(p: Pool, key: Key)
    requires key in p.readers ==> p.readers[key] > 0
    ensures Released(Leased(p, key), key) == p
  {
  }

  /** What a read does to the state, call by call. */
  lemma {:induction false} ReadRuns(s: State, w: nat, idx: nat) returns (actions: Trace<Action>, now: State)
    requires At(s, w).Idle? && idx < |s.pool.keys|
    ensures actions == Then(Then(Then(Begin, BeginRead(w, idx)), Next(w, Works)), Next(w, Works))
              && Reaches(s, actions, w, now)
    ensures now ==
              s.(pool := Released(Leased(s.pool, s.pool.keys[idx]), s.pool.keys[idx]), workers := s.workers[w := Idle])
  {
    actions, now := Begin, s;
    ReachesOneMore(s, actions, w, now, BeginRead(w, idx));
    actions, now := Then(actions, BeginRead(w, idx)), Step(now, BeginRead(w, idx));
    ReachesOneMore(s, actions, w, now, Next(w, Works));
    actions, now := Then(actions, Next(w, Works)), Step(now, Next(w, Works));
    ReachesOneMore(s, actions, w, now, Next(w, Works));
    actions, now := Then(actions, Next(w, Works)), Step(now, Next(w, Works));
  }

  /** GET and STAT: lease, request, release; the pool is as before. */
  method ExecuteRead(b: Bench, w: nat, idx: nat, ghost s: State)
    returns (key: Option<Key>, ghost actions: Trace<Action>, ghost now: State)
    requires Shows(b, s) && At(s, w).Idle? && LeasesPooled(s) && (b.pool.keys == [] || idx < |b.pool.keys|)
    modifies b.pool
    ensures Shows(b, now) && Reaches(s, actions, w, now) && At(now, w).Idle?
    ensures OpEffect(Get, idx, Works, key, s, now)
    ensures actions == if key.None? then Begin
                       else Then(Then(Then(Begin, BeginRead(w, idx)), Next(w, Works)), Next(w, Works))
  {
    actions, now := Begin, s;
    key := b.pool.PickForGet(idx);
    if key.None? {
      return;
    }
    LeaseAndRelease(s.pool, key.value);
    actions, now := ReadRuns(s, w, idx);
    b.pool.ReleaseRead(key.value);
  }

  /** The request for a key that has been taken, and giving the key back if it failed. */
  method FinishDelete(b: Bench, w: nat, key: Key, fault: Fault, ghost s: State, ghost sofar: Trace<Action>,
                      ghost before: State)
    returns (ghost actions: Trace<Action>, ghost now: State)
    requires Shows(b, before) && Reaches(s, sofar, w, before) && At(before, w) == Deleting(key)
    modifies b, b.pool
    ensures Shows(b, now) && Reaches(s, actions, w, now) && At(now, w).Idle?
    ensures now.pool == if fault.Works? then before.pool else Added(before.pool, key)
    ensures now.next == before.next
    ensures now.server == if fault.FailsBefore? then before.server else before.server - {key}
    ensures now.doubtful == if fault.FailsAfter? then before.doubtful + {key} else before.doubtful
  {
    actions, now := sofar, before;
    if !fault.FailsBefore? {
      b.server := b.server - {key};
    }
    if fault.FailsAfter? {
      b.doubtful := b.doubtful + {key};
    }
    ReachesOneMore(s, actions, w, now, Next(w, fault));
    actions, now := Then(actions, Next(w, fault)), Step(now, Next(w, fault));
    if !fault.Works? {
      b.pool.ReturnKey(key);
      ReachesOneMore(s, actions, w, now, Next(w, Works));
      actions, now := Then(actions, Next(w, Works)), Step(now, Next(w, Works));
    }
  }

  lemma {:induction false} SwapRemoveKeeps(keys: seq<Key>, i: nat)
    requires i < |keys|
    ensures multiset(SwapRemove(keys, i)) + multiset{keys[i]} == multiset(keys)
  {
    var last := |keys| - 1;
    var swapped := keys[i := keys[last]];
    assert keys == keys[..last] + [keys[last]];
    assert swapped == swapped[..last] + [swapped[last]];
    assert swapped[last] == keys[last];
  }

  lemma {:induction false} DeleteBegins(s: State, w: nat, start: nat, pool: Pool, key: Key)
    requires At(s, w).Idle? && start < |s.pool.keys| && FirstFree(s.pool, start, 0).Some?
    requires pool == s.pool.(keys := SwapRemove(s.pool.keys, FirstFree(s.pool, start, 0).value))
    requires key == s.pool.keys[FirstFree(s.pool, start, 0).value]
    ensures Reaches(s, Then(Begin, BeginDelete(w, start)), w,
              s.(pool := pool, workers := s.workers[w := Deleting(key)]))
  {
    assert Run(s, Then(Begin, BeginDelete(w, start))) == Step(s, BeginDelete(w, start));
  }

  /** Takes an unleased key, requests its deletion, and puts it back if that failed. */
  method ExecuteDelete(b: Bench, w: nat, start: nat, fault: Fault, ghost s: State)
    returns (key: Option<Key>, ghost actions: Trace<Action>, ghost now: State)
    requires Shows(b, s) && At(s, w).Idle? && (b.pool.keys == [] || start < |b.pool.keys|)
    modifies b, b.pool
    ensures Shows(b, now) && Reaches(s, actions, w, now) && At(now, w).Idle?
    ensures OpEffect(Delete, start, fault, key, s, now)
  {
    actions, now := Begin, s;
    key := b.pool.TakeForDelete(start);
    if key.None? {
      return;
    }
    DeleteBegins(s, w, start, b.pool.View(), key.value);
    actions, now :=
        Then(Begin, BeginDelete(w, start)), s.(pool := b.pool.View(), workers := s.workers[w := Deleting(key.value)]);
    actions, now := FinishDelete(b, w, key.value, fault, s, actions, now);
    SwapRemoveKeeps(s.pool.keys, FirstFree(s.pool, start, 0).value);
  }

  /** One operation of one worker, from idle to idle, is a piece of a run of the workload. */
  method ExecuteOp(b: Bench, w: nat, op: Op, random: nat, fault: Fault, ghost s: State)
    returns (key: Option<Key>, ghost actions: Trace<Action>, ghost now: State)
    requires Shows(b, s) && At(s, w).Idle? && Invariant(s) && (b.pool.keys == [] || random < |b.pool.keys|)
    modifies b, b.pool
    ensures Shows(b, now) && Reaches(s, actions, w, now) && At(now, w).Idle? && Invariant(now)
    ensures OpEffect(op, random, fault, key, s, now)
  {
    match op {
      case Put =>
        var made;
        made, actions, now := ExecutePut(b, w, fault, s);
        key := Some(made);
      case Get => key, actions, now := ExecuteRead(b, w, random, s);
      case Stat => key, actions, now := ExecuteRead(b, w, random, s);
      case Delete => key, actions, now := ExecuteDelete(b, w, random, fault, s);
      case List => key, actions, now := None, Begin, s;
    }
    RunKeepsInvariant(s, actions);
  }
}
