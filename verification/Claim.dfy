/**
 * Claiming a new bucket. Any number of first writers race; each creates the bucket, reads its
 * configuration, and if it was told that it created the bucket, stores itself as owner with a fresh
 * epoch-0 key and reads back. One step below is one storage call of one claimer.
 */
module Claim {
  import opened Base
  import opened BucketKeys

  type Pid = nat

  datatype Claimer =
    | Creating(user: string)
    | Reading(user: string, created: bool)
    | Persisting(cfg: BucketConfig)
    | ReadingBack
    | Returned(cfg: BucketConfig, created: bool)
    | Failed

  datatype Action =
    | Arrive(pid: Pid, user: string)
    /**
     * The claimer's next storage call. `created` is what a create call reports; `key` is the key
     * material a winning claimer generates, or `None` when that fails.
     */
    | Call(pid: Pid, fault: Fault, created: bool, key: Option<KeyVersion>)
    | Crash(pid: Pid)

  /** `winners` were told that they created the bucket; `persisted` lists every configuration stored. */
  datatype State = State(cfg: BucketConfig, claimers: map<Pid, Claimer>, winners: set<Pid>,
                         persisted: seq<(Pid, BucketConfig)>)

  const Unclaimed := BucketConfig(None, map[], [])

  const Initial := State.State(Unclaimed, map[], {}, [])

  function Called(s: State, pid: Pid, fault: Fault, created: bool, key: Option<KeyVersion>): State
    requires pid in s.claimers
  {
    match s.claimers[pid]
    case Creating(user) =>
      if !fault.Works? then s.(claimers := s.claimers[pid := Failed])
      else
        s.(claimers := s.claimers[pid := Reading(user, created)],
           winners := if created then s.winners + {pid} else s.winners)
    case Reading(user, won) =>
      if !fault.Works? then s.(claimers := s.claimers[pid := Failed])
      else if won && s.cfg.owner.None? then
        var next :=
          if key.None? then Failed
          else Persisting(s.cfg.(owner := Some(user), keys := s.cfg.keys + [key.value]));
        s.(claimers := s.claimers[pid := next])
      else s.(claimers := s.claimers[pid := Returned(s.cfg, won)])
    case Persisting(cfg) =>
      var t := s.(claimers := s.claimers[pid := if fault.Works? then ReadingBack else Failed]);
      if fault.FailsBefore? then t else t.(cfg := cfg, persisted := s.persisted + [(pid, cfg)])
    case ReadingBack =>
      s.(claimers := s.claimers[pid := if fault.Works? then Returned(s.cfg, true) else Failed])
    case _ => s
  }

  function Step(s: State, a: Action): State {
    match a
    case Arrive(pid, user) => if pid in s.claimers then s else s.(claimers := s.claimers[pid := Creating(user)])
    case Call(pid, fault, created, key) => if pid in s.claimers then Called(s, pid, fault, created, key) else s
    case Crash(pid) => if pid in s.claimers then s.(claimers := s.claimers[pid := Failed]) else s
  }

  function Run(actions: Trace<Action>): State {
    match actions
    case Begin => Initial
    case Then(earlier, a) => Step(Run(earlier), a)
  }

  // ----- What every run keeps -----

  ghost predicate WasPersisted(s: State, cfg: BucketConfig) {
    exists i :: 0 <= i < |s.persisted| && s.persisted[i].1 == cfg
  }

  /** Each winner stores at most once, and only winners store. */
  ghost predicate StoresOnce(s: State) {
    && (forall i :: 0 <= i < |s.persisted| ==> s.persisted[i].0 in s.winners)
    && (forall i, j :: 0 <= i < j < |s.persisted| ==> s.persisted[i].0 != s.persisted[j].0)
    && (forall p :: p in s.winners ==> p in s.claimers && !s.claimers[p].Creating?)
    && (forall p :: p in s.claimers ==> match s.claimers[p]
          case Reading(_, won) => won ==> p in s.winners && forall i :: 0 <= i < |s.persisted| ==> s.persisted[i].0 != p
          case Persisting(_) => p in s.winners && forall i :: 0 <= i < |s.persisted| ==> s.persisted[i].0 != p
          case _ => true)
  }

  /** What is stored or was returned is the unclaimed configuration or one that was stored. */
  ghost predicate Sourced(s: State) {
    && (s.cfg == Unclaimed || WasPersisted(s, s.cfg))
    && (s.persisted != [] ==> s.cfg == s.persisted[|s.persisted| - 1].1)
    && (forall p :: p in s.claimers && s.claimers[p].Returned? ==>
          s.claimers[p].cfg == Unclaimed || WasPersisted(s, s.claimers[p].cfg))
  }

  /** A configuration about to be stored gives one owner and one key to the unclaimed bucket. */
  predicate FirstClaim(cfg: BucketConfig) {
    cfg.owner.Some? && cfg.acl == map[] && |cfg.keys| == 1
  }

  ghost predicate OneKeyEach(s: State) {
    && (forall p :: p in s.claimers && s.claimers[p].Persisting? ==> FirstClaim(s.claimers[p].cfg))
    && (forall i :: 0 <= i < |s.persisted| ==> FirstClaim(s.persisted[i].1))
  }

  lemma {:induction false} StepStoresOnce(s: State, a: Action)
    requires StoresOnce(s)
    ensures StoresOnce(Step(s, a))
  {
  }

  lemma {:induction false} StaysPersisted(s: State, t: State, cfg: BucketConfig)
    requires t.persisted == s.persisted || exists x :: t.persisted == s.persisted + [x]
    ensures WasPersisted(s, cfg) ==> WasPersisted(t, cfg)
  {
    if i :| 0 <= i < |s.persisted| && s.persisted[i].1 == cfg {
      assert t.persisted[i].1 == cfg;
    }
  }

  /** A call stores nothing, or stores one configuration that is then the current one. */
  lemma {:induction false} StepStores(s: State, a: Action)
    ensures var t := Step(s, a);
            || (t.persisted == s.persisted && t.cfg == s.cfg)
            || (exists pid :: t.persisted == s.persisted + [(pid, t.cfg)])
    ensures var t := Step(s, a);
            forall p :: p in t.claimers && t.claimers[p].Returned? ==>
              (p in s.claimers && s.claimers[p] == t.claimers[p]) || t.claimers[p].cfg == s.cfg
  {
  }

  lemma {:induction false} StepSourced(s: State, a: Action)
    requires Sourced(s)
    ensures Sourced(Step(s, a))
  {
    var t := Step(s, a);
    StepStores(s, a);
    StaysPersisted(s, t, s.cfg);
    if t.persisted != s.persisted {
      assert t.persisted[|s.persisted|].1 == t.cfg;
    }
    forall p | p in t.claimers && t.claimers[p].Returned?
      ensures t.claimers[p].cfg == Unclaimed || WasPersisted(t, t.claimers[p].cfg)
    {
      StaysPersisted(s, t, t.claimers[p].cfg);
    }
  }

  lemma {:induction false} StepOneKeyEach(s: State, a: Action)
    requires Sourced(s) && OneKeyEach(s)
    ensures OneKeyEach(Step(s, a))
  {
  }

  lemma {:induction false} RunInvariant(actions: Trace<Action>)
    ensures var s := Run(actions); StoresOnce(s) && Sourced(s) && OneKeyEach(s)
  {
    if actions.Then? {
      RunInvariant(actions.earlier);
      StepStoresOnce(Run(actions.earlier), actions.last);
      StepSourced(Run(actions.earlier), actions.last);
      StepOneKeyEach(Run(actions.earlier), actions.last);
    }
  }

  lemma {:induction false} DistinctWithin(log: seq<(Pid, BucketConfig)>, winners: set<Pid>)
    requires forall i :: 0 <= i < |log| ==> log[i].0 in winners
    requires forall i, j :: 0 <= i < j < |log| ==> log[i].0 != log[j].0
    ensures |log| <= |winners|
    decreases |log|
  {
    if log != [] {
      var n := |log| - 1;
      DistinctWithin(log[..n], winners - {log[n].0});
    }
  }

  /** In every interleaving, no more configurations are stored than callers were told they created the bucket. */
  lemma {:induction false} StoresNeverExceedWinners(actions: Trace<Action>)
    ensures |Run(actions).persisted| <= |Run(actions).winners|
  {
    RunInvariant(actions);
    DistinctWithin(Run(actions).persisted, Run(actions).winners);
  }

  /**
   * If the storage tells at most one caller that it created the bucket, then at most one owner and
   * one key are ever stored, they stay, and every caller that got key material back got that key.
   */
  lemma {:induction false} OneWinnerOneKey(actions: Trace<Action>, p: Pid, q: Pid)
    requires |Run(actions).winners| <= 1
    ensures var s := Run(actions);
            && |s.persisted| <= 1
            && (s.persisted != [] ==> s.cfg == s.persisted[0].1 && |s.cfg.keys| == 1)
            && (p in s.claimers && s.claimers[p].Returned? && s.claimers[p].cfg.keys != [] ==>
                  s.persisted != [] && s.claimers[p].cfg == s.persisted[0].1)
            && (p in s.claimers && s.claimers[p].Returned? && s.claimers[p].cfg.keys != []
                && q in s.claimers && s.claimers[q].Returned? && s.claimers[q].cfg.keys != [] ==>
                  s.claimers[p].cfg == s.claimers[q].cfg)
  {
    RunInvariant(actions);
    StoresNeverExceedWinners(actions);
  }

  // ----- Which configuration a claimer gets -----

  /** How many configurations had been stored when each claimer last read, successfully. */
  function Noted(seen: map<Pid, nat>, s: State, a: Action): map<Pid, nat> {
    if a.Call? && a.fault.Works? && a.pid in s.claimers
       && (s.claimers[a.pid].Reading? || s.claimers[a.pid].ReadingBack?)
    then seen[a.pid := |s.persisted|]
    else seen
  }

  function LastReads(actions: Trace<Action>): map<Pid, nat> {
    match actions
    case Begin => map[]
    case Then(earlier, a) => Noted(LastReads(earlier), Run(earlier), a)
  }

  /** What was on disk after the first `n` configurations had been stored. */
  function StoredAfter(s: State, n: nat): BucketConfig
    requires n <= |s.persisted|
  {
    if n == 0 then Unclaimed else s.persisted[n - 1].1
  }

  ghost predicate Told(s: State, seen: map<Pid, nat>) {
    && s.cfg == StoredAfter(s, |s.persisted|)
    && forall p :: p in s.claimers && s.claimers[p].Returned? ==>
         p in seen && seen[p] <= |s.persisted| && s.claimers[p].cfg == StoredAfter(s, seen[p])
  }

  lemma {:induction false} StepKeepsTold(s: State, seen: map<Pid, nat>, a: Action)
    requires Told(s, seen)
    ensures Told(Step(s, a), Noted(seen, s, a))
  {
    var t := Step(s, a);
    StepStores(s, a);
    assert forall n :: 0 <= n <= |s.persisted| ==> StoredAfter(t, n) == StoredAfter(s, n);
  }

  /** Every claimer returns what was on disk at its last read. */
  lemma {:induction false} RunIsTold(actions: Trace<Action>)
    ensures Told(Run(actions), LastReads(actions))
  {
    if actions.Then? {
      RunIsTold(actions.earlier);
      StepKeepsTold(Run(actions.earlier), LastReads(actions.earlier), actions.last);
    }
  }

  ghost predicate MintedBy(actions: Trace<Action>, p: Pid, key: KeyVersion) {
    exists fault, created :: Occurs(Call(p, fault, created, Some(key)), actions)
  }

  /** Key material is random: no two claimers generate the same. */
  ghost predicate FreshKeys(actions: Trace<Action>) {
    forall p, q, a, b :: MintedBy(actions, p, a) && MintedBy(actions, q, b) && p != q ==> a != b
  }

  ghost predicate Minted(s: State, actions: Trace<Action>) {
    && (forall p :: p in s.claimers && s.claimers[p].Persisting? ==>
          LastKey(s.claimers[p].cfg).Some? && MintedBy(actions, p, LastKey(s.claimers[p].cfg).value))
    && (forall i :: 0 <= i < |s.persisted| ==>
          LastKey(s.persisted[i].1).Some? && MintedBy(actions, s.persisted[i].0, LastKey(s.persisted[i].1).value))
  }

  lemma {:induction false} StaysMinted(actions: Trace<Action>, a: Action, p: Pid, key: KeyVersion)
    ensures MintedBy(actions, p, key) ==> MintedBy(Then(actions, a), p, key)
    ensures a.Call? && a.pid == p && a.key == Some(key) ==> MintedBy(Then(actions, a), p, key)
  {
    if fault, created :| Occurs(Call(p, fault, created, Some(key)), actions) {
      assert Occurs(Call(p, fault, created, Some(key)), Then(actions, a));
    }
    if a.Call? && a.pid == p && a.key == Some(key) {
      assert Occurs(Call(p, a.fault, a.created, Some(key)), Then(actions, a));
    }
  }

  function LastKey(cfg: BucketConfig): Option<KeyVersion> {
    CurrentKey(cfg.keys)
  }

  /** A claimer comes to the point of storing with the key it generated, and stores what it came with. */
  lemma {:induction false} StepMints(s: State, a: Action)
    ensures var t := Step(s, a);
            forall p :: p in t.claimers && t.claimers[p].Persisting? ==>
              || (p in s.claimers && s.claimers[p] == t.claimers[p])
              || (a.Call? && a.pid == p && a.key.Some? && LastKey(t.claimers[p].cfg) == a.key)
    ensures var t := Step(s, a);
            || t.persisted == s.persisted
            || (a.Call? && a.pid in s.claimers && s.claimers[a.pid].Persisting?
                && t.persisted == s.persisted + [(a.pid, s.claimers[a.pid].cfg)])
  {
  }

  lemma {:induction false} RunIsMinted(actions: Trace<Action>)
    ensures Minted(Run(actions), actions)
  {
    if actions.Then? {
      var s, t, a := Run(actions.earlier), Run(actions), actions.last;
      RunIsMinted(actions.earlier);
      StepMints(s, a);
      forall p | p in t.claimers && t.claimers[p].Persisting?
        ensures LastKey(t.claimers[p].cfg).Some? && MintedBy(actions, p, LastKey(t.claimers[p].cfg).value)
      {
        StaysMinted(actions.earlier, a, p, LastKey(t.claimers[p].cfg).value);
      }
      forall i | 0 <= i < |t.persisted|
        ensures LastKey(t.persisted[i].1).Some? && MintedBy(actions, t.persisted[i].0, LastKey(t.persisted[i].1).value)
      {
        assert i < |s.persisted| ==> t.persisted[i] == s.persisted[i];
        StaysMinted(actions.earlier, a, t.persisted[i].0, LastKey(t.persisted[i].1).value);
      }
    }
  }

  /** With fresh keys, no two stored configurations are equal. */
  lemma {:induction false} StoredDiffer(actions: Trace<Action>, i: nat, j: nat)
    requires FreshKeys(actions) && i < j < |Run(actions).persisted|
    ensures Run(actions).persisted[i].1 != Run(actions).persisted[j].1
  {
    RunInvariant(actions);
    RunIsMinted(actions);
  }

  /**
   * The exact condition for two claimers to converge: of those that return key material, two return the
   * same configuration if and only if nothing was stored between their last reads.
   */
  lemma {:induction false} SameConfigIffNothingStoredBetween(actions: Trace<Action>, p: Pid, q: Pid)
    requires FreshKeys(actions) && p in Run(actions).claimers && q in Run(actions).claimers
    requires Run(actions).claimers[p].Returned? && Run(actions).claimers[p].cfg.keys != []
    requires Run(actions).claimers[q].Returned? && Run(actions).claimers[q].cfg.keys != []
    ensures p in LastReads(actions) && q in LastReads(actions)
    ensures Run(actions).claimers[p].cfg == Run(actions).claimers[q].cfg <==>
            LastReads(actions)[p] == LastReads(actions)[q]
  {
    RunIsTold(actions);
    var m, n := LastReads(actions)[p], LastReads(actions)[q];
    if m < n {
      StoredDiffer(actions, m - 1, n - 1);
    } else if n < m {
      StoredDiffer(actions, n - 1, m - 1);
    }
  }

  /**
   * A claimer's key material is the one on disk now, so that what it encrypts can be decrypted, if and
   * only if nothing was stored after its last read.
   */
  lemma {:induction false} CurrentIffNothingStoredAfter(actions: Trace<Action>, p: Pid)
    requires FreshKeys(actions) && p in Run(actions).claimers
    requires Run(actions).claimers[p].Returned? && Run(actions).claimers[p].cfg.keys != []
    ensures p in LastReads(actions)
    ensures Run(actions).claimers[p].cfg == Run(actions).cfg <==> LastReads(actions)[p] == |Run(actions).persisted|
  {
    RunIsTold(actions);
    var n := LastReads(actions)[p];
    if n < |Run(actions).persisted| {
      StoredDiffer(actions, n - 1, |Run(actions).persisted| - 1);
    }
  }

  /** Two claimers that are both told they created the bucket, up to where both are about to store. */
  lemma {:induction false} BothAboutToStore(a: KeyVersion, b: KeyVersion) returns (actions: Trace<Action>)
    ensures var s := Run(actions);
            && s.claimers == map[0 := Persisting(BucketConfig(Some("a"), map[], [a])),
                                 1 := Persisting(BucketConfig(Some("b"), map[], [b]))]
            && s.winners == {0, 1} && s.persisted == [] && s.cfg == Unclaimed
  {
    var one := Then(Begin, Arrive(0, "a"));
    assert Run(one).claimers == map[0 := Creating("a")];
    var two := Then(one, Arrive(1, "b"));
    assert Run(two).claimers == map[0 := Creating("a"), 1 := Creating("b")];
    var three := Then(two, Call(0, Works, true, None));
    assert Run(three).claimers == map[0 := Reading("a", true), 1 := Creating("b")];
    var four := Then(three, Call(1, Works, true, None));
    assert Run(four).claimers == map[0 := Reading("a", true), 1 := Reading("b", true)];
    assert Run(four).winners == {0, 1};
    var five := Then(four, Call(0, Works, true, Some(a)));
    assert Run(five).claimers[1] == Reading("b", true);
    actions := Then(five, Call(1, Works, true, Some(b)));
    assert Unclaimed.keys + [a] == [a] && Unclaimed.keys + [b] == [b];
    assert Run(actions).claimers[0] == Persisting(BucketConfig(Some("a"), map[], [a]));
    assert Run(actions).claimers[1] == Persisting(BucketConfig(Some("b"), map[], [b]));
  }

  /** With two winners, claimers can be handed different key material: the second stores after the first has read. */
  lemma {:induction false} TwoWinnersCanDiverge(a: KeyVersion, b: KeyVersion) returns (actions: Trace<Action>)
    requires a != b
    ensures var s := Run(actions);
            && 0 in s.claimers && s.claimers[0] == Returned(BucketConfig(Some("a"), map[], [a]), true)
            && 1 in s.claimers && s.claimers[1] == Returned(BucketConfig(Some("b"), map[], [b]), true)
            && |s.winners| == 2
  {
    var start := BothAboutToStore(a, b);
    var stored := Then(start, Call(0, Works, true, None));
    assert Run(stored).claimers[0] == ReadingBack;
    var first := Then(stored, Call(0, Works, true, None));
    assert Run(first).claimers[0] == Returned(BucketConfig(Some("a"), map[], [a]), true);
    var again := Then(first, Call(1, Works, true, None));
    assert Run(again).claimers[1] == ReadingBack;
    actions := Then(again, Call(1, Works, true, None));
  }

  // ----- The server's code -----

  class BucketStore {
    var exists_: bool
    var cfg: BucketConfig

    /** Create-if-absent is not atomic, so what it reports is not tied to `exists_`. */
    method CreateBucket(fault: Fault)
      modifies this`exists_
      ensures exists_ == (old(exists_) || !fault.FailsBefore?)
    {
      if !fault.FailsBefore? {
        exists_ := true;
      }
    }

    method SetConfig(new_: BucketConfig, fault: Fault)
      modifies this`cfg
      ensures cfg == if fault.FailsBefore? then old(cfg) else new_
    {
      if !fault.FailsBefore? {
        cfg := new_;
      }
    }
  }

  /** `after` is `before` and then calls of `pid` alone. */
  ghost predicate Continues(before: Trace<Action>, after: Trace<Action>, pid: Pid) {
    after == before ||
    (after.Then? && after.last.Call? && after.last.pid == pid && Continues(before, after.earlier, pid))
  }

  /** A continuation that ends with this configuration stored. */
  ghost predicate Traces(before: Trace<Action>, after: Trace<Action>, pid: Pid, cfg: BucketConfig, c: Claimer) {
    && Continues(before, after, pid)
    && var s := Run(after); s.cfg == cfg && pid in s.claimers && s.claimers[pid] == c
  }

  lemma {:induction false} TraceCall(before: Trace<Action>, after: Trace<Action>, pid: Pid, cfg: BucketConfig,
                                     c: Claimer, fault: Fault, created: bool, key: Option<KeyVersion>)
    requires Traces(before, after, pid, cfg, c)
    ensures var t := Called(Run(after), pid, fault, created, key);
            && Run(Then(after, Call(pid, fault, created, key))) == t && pid in t.claimers
            && Traces(before, Then(after, Call(pid, fault, created, key)), pid, t.cfg, t.claimers[pid])
  {
  }

  /** How the calls of a claim go, and whether the first one reports that it created the bucket. */
  datatype Calls = Calls(create: Fault, created: bool, read: Fault, write: Fault, readBack: Fault)

  /**
   * One claim. It is one claimer of the runs above. It succeeds if and only if the bucket can be created
   * and read and, where the caller is told that it created an unowned bucket, the user has four usable
   * personas and storing and reading back work. In that case the stored and returned configuration names
   * this user as owner, and the added key is readable by the claiming persona alone; in the other one
   * nothing is stored.
   */
  method ClaimOwnership(store: BucketStore, pid: Pid, users: map<string, UserRecord>, bucket: string, session: Session,
                        sk: Key, bwk: Key, draw: (string, nat) -> Key, calls: Calls, ghost before: Trace<Action>)
    returns (r: Result<(BucketConfig, bool)>, ghost after: Trace<Action>)
    requires NeverDraws(draw, bwk) && Traces(before, before, pid, store.cfg, Creating(session.user))
    modifies store
    ensures Traces(before, after, pid, store.cfg, if r.Ok? then Returned(r.value.0, r.value.1) else Failed)
    ensures r.Ok? <==>
              && calls.create == Works && calls.read == Works
              && (calls.created && old(store.cfg).owner == None ==>
                    && session.user in users && FourPersonas(users[session.user])
                    && calls.write == Works && calls.readBack == Works)
    ensures r.Ok? ==> r.value == (store.cfg, calls.created)
    ensures r.Ok? && !(r.value.1 && old(store.cfg).owner.None?) ==> store.cfg == old(store.cfg)
    ensures r.Ok? && r.value.1 && old(store.cfg).owner.None? ==>
              && store.cfg.owner == Some(session.user) && store.cfg.acl == old(store.cfg).acl
              && |store.cfg.keys| == |old(store.cfg).keys| + 1
              && store.cfg.keys[..|old(store.cfg).keys|] == old(store.cfg).keys
              && forall user, slot: nat, id: Identity ::
                   ReadKey([store.cfg.keys[|store.cfg.keys| - 1]], bucket, 0, user, slot, id).Ok? <==>
                       OwnerReader(users, session, user, slot, id)
  {
    ghost var cfg0 := store.cfg;
    var fault, created := calls.create, calls.created;
    store.CreateBucket(fault);
    TraceCall(before, before, pid, cfg0, Creating(session.user), fault, created, None);
    after := Then(before, Call(pid, fault, created, None));
    if !fault.Works? {
      return Err(Internal), after;
    }
    fault := calls.read;
    var cfg := store.cfg;
    if !fault.Works? || !created || cfg.owner.Some? {
      TraceCall(before, after, pid, cfg0, Reading(session.user, created), fault, created, None);
      after := Then(after, Call(pid, fault, created, None));
      return if fault.Works? then Ok((cfg, created)) else Err(Internal), after;
    }
    var key := NewOwnerKey(users, bucket, session, sk, bwk, draw);
    var minted := if key.Ok? then Some(key.value) else None;
    TraceCall(before, after, pid, cfg0, Reading(session.user, created), fault, created, minted);
    after := Then(after, Call(pid, fault, created, minted));
    if key.Err? {
      return Err(Internal), after;
    }
    cfg := cfg.(owner := Some(session.user), keys := cfg.keys + [key.value]);
    fault := calls.write;
    store.SetConfig(cfg, fault);
    TraceCall(before, after, pid, cfg0, Persisting(cfg), fault, created, None);
    after := Then(after, Call(pid, fault, created, None));
    if !fault.Works? {
      return Err(Internal), after;
    }
    fault := calls.readBack;
    TraceCall(before, after, pid, store.cfg, ReadingBack, fault, created, None);
    after := Then(after, Call(pid, fault, created, None));
    return if fault.Works? then Ok((store.cfg, created)) else Err(Internal), after;
  }
}
