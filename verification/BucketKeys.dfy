/**
 * Per-bucket key epochs. An epoch's secret key is wrapped under a wrap key that is never stored; each
 * grantee has a row of four sealed entries, one per persona, real for authorized personas and a
 * random decoy for the others. Sealing and wrapping are symbolic: they open with the right key and
 * the right associated data, and with nothing else.
 */
module BucketKeys {
  import opened Base

  const CREDENTIAL_SLOTS: nat := 4
  const MAX_RETAINED_EPOCHS: nat := 8

  /** Thirty-two byte values: wrap keys and decoys. */
  type Key = nat

  /** A persona's key pair, for the public and the secret half alike. */
  type Identity = nat

  datatype Error = Forbidden | Internal | TooManyEpochs

  datatype Result<+T> = Ok(value: T) | Err(error: Error)

  // ----- Symbolic sealing and wrapping -----

  datatype GrantAad = GrantAad(bucket: string, epoch: nat, user: string, slot: nat)

  datatype SealedKey = SealedKey(to: Identity, payload: Key, aad: GrantAad)

  function OpenSealed(id: Identity, sealed: SealedKey, aad: GrantAad): Option<Key> {
    if sealed.to == id && sealed.aad == aad then Some(sealed.payload) else None
  }

  datatype WrapAad = WrapAad(bucket: string, epoch: nat)

  datatype Wrapped = Wrapped(sk: Key, under: Key, aad: WrapAad)

  function Unwrap(blob: Wrapped, key: Key, aad: WrapAad): Option<Key> {
    if blob.under == key && blob.aad == aad then Some(blob.sk) else None
  }

  // ----- Configuration -----

  datatype Permission = Read | WriteOnly | Write | Admin

  datatype KeyVersion = KeyVersion(epoch: nat, skBlob: Wrapped, grants: map<string, seq<SealedKey>>)

  datatype BucketConfig = BucketConfig(owner: Option<string>, acl: map<string, Permission>, keys: seq<KeyVersion>)

  /** A persona's public key may be stored in a form that does not decode: `None`. */
  datatype GranteeSlots = GranteeSlots(pks: seq<Option<Identity>>, authorized: seq<bool>)

  datatype UserRecord = UserRecord(pks: seq<Option<Identity>>, primary: nat)

  datatype Session = Session(user: string, persona: nat, identity: Identity)

  // ----- Lookups -----

  function FindEpoch(keys: seq<KeyVersion>, epoch: nat): Option<KeyVersion> {
    if keys == [] then None
    else if keys[0].epoch == epoch then Some(keys[0])
    else FindEpoch(keys[1..], epoch)
  }

  function OpenBwk(keys: seq<KeyVersion>, bucket: string, epoch: nat, user: string, slot: nat,
                   id: Identity): Result<Key> {
    var kv := FindEpoch(keys, epoch);
    if kv.None? || user !in kv.value.grants then Err(Forbidden)
    else
      var row := kv.value.grants[user];
      if |row| != CREDENTIAL_SLOTS then Err(Internal)
      else if slot >= |row| then Err(Forbidden)
      else
        var bwk := OpenSealed(id, row[slot], GrantAad(bucket, epoch, user, slot));
        if bwk.None? then Err(Forbidden) else Ok(bwk.value)
  }

  function ReadKey(keys: seq<KeyVersion>, bucket: string, epoch: nat, user: string, slot: nat,
                   id: Identity): Result<Key> {
    var kv := FindEpoch(keys, epoch);
    if kv.None? then Err(Forbidden)
    else
      var bwk := OpenBwk(keys, bucket, epoch, user, slot, id);
      if bwk.Err? then Err(bwk.error)
      else
        var sk := Unwrap(kv.value.skBlob, bwk.value, WrapAad(bucket, epoch));
        if sk.None? then Err(Forbidden) else Ok(sk.value)
  }

  function OpenVerifiedBwk(keys: seq<KeyVersion>, bucket: string, epoch: nat, user: string, slot: nat,
                           id: Identity): Result<Key> {
    var kv := FindEpoch(keys, epoch);
    if kv.None? then Err(Forbidden)
    else
      var bwk := OpenBwk(keys, bucket, epoch, user, slot, id);
      if bwk.Err? then Err(bwk.error)
      else if Unwrap(kv.value.skBlob, bwk.value, WrapAad(bucket, epoch)).None? then Err(Forbidden)
      else Ok(bwk.value)
  }

  function CurrentKey(keys: seq<KeyVersion>): Option<KeyVersion> {
    if keys == [] then None else Some(keys[|keys| - 1])
  }

  predicate IsVisible(session: Session, keys: seq<KeyVersion>, bucket: string) {
    var kv := CurrentKey(keys);
    kv.Some? && ReadKey(keys, bucket, kv.value.epoch, session.user, session.persona, session.identity).Ok?
  }

  // ----- Sealed rows -----

  predicate Sealable(slots: GranteeSlots) {
    && |slots.pks| == CREDENTIAL_SLOTS && |slots.authorized| == CREDENTIAL_SLOTS
    && forall i :: 0 <= i < |slots.pks| ==> slots.pks[i].Some?
  }

  /** A row as the design wants it: every slot sealed to its persona, real exactly where authorized. */
  ghost predicate IsRow(row: seq<SealedKey>, bucket: string, epoch: nat, user: string, slots: GranteeSlots, bwk: Key) {
    && Sealable(slots) && |row| == CREDENTIAL_SLOTS
    && forall i :: 0 <= i < |row| ==>
         && row[i].to == slots.pks[i].value && row[i].aad == GrantAad(bucket, epoch, user, i)
         && (row[i].payload == bwk <==> slots.authorized[i])
  }

  /** `draw(user, i)` is the random value drawn for that user's slot; it never hits the wrap key. */
  ghost predicate NeverDraws(draw: (string, nat) -> Key, bwk: Key) {
    forall u, i: nat :: draw(u, i) != bwk
  }

  method SealGrantSlots(bucket: string, epoch: nat, user: string, slots: GranteeSlots, bwk: Key,
                        draw: (string, nat) -> Key)
    returns (r: Result<seq<SealedKey>>)
    requires NeverDraws(draw, bwk)
    ensures r.Ok? <==> Sealable(slots)
    ensures r.Ok? ==> IsRow(r.value, bucket, epoch, user, slots, bwk)
    ensures r.Err? ==> r.error == Internal
  {
    if |slots.pks| != CREDENTIAL_SLOTS || |slots.authorized| != CREDENTIAL_SLOTS {
      return Err(Internal);
    }
    var sealed: seq<SealedKey> := [];
    while |sealed| < CREDENTIAL_SLOTS
      invariant |sealed| <= CREDENTIAL_SLOTS
      invariant forall i :: 0 <= i < |sealed| ==>
                  && slots.pks[i] == Some(sealed[i].to) && sealed[i].aad == GrantAad(bucket, epoch, user, i)
                  && (sealed[i].payload == bwk <==> slots.authorized[i])
      decreases CREDENTIAL_SLOTS - |sealed|
    {
      var slot := |sealed|;
      if slots.pks[slot].None? {
        return Err(Internal);
      }
      var payload := if slots.authorized[slot] then bwk else draw(user, slot);
      sealed := sealed + [SealedKey(slots.pks[slot].value, payload, GrantAad(bucket, epoch, user, slot))];
    }
    return Ok(sealed);
  }

  // ----- What an epoch is meant to grant -----

  /** The secrets of an epoch and, for every user with a row, what the latest row was made from. */
  datatype Epoch = Epoch(sk: Key, bwk: Key, rows: map<string, GranteeSlots>)

  ghost predicate EpochFaithful(bucket: string, kv: KeyVersion, ep: Epoch) {
    && kv.skBlob == Wrapped(ep.sk, ep.bwk, WrapAad(bucket, kv.epoch))
    && kv.grants.Keys == ep.rows.Keys
    && forall u :: u in kv.grants ==> IsRow(kv.grants[u], bucket, kv.epoch, u, ep.rows[u], ep.bwk)
  }

  /** Every epoch is as meant, and epochs ascend. */
  ghost predicate Faithful(bucket: string, keys: seq<KeyVersion>, ledger: seq<Epoch>) {
    && |keys| == |ledger|
    && (forall i :: 0 <= i < |keys| ==> EpochFaithful(bucket, keys[i], ledger[i]))
    && (forall i, j :: 0 <= i < j < |keys| ==> keys[i].epoch < keys[j].epoch)
  }

  predicate HasSlot(ep: Epoch, user: string, slot: nat, id: Identity) {
    user in ep.rows && slot < CREDENTIAL_SLOTS && slot < |ep.rows[user].pks| && ep.rows[user].pks[slot] == Some(id)
  }

  /** The persona's latest row authorizes it. */
  predicate Authorized(ep: Epoch, user: string, slot: nat, id: Identity) {
    HasSlot(ep, user, slot, id) && slot < |ep.rows[user].authorized| && ep.rows[user].authorized[slot]
  }

  lemma {:induction false} FindByIndex(keys: seq<KeyVersion>, i: nat)
    requires i < |keys| && forall a, b :: 0 <= a < b < |keys| ==> keys[a].epoch < keys[b].epoch
    ensures FindEpoch(keys, keys[i].epoch) == Some(keys[i])
    decreases i
  {
    if i > 0 {
      var rest := keys[1..];
      forall a, b | 0 <= a < b < |rest| ensures rest[a].epoch < rest[b].epoch {
        assert rest[a] == keys[a + 1] && rest[b] == keys[b + 1];
      }
      FindByIndex(rest, i - 1);
    }
  }

  /**
   * Exactly the personas authorized by their latest row recover the secret key; the verified open
   * accepts exactly the same ones; the plain open accepts every sealed slot, decoys included.
   */
  lemma {:induction false} ReadableIffAuthorized(bucket: string, keys: seq<KeyVersion>, ledger: seq<Epoch>, i: nat,
                                                 user: string, slot: nat, id: Identity)
    requires Faithful(bucket, keys, ledger) && i < |keys|
    ensures var epoch := keys[i].epoch;
            var granted := Authorized(ledger[i], user, slot, id);
            && ReadKey(keys, bucket, epoch, user, slot, id) == (if granted then Ok(ledger[i].sk) else Err(Forbidden))
            && OpenVerifiedBwk(keys, bucket, epoch, user, slot, id) ==
                (if granted then Ok(ledger[i].bwk) else Err(Forbidden))
            && (OpenBwk(keys, bucket, epoch, user, slot, id).Ok? <==> HasSlot(ledger[i], user, slot, id))
  {
    FindByIndex(keys, i);
    assert EpochFaithful(bucket, keys[i], ledger[i]);
    if user in keys[i].grants {
      assert IsRow(keys[i].grants[user], bucket, keys[i].epoch, user, ledger[i].rows[user], ledger[i].bwk);
    }
  }

  /**
   * A sealed entry moved to another bucket, epoch, user or slot does not open, nor does a secret key moved to
   * another epoch.
   */
  lemma {:induction false} RelocatedNeverOpens(keys: seq<KeyVersion>, bucket: string, epoch: nat, user: string,
                                               slot: nat, id: Identity)
    requires FindEpoch(keys, epoch).Some?
    ensures var kv := FindEpoch(keys, epoch).value;
            && (user in kv.grants && |kv.grants[user]| == CREDENTIAL_SLOTS && slot < CREDENTIAL_SLOTS
                && (kv.grants[user][slot].to != id || kv.grants[user][slot].aad.bucket != bucket
                    || kv.grants[user][slot].aad.epoch != epoch || kv.grants[user][slot].aad.user != user
                    || kv.grants[user][slot].aad.slot != slot) ==>
                  OpenBwk(keys, bucket, epoch, user, slot, id) == Err(Forbidden))
            && (kv.skBlob.aad.bucket != bucket || kv.skBlob.aad.epoch != epoch ==>
                  ReadKey(keys, bucket, epoch, user, slot, id).Err?
                      && OpenVerifiedBwk(keys, bucket, epoch, user, slot, id).Err?)
  {
  }

  lemma {:induction false} CurrentKeyIsHighest(bucket: string, keys: seq<KeyVersion>, ledger: seq<Epoch>, i: nat)
    requires Faithful(bucket, keys, ledger) && i < |keys|
    ensures CurrentKey(keys).Some? && keys[i].epoch <= CurrentKey(keys).value.epoch
  {
  }

  // ----- Every sequence of epochs and grants -----

  datatype State = State(keys: seq<KeyVersion>, ledger: seq<Epoch>)

  datatype Event =
    | AddEpoch(kv: KeyVersion, ep: Epoch)
    | PutRow(at: nat, grantor: Session, user: string, slots: GranteeSlots, row: seq<SealedKey>)

  function NextEpoch(keys: seq<KeyVersion>): nat {
    if keys == [] then 0 else keys[|keys| - 1].epoch + 1
  }

  /** A new epoch is numbered after the newest; a row is sealed with a wrap key the grantor could verify. */
  ghost predicate Legal(bucket: string, s: State, e: Event) {
    match e
    case AddEpoch(kv, ep) => kv.epoch == NextEpoch(s.keys) && EpochFaithful(bucket, kv, ep)
    case PutRow(at, grantor, user, slots, row) =>
      && at < |s.keys| && at < |s.ledger|
      && var bwk := OpenVerifiedBwk(s.keys, bucket, s.keys[at].epoch, grantor.user, grantor.persona, grantor.identity);
         bwk.Ok? && IsRow(row, bucket, s.keys[at].epoch, user, slots, bwk.value)
  }

  function Step(s: State, e: Event): State {
    match e
    case AddEpoch(kv, ep) => State(s.keys + [kv], s.ledger + [ep])
    case PutRow(at, grantor, user, slots, row) =>
      if at >= |s.keys| || at >= |s.ledger| then s
      else State(s.keys[at := s.keys[at].(grants := s.keys[at].grants[user := row])],
                 s.ledger[at := s.ledger[at].(rows := s.ledger[at].rows[user := slots])])
  }

  function Run(events: seq<Event>): State
    decreases |events|
  {
    if events == [] then State([], []) else Step(Run(events[..|events| - 1]), events[|events| - 1])
  }

  ghost predicate LegalRun(bucket: string, events: seq<Event>)
    decreases |events|
  {
    events == [] ||
    (var n := |events| - 1; LegalRun(bucket, events[..n]) && Legal(bucket, Run(events[..n]), events[n]))
  }

  lemma {:induction false} StepKeepsFaithful(bucket: string, s: State, e: Event)
    requires Faithful(bucket, s.keys, s.ledger) && Legal(bucket, s, e)
    ensures var t := Step(s, e); Faithful(bucket, t.keys, t.ledger)
  {
    var t := Step(s, e);
    if e.PutRow? {
      ReadableIffAuthorized(bucket, s.keys, s.ledger, e.at, e.grantor.user, e.grantor.persona, e.grantor.identity);
      RowKeepsEpochFaithful(bucket, s.keys[e.at], s.ledger[e.at], e.user, e.slots, e.row);
    }
    forall i | 0 <= i < |t.keys| ensures EpochFaithful(bucket, t.keys[i], t.ledger[i]) {
      if i < |s.keys| {
        assert EpochFaithful(bucket, s.keys[i], s.ledger[i]);
      }
    }
  }

  lemma {:induction false} RowKeepsEpochFaithful(bucket: string, kv: KeyVersion, ep: Epoch, user: string,
                                                 slots: GranteeSlots, row: seq<SealedKey>)
    requires EpochFaithful(bucket, kv, ep) && IsRow(row, bucket, kv.epoch, user, slots, ep.bwk)
    ensures EpochFaithful(bucket, kv.(grants := kv.grants[user := row]), ep.(rows := ep.rows[user := slots]))
  {
  }

  /** After any run, reading works exactly for the personas their latest row authorized. */
  lemma {:induction false} RunIsFaithful(bucket: string, events: seq<Event>)
    requires LegalRun(bucket, events)
    ensures var s := Run(events); Faithful(bucket, s.keys, s.ledger)
    decreases |events|
  {
    if events != [] {
      var n := |events| - 1;
      RunIsFaithful(bucket, events[..n]);
      StepKeepsFaithful(bucket, Run(events[..n]), events[n]);
    }
  }

  lemma {:induction false} RunReadableIffAuthorized(bucket: string, events: seq<Event>, i: nat, user: string, slot: nat,
                                                    id: Identity)
    requires LegalRun(bucket, events) && i < |Run(events).keys|
    ensures var s := Run(events);
            && |s.ledger| == |s.keys|
            && var granted := Authorized(s.ledger[i], user, slot, id);
               && ReadKey(s.keys, bucket, s.keys[i].epoch, user, slot, id) ==
                   (if granted then Ok(s.ledger[i].sk) else Err(Forbidden))
               && OpenVerifiedBwk(s.keys, bucket, s.keys[i].epoch, user, slot, id) ==
                   (if granted then Ok(s.ledger[i].bwk) else Err(Forbidden))
               && (OpenBwk(s.keys, bucket, s.keys[i].epoch, user, slot, id).Ok? <==>
                   HasSlot(s.ledger[i], user, slot, id))
               && s.keys[i].epoch <= CurrentKey(s.keys).value.epoch
  {
    RunIsFaithful(bucket, events);
    ReadableIffAuthorized(bucket, Run(events).keys, Run(events).ledger, i, user, slot, id);
    CurrentKeyIsHighest(bucket, Run(events).keys, Run(events).ledger, i);
  }

  lemma {:induction false} FindAfterPut(keys: seq<KeyVersion>, at: nat, kv: KeyVersion, epoch: nat)
    requires at < |keys| && kv.epoch == keys[at].epoch
    ensures var found, was := FindEpoch(keys[at := kv], epoch), FindEpoch(keys, epoch);
            found == was || (was == Some(keys[at]) && found == Some(kv))
    decreases at
  {
    if at > 0 {
      assert keys[at := kv][1..] == keys[1..][at - 1 := kv];
      FindAfterPut(keys[1..], at - 1, kv, epoch);
    } else {
      assert keys[at := kv][1..] == keys[1..];
    }
  }

  /** Granting to one user changes nothing for any other user, at any epoch, slot or key. */
  lemma {:induction false} OtherUsersUnaffected(s: State, e: Event, bucket: string, epoch: nat, user: string, slot: nat,
                                                id: Identity)
    requires e.PutRow? && user != e.user
    ensures var t := Step(s, e);
            && OpenBwk(t.keys, bucket, epoch, user, slot, id) == OpenBwk(s.keys, bucket, epoch, user, slot, id)
            && ReadKey(t.keys, bucket, epoch, user, slot, id) == ReadKey(s.keys, bucket, epoch, user, slot, id)
            && OpenVerifiedBwk(t.keys, bucket, epoch, user, slot, id) ==
                OpenVerifiedBwk(s.keys, bucket, epoch, user, slot, id)
  {
    if e.at < |s.keys| {
      FindAfterPut(s.keys, e.at, s.keys[e.at].(grants := s.keys[e.at].grants[e.user := e.row]), epoch);
    }
  }

  // ----- Building an epoch -----

  function RowsOf(grantees: seq<(string, GranteeSlots)>): map<string, GranteeSlots>
    decreases |grantees|
  {
    if grantees == [] then map[]
    else
      var n := |grantees| - 1;
      RowsOf(grantees[..n])[grantees[n].0 := grantees[n].1]
  }

  /** A fresh epoch for the grantees; the key pair and the wrap key are drawn by the caller. */
  method NewBucketKeyVersion(epoch: nat, bucket: string, grantees: seq<(string, GranteeSlots)>, sk: Key, bwk: Key,
                             draw: (string, nat) -> Key)
    returns (r: Result<KeyVersion>)
    requires NeverDraws(draw, bwk)
    ensures r.Ok? <==> forall i :: 0 <= i < |grantees| ==> Sealable(grantees[i].1)
    ensures r.Ok? ==> r.value.epoch == epoch && EpochFaithful(bucket, r.value, Epoch(sk, bwk, RowsOf(grantees)))
    ensures r.Err? ==> r.error == Internal
  {
    var skBlob := Wrapped(sk, bwk, WrapAad(bucket, epoch));
    var grants: map<string, seq<SealedKey>> := map[];
    var n := 0;
    while n < |grantees|
      invariant 0 <= n <= |grantees|
      invariant forall i :: 0 <= i < n ==> Sealable(grantees[i].1)
      invariant EpochFaithful(bucket, KeyVersion(epoch, skBlob, grants), Epoch(sk, bwk, RowsOf(grantees[..n])))
    {
      var (user, slots) := grantees[n];
      var sealed := SealGrantSlots(bucket, epoch, user, slots, bwk, draw);
      if sealed.Err? {
        return Err(sealed.error);
      }
      RowKeepsEpochFaithful(bucket, KeyVersion(epoch, skBlob, grants), Epoch(sk, bwk, RowsOf(grantees[..n])), user,
          slots, sealed.value);
      assert grantees[..n + 1][..n] == grantees[..n];
      grants := grants[user := sealed.value];
      n := n + 1;
    }
    assert grantees[..n] == grantees;
    return Ok(KeyVersion(epoch, skBlob, grants));
  }

  // ----- Who a rotation grants to -----

  function ReadImplyingGrantees(acl: map<string, Permission>): set<string> {
    set u | u in acl && !acl[u].WriteOnly?
  }

  /** The caller, the owner and everyone whose ACL entry implies reading. */
  function Named(config: BucketConfig, caller: string): set<string> {
    ReadImplyingGrantees(config.acl) + (if config.owner.Some? then {config.owner.value} else {}) + {caller}
  }

  function OnlySlot(slot: nat): (a: seq<bool>)
    ensures |a| == CREDENTIAL_SLOTS && forall i :: 0 <= i < |a| ==> (a[i] <==> i == slot)
  {
    seq(CREDENTIAL_SLOTS, (i: nat) => i == slot)
  }

  ghost predicate KnownUsers(users: map<string, UserRecord>) {
    forall u :: u in users ==> users[u].primary < CREDENTIAL_SLOTS
  }

  /** The slot a rotation by `caller` authorizes for `user`. */
  function RealSlot(users: map<string, UserRecord>, caller: string, persona: nat, user: string): nat
    requires user in users
  {
    if user == caller then persona else users[user].primary
  }

  function RotationSlots(users: map<string, UserRecord>, caller: string, persona: nat, user: string): GranteeSlots
    requires user in users
  {
    GranteeSlots(users[user].pks, OnlySlot(RealSlot(users, caller, persona, user)))
  }

  /** A record with a usable key for each of its four personas. */
  predicate FourPersonas(rec: UserRecord) {
    |rec.pks| == CREDENTIAL_SLOTS && forall i :: 0 <= i < |rec.pks| ==> rec.pks[i].Some?
  }

  /** The caller, the owner and everyone the ACL lets read have four usable personas, if they are known. */
  ghost predicate RotationSealable(users: map<string, UserRecord>, owner: Option<string>, acl: map<string, Permission>,
                                   caller: string) {
    forall u :: u in users ==>
      u == caller || owner == Some(u) || (u in acl && acl[u] != WriteOnly) ==> FourPersonas(users[u])
  }

  /**
   * The row a rotation is meant to give, from the records themselves: to the caller, the owner and whoever the
   * ACL names at read, write or admin, if the account is known. One slot is real: the caller's own persona, or
   * the primary persona of anyone else.
   */
  ghost predicate GetsRow(users: map<string, UserRecord>, owner: Option<string>, acl: map<string, Permission>,
                          caller: string, persona: nat, user: string, slots: GranteeSlots) {
    && user in users
    && (|| user == caller || owner == Some(user)
        || (user in acl && (acl[user] == Read || acl[user] == Write || acl[user] == Admin)))
    && slots.pks == users[user].pks && |slots.authorized| == CREDENTIAL_SLOTS
    && forall i :: 0 <= i < CREDENTIAL_SLOTS ==>
         (slots.authorized[i] <==> i == if user == caller then persona else users[user].primary)
  }

  lemma {:induction false} RowByName(users: map<string, UserRecord>, config: BucketConfig, caller: string, persona: nat,
                                     user: string, slots: GranteeSlots)
    ensures GetsRow(users, config.owner, config.acl, caller, persona, user, slots) <==>
            user in Named(config, caller) && user in users && slots == RotationSlots(users, caller, persona, user)
  {
    if GetsRow(users, config.owner, config.acl, caller, persona, user, slots) {
      assert slots.authorized == RotationSlots(users, caller, persona, user).authorized;
    }
  }

  /** Skips unknown users; everyone else gets one real slot. The names are visited in any order. */
  method CurrentGrantees(users: map<string, UserRecord>, config: BucketConfig, caller: string, persona: nat)
    returns (grantees: seq<(string, GranteeSlots)>)
    requires KnownUsers(users) && persona < CREDENTIAL_SLOTS
    ensures RowsOf(grantees).Keys == Named(config, caller) * users.Keys
    ensures forall u :: u in RowsOf(grantees) ==>
              RowsOf(grantees)[u] == RotationSlots(users, caller, persona, u)
    ensures forall g :: g in grantees <==>
              g.0 in Named(config, caller) && g.0 in users && g.1 == RotationSlots(users, caller, persona, g.0)
    ensures forall user, slots :: (user, slots) in grantees <==>
              GetsRow(users, config.owner, config.acl, caller, persona, user, slots)
  {
    var todo := Named(config, caller);
    grantees := [];
    while todo != {}
      invariant todo <= Named(config, caller)
      invariant RowsOf(grantees).Keys == (Named(config, caller) - todo) * users.Keys
      invariant forall u :: u in RowsOf(grantees) ==>
                  RowsOf(grantees)[u] == RotationSlots(users, caller, persona, u)
      invariant forall g :: g in grantees <==>
                  && g.0 in Named(config, caller) && g.0 !in todo && g.0 in users
                  && g.1 == RotationSlots(users, caller, persona, g.0)
      decreases todo
    {
      var user :| user in todo;
      todo := todo - {user};
      if user in users {
        var slots := RotationSlots(users, caller, persona, user);
        assert (grantees + [(user, slots)])[..|grantees|] == grantees;
        grantees := grantees + [(user, slots)];
      }
    }
    forall user, slots
      ensures (user, slots) in grantees <==> GetsRow(users, config.owner, config.acl, caller, persona, user, slots)
    {
      RowByName(users, config, caller, persona, user, slots);
    }
  }

  /** Who can read an epoch made by a rotation of `caller` as `persona`. */
  predicate RotationReader(users: map<string, UserRecord>, config: BucketConfig, caller: string, persona: nat,
                           user: string, slot: nat, id: Identity) {
    && user in Named(config, caller) && user in users
    && slot == RealSlot(users, caller, persona, user)
    && slot < |users[user].pks| && users[user].pks[slot] == Some(id)
  }

  /**
   * The readers a rotation is meant to have, from the records themselves. The caller reads with the persona
   * that rotates. Anyone else reads with their primary persona if they own the bucket or their ACL level is
   * read, write or admin; a write-only user, or one the ACL does not name, does not read.
   */
  predicate MayRead(users: map<string, UserRecord>, owner: Option<string>, acl: map<string, Permission>,
                    session: Session, user: string, slot: nat,
                    id: Identity) {
    && user in users && slot < |users[user].pks| && users[user].pks[slot] == Some(id)
    && if user == session.user then slot == session.persona
       else
         && slot == users[user].primary
         && (owner == Some(user) || (user in acl && (acl[user] == Read || acl[user] == Write || acl[user] == Admin)))
  }

  lemma {:induction false} RotationReaderMeaning(users: map<string, UserRecord>, config: BucketConfig, session: Session,
                                                 user: string, slot: nat, id: Identity)
    ensures RotationReader(users, config, session.user, session.persona, user, slot, id) <==>
            MayRead(users, config.owner, config.acl, session, user, slot, id)
  {
  }

  lemma {:induction false} RotationRowsAuthorize(users: map<string, UserRecord>, config: BucketConfig, caller: string,
                                                 persona: nat, ep: Epoch, user: string, slot: nat, id: Identity)
    requires KnownUsers(users) && persona < CREDENTIAL_SLOTS
    requires ep.rows.Keys == Named(config, caller) * users.Keys
    requires forall u :: u in ep.rows ==>
              ep.rows[u] == RotationSlots(users, caller, persona, u)
    ensures Authorized(ep, user, slot, id) <==> RotationReader(users, config, caller, persona, user, slot, id)
  {
  }

  predicate OwnerReader(users: map<string, UserRecord>, session: Session, user: string, slot: nat, id: Identity) {
    && user == session.user && user in users && slot == session.persona
    && slot < |users[user].pks| && users[user].pks[slot] == Some(id)
  }

  /** The epoch-0 key of a bucket being claimed: real for the claiming persona, decoys for the user's others. */
  method NewOwnerKey(users: map<string, UserRecord>, bucket: string, session: Session, sk: Key, bwk: Key,
                     draw: (string, nat) -> Key)
    returns (r: Result<KeyVersion>)
    requires NeverDraws(draw, bwk)
    ensures r.Ok? <==>
              session.user in users && Sealable(GranteeSlots(users[session.user].pks, OnlySlot(session.persona)))
    ensures r.Err? ==> r.error == Internal
    ensures r.Ok? ==> r.value.epoch == 0
    ensures r.Ok? ==> forall user, slot: nat, id: Identity ::
              ReadKey([r.value], bucket, 0, user, slot, id) ==
                  if OwnerReader(users, session, user, slot, id) then Ok(sk) else Err(Forbidden)
  {
    if session.user !in users {
      return Err(Internal);
    }
    var grantees := [(session.user, GranteeSlots(users[session.user].pks, OnlySlot(session.persona)))];
    assert RowsOf(grantees) == map[session.user := grantees[0].1] by {
      assert grantees[..0] == [];
    }
    r := NewBucketKeyVersion(0, bucket, grantees, sk, bwk, draw);
    if r.Ok? {
      var ep := Epoch(sk, bwk, RowsOf(grantees));
      forall user, slot: nat, id: Identity
        ensures ReadKey([r.value], bucket, 0, user, slot, id) ==
                if Authorized(ep, user, slot, id) then Ok(sk) else Err(Forbidden)
      {
        ReadableIffAuthorized(bucket, [r.value], [ep], 0, user, slot, id);
      }
    }
  }

  // ----- A stored bucket -----

  class Bucket {
    const name: string
    var owner: Option<string>
    var acl: map<string, Permission>
    var keys: seq<KeyVersion>
    /** What each epoch is meant to grant. */
    ghost var ledger: seq<Epoch>

    ghost predicate Valid()
      reads this
    {
      Faithful(name, keys, ledger)
    }

    ghost function View(): State
      reads this
    {
      State(keys, ledger)
    }

    constructor (name: string)
      ensures Valid() && this.name == name && View() == State([], []) && owner == None && acl == map[]
    {
      this.name := name;
      owner, acl, keys, ledger := None, map[], [], [];
    }

    /** Adds or replaces one user's row in place, with whatever wrap key it is given. */
    method PutGrantSlot(at: nat, user: string, slots: GranteeSlots, bwk: Key, draw: (string, nat) -> Key)
      returns (r: Result<seq<SealedKey>>)
      requires at < |keys| && NeverDraws(draw, bwk)
      modifies this`keys
      ensures r.Ok? <==> Sealable(slots)
      ensures r.Ok? ==> IsRow(r.value, name, old(keys)[at].epoch, user, slots, bwk)
                        && keys == old(keys)[at := old(keys)[at].(grants := old(keys)[at].grants[user := r.value])]
      ensures r.Err? ==> keys == old(keys)
    {
      r := SealGrantSlots(name, keys[at].epoch, user, slots, bwk, draw);
      if r.Ok? {
        keys := keys[at := keys[at].(grants := keys[at].grants[user := r.value])];
      }
    }

    /** Grants as a session: the wrap key comes from its own verified row. */
    method Grant(session: Session, at: nat, user: string, slots: GranteeSlots, draw: (string, nat) -> Key)
      returns (ok: bool, ghost event: Event)
      requires Valid() && at < |keys| && NeverDraws(draw, ledger[at].bwk)
      modifies this`keys, this`ledger
      ensures Valid()
      ensures ok <==> Sealable(slots) && Authorized(old(ledger)[at], session.user, session.persona, session.identity)
      ensures ok ==> Legal(name, old(View()), event) && View() == Step(old(View()), event) && event.PutRow?
                     && event.at == at && event.user == user && event.slots == slots
      ensures !ok ==> View() == old(View())
    {
      ghost var before := View();
      event := PutRow(at, session, user, slots, []);
      ReadableIffAuthorized(name, keys, ledger, at, session.user, session.persona, session.identity);
      var bwk := OpenVerifiedBwk(keys, name, keys[at].epoch, session.user, session.persona, session.identity);
      if bwk.Err? {
        return false, event;
      }
      var r := PutGrantSlot(at, user, slots, bwk.value, draw);
      if r.Err? {
        return false, event;
      }
      ledger := ledger[at := ledger[at].(rows := ledger[at].rows[user := slots])];
      event := PutRow(at, session, user, slots, r.value);
      StepKeepsFaithful(name, before, event);
      return true, event;
    }
  
    /**
     * Adds an epoch. The caller must hold the newest one; the new one is readable by the caller's own
     * persona and by the primary persona of the owner and of every read-implying grantee, and by no
     * other persona.
     */
    method RotateKey(session: Session, users: map<string, UserRecord>, sk: Key, bwk: Key, draw: (string, nat) -> Key)
      returns (r: Result<nat>)
      requires Valid() && KnownUsers(users) && session.persona < CREDENTIAL_SLOTS && NeverDraws(draw, bwk)
      modifies this`keys, this`ledger
      ensures Valid() && (r.Err? ==> View() == old(View()))
      ensures r.Err? ==>
                r.error ==
                if old(keys) == [] then Internal
                else if |old(keys)| >= MAX_RETAINED_EPOCHS then TooManyEpochs
                else if !IsVisible(session, old(keys), name) then Forbidden
                else Internal
      ensures r.Ok? <==>
                && 0 < |old(keys)| < MAX_RETAINED_EPOCHS && IsVisible(session, old(keys), name)
                && RotationSealable(users, owner, acl, session.user)
      ensures r.Ok? ==>
                && |keys| == |old(keys)| + 1 && keys[..|old(keys)|] == old(keys)
                && keys[|old(keys)|].epoch == r.value == NextEpoch(old(keys))
      ensures r.Ok? ==>
                forall user, slot: nat, id: Identity ::
                  ReadKey(keys, name, r.value, user, slot, id).Ok? <==>
                      MayRead(users, owner, acl, session, user, slot, id)
    {
      ghost var before := View();
      var newest := CurrentKey(keys);
      if newest.None? {
        return Err(Internal);
      }
      if |keys| >= MAX_RETAINED_EPOCHS {
        return Err(TooManyEpochs);
      }
      ReadableIffAuthorized(name, keys, ledger, |keys| - 1, session.user, session.persona, session.identity);
      var held := OpenVerifiedBwk(keys, name, newest.value.epoch, session.user, session.persona, session.identity);
      if held.Err? {
        return Err(held.error);
      }
      var config := BucketConfig(owner, acl, keys);
      var grantees := CurrentGrantees(users, config, session.user, session.persona);
      var made := NewBucketKeyVersion(newest.value.epoch + 1, name, grantees, sk, bwk, draw);
      SealableIffFourPersonas(users, config, session, grantees);
      if made.Err? {
        return Err(made.error);
      }
      ghost var ep := Epoch(sk, bwk, RowsOf(grantees));
      StepKeepsFaithful(name, before, AddEpoch(made.value, ep));
      keys, ledger := keys + [made.value], ledger + [ep];
      r := Ok(made.value.epoch);
      NewEpochReaders(name, keys, ledger, users, config, session, ep);
    }
  }

  /** Every row of a rotation can be sealed exactly when every user it names has four usable personas. */
  lemma {:induction false} SealableIffFourPersonas(users: map<string, UserRecord>, config: BucketConfig,
                                                   session: Session, grantees: seq<(string, GranteeSlots)>)
    requires forall g :: g in grantees <==>
               && g.0 in Named(config, session.user) && g.0 in users
               && g.1 == RotationSlots(users, session.user, session.persona, g.0)
    ensures (forall i :: 0 <= i < |grantees| ==> Sealable(grantees[i].1)) <==>
            RotationSealable(users, config.owner, config.acl, session.user)
  {
    if forall i :: 0 <= i < |grantees| ==> Sealable(grantees[i].1) {
      forall u | u in Named(config, session.user) && u in users ensures FourPersonas(users[u]) {
        assert (u, RotationSlots(users, session.user, session.persona, u)) in grantees;
      }
    } else {
      var i :| 0 <= i < |grantees| && !Sealable(grantees[i].1);
      assert grantees[i] in grantees;
      assert !FourPersonas(users[grantees[i].0]);
    }
  }

  lemma {:induction false} NewEpochReaders(bucket: string, keys: seq<KeyVersion>, ledger: seq<Epoch>,
                                           users: map<string, UserRecord>, config: BucketConfig, session: Session,
                                           ep: Epoch)
    requires Faithful(bucket, keys, ledger) && keys != [] && ledger[|ledger| - 1] == ep
    requires KnownUsers(users) && session.persona < CREDENTIAL_SLOTS
    requires ep.rows.Keys == Named(config, session.user) * users.Keys
    requires forall u :: u in ep.rows ==>
              ep.rows[u] == RotationSlots(users, session.user, session.persona, u)
    ensures forall user, slot: nat, id: Identity ::
              ReadKey(keys, bucket, keys[|keys| - 1].epoch, user, slot, id).Ok? <==>
              MayRead(users, config.owner, config.acl, session, user, slot, id)
  {
    forall user, slot: nat, id: Identity
      ensures ReadKey(keys, bucket, keys[|keys| - 1].epoch, user, slot, id).Ok? <==>
              MayRead(users, config.owner, config.acl, session, user, slot, id)
    {
      RotationReaderMeaning(users, config, session, user, slot, id);
      ReadableIffAuthorized(bucket, keys, ledger, |keys| - 1, user, slot, id);
      RotationRowsAuthorize(users, config, session.user, session.persona, ep, user, slot, id);
    }
  }
}
