/**
 * Bucket-level authorization: the caller's role ceiling, their relationship to the bucket, and whether
 * their persona can really decrypt it.
 */
module Authz {
  import opened Base
  import opened BucketKeys

  datatype Caps = Caps(read: bool, write: bool, admin: bool) {
    predicate Allows(required: Permission) {
      match required
      case Read => read
      case Write => write
      case WriteOnly => write
      case Admin => admin
    }

    function Intersect(other: Caps): Caps {
      Caps(read && other.read, write && other.write, admin && other.admin)
    }
  }

  const NoCaps := Caps(false, false, false)
  const FullCaps := Caps(true, true, true)

  datatype Role = AdminRole | UserRole | ReadOnlyRole | AuditorRole | WriteOnlyRole | DisabledRole

  function RoleCaps(role: Role): Caps {
    match role
    case AdminRole => FullCaps
    case UserRole => FullCaps
    case ReadOnlyRole => Caps(true, false, false)
    case AuditorRole => Caps(true, false, false)
    case WriteOnlyRole => Caps(false, true, false)
    case DisabledRole => NoCaps
  }

  predicate RoleIsGlobal(role: Role) {
    role.AdminRole? || role.AuditorRole?
  }

  predicate RolePermits(candidate: Role, ceiling: Role) {
    var c, m := RoleCaps(candidate), RoleCaps(ceiling);
    && (!c.read || m.read) && (!c.write || m.write) && (!c.admin || m.admin)
    && (!RoleIsGlobal(candidate) || RoleIsGlobal(ceiling))
  }

  function GrantCaps(level: Permission): Caps {
    match level
    case Read => Caps(true, false, false)
    case Write => Caps(true, true, false)
    case WriteOnly => Caps(false, true, false)
    case Admin => FullCaps
  }

  function BucketGrantCaps(cfg: BucketConfig, user: string): Option<Caps> {
    match cfg.owner
    case Some(owner) =>
      if owner == user then Some(FullCaps)
      else if user in cfg.acl then Some(GrantCaps(cfg.acl[user]))
      else None
    case None => None
  }

  predicate IsWriteOnlyRelationship(cfg: BucketConfig, user: string) {
    match cfg.owner
    case Some(owner) => owner != user && user in cfg.acl && cfg.acl[user] == WriteOnly
    case None => false
  }

  datatype Caller = Caller(session: Session, role: Role, enforced: bool)

  function EffectiveCaps(auth: Caller, cfg: BucketConfig, bucket: string): (Caps, bool) {
    var rc := RoleCaps(auth.role);
    var realGrant := IsVisible(auth.session, cfg.keys, bucket);
    if realGrant && RoleIsGlobal(auth.role) then (rc, true)
    else
      match BucketGrantCaps(cfg, auth.session.user)
      case Some(bc) =>
        if !realGrant then
          if IsWriteOnlyRelationship(cfg, auth.session.user) then (rc.Intersect(bc), true) else (NoCaps, false)
        else (rc.Intersect(bc), true)
      case None => (NoCaps, false)
  }

  /** What storage says about a bucket; the configuration of one that does not exist is the empty one. */
  datatype Stored = Stored(exists_: bool, cfg: BucketConfig)

  const Missing := Stored(false, BucketConfig(None, map[], []))

  datatype Answer = Allowed | ClaimOwnership | Forbidden403 | NotFound404

  function AuthorizeBucket(auth: Caller, stored: Stored, bucket: string, required: Permission): Answer {
    if !auth.enforced then
      if required.Write? && !stored.exists_ then ClaimOwnership else Allowed
    else
      var cfg := stored.cfg;
      var (eff, visible) := EffectiveCaps(auth, cfg, bucket);
      if eff.Allows(required) then
        if cfg.owner.None? && required.Write? && !stored.exists_ then ClaimOwnership else Allowed
      else
        var bc := BucketGrantCaps(cfg, auth.session.user);
        var missingGrantOnly :=
          !RoleIsGlobal(auth.role) && bc.Some?
          && (match required case Read => bc.value.read case Admin => bc.value.admin case _ => false);
        if visible && !missingGrantOnly then Forbidden403
        else if cfg.owner.None? && required.Write? && RoleCaps(auth.role).write && !stored.exists_ then ClaimOwnership
        else NotFound404
  }

  // ----- What the answers mean, without the branches -----

  predicate Drops(auth: Caller, stored: Stored) {
    IsWriteOnlyRelationship(stored.cfg, auth.session.user)
  }

  predicate CanDecrypt(auth: Caller, stored: Stored, bucket: string) {
    IsVisible(auth.session, stored.cfg.keys, bucket)
  }

  predicate Granted(auth: Caller, stored: Stored, required: Permission) {
    var bc := BucketGrantCaps(stored.cfg, auth.session.user);
    bc.Some? && bc.value.Allows(required)
  }

  /** Within the role ceiling, and granted to a persona that decrypts, or a drop-box write. */
  predicate Permitted(auth: Caller, stored: Stored, bucket: string, required: Permission) {
    && RoleCaps(auth.role).Allows(required)
    && (|| (CanDecrypt(auth, stored, bucket) && (RoleIsGlobal(auth.role) || Granted(auth, stored, required)))
        || (Drops(auth, stored) && (required.Write? || required.WriteOnly?)))
  }

  /** Someone who may learn that the bucket exists. */
  predicate Sees(auth: Caller, stored: Stored, bucket: string) {
    || (CanDecrypt(auth, stored, bucket)
        && (RoleIsGlobal(auth.role) || BucketGrantCaps(stored.cfg, auth.session.user).Some?))
    || Drops(auth, stored)
  }

  /** A first write to an unowned bucket that does not exist, by a role that may write. */
  predicate Claims(auth: Caller, stored: Stored, required: Permission) {
    stored.cfg.owner.None? && !stored.exists_ && required.Write? && RoleCaps(auth.role).write
  }

  /**
   * The exact answer. Note the last clause of the 403 case: a bucket the caller does see is still
   * reported as missing when a non-global role is all that stands between a reading or administering
   * grant and the request.
   */
  lemma {:induction false} AnswerExactly(auth: Caller, stored: Stored, bucket: string, required: Permission)
    requires auth.enforced
    ensures var answer := AuthorizeBucket(auth, stored, bucket, required);
            && (answer.ClaimOwnership? <==> Claims(auth, stored, required))
            && (answer.Allowed? <==> Permitted(auth, stored, bucket, required) && !Claims(auth, stored, required))
            && (answer.Forbidden403? <==>
                  && Sees(auth, stored, bucket) && !Permitted(auth, stored, bucket, required)
                  && !(!RoleIsGlobal(auth.role) && (required.Read? || required.Admin?)
                      && Granted(auth, stored, required)))
  {
  }

  // ----- The same by name -----

  /** Which roles may use a verb. */
  predicate RoleMay(role: Role, verb: Permission) {
    match verb
    case Read => role == AdminRole || role == UserRole || role == ReadOnlyRole || role == AuditorRole
    case Write => role == AdminRole || role == UserRole || role == WriteOnlyRole
    case WriteOnly => role == AdminRole || role == UserRole || role == WriteOnlyRole
    case Admin => role == AdminRole || role == UserRole
  }

  /** Which ACL levels give a verb. */
  predicate LevelMay(level: Permission, verb: Permission) {
    match verb
    case Read => level == Read || level == Write || level == Admin
    case Write => level == Write || level == WriteOnly || level == Admin
    case WriteOnly => level == Write || level == WriteOnly || level == Admin
    case Admin => level == Admin
  }

  /** The owner, or someone the ACL of an owned bucket names at a level that gives the verb. */
  predicate RelationMay(cfg: BucketConfig, user: string, verb: Permission) {
    && cfg.owner.Some?
    && (cfg.owner.value == user || (user in cfg.acl && LevelMay(cfg.acl[user], verb)))
  }

  /** A drop box: the ACL of somebody else's bucket names the user as write-only. */
  predicate DropBox(cfg: BucketConfig, user: string) {
    cfg.owner.Some? && cfg.owner.value != user && user in cfg.acl && cfg.acl[user] == WriteOnly
  }

  /**
   * The answers in terms of roles, levels and verbs by name. Note the last clause of the 403 case, as in
   * `AnswerExactly`.
   */
  lemma {:induction false} AnswerByName(auth: Caller, stored: Stored, bucket: string, verb: Permission)
    requires auth.enforced
    ensures var answer := AuthorizeBucket(auth, stored, bucket, verb);
            var user, cfg, role := auth.session.user, stored.cfg, auth.role;
            var decrypts := IsVisible(auth.session, cfg.keys, bucket);
            var global := role == AdminRole || role == AuditorRole;
            var claims := cfg.owner.None? && !stored.exists_ && verb == Write
                          && (role == AdminRole || role == UserRole || role == WriteOnlyRole);
            var permitted := RoleMay(role, verb)
                             && ((decrypts && (global || RelationMay(cfg, user, verb)))
                                 || (DropBox(cfg, user) && (verb == Write || verb == WriteOnly)));
            var related := cfg.owner.Some? && (cfg.owner.value == user || user in cfg.acl);
            && (answer == ClaimOwnership <==> claims)
            && (answer == Allowed <==> permitted && !claims)
            && (answer == Forbidden403 <==>
                  && !permitted && ((decrypts && (global || related)) || DropBox(cfg, user))
                  && !(!global && (verb == Read || verb == Admin) && RelationMay(cfg, user, verb)))
  {
    AnswerExactly(auth, stored, bucket, verb);
  }

  /** Without enforcement nothing is refused, and exactly a write to a bucket that does not exist claims it. */
  lemma {:induction false} UnenforcedNeverRefuses(auth: Caller, stored: Stored, bucket: string, verb: Permission)
    requires !auth.enforced
    ensures AuthorizeBucket(auth, stored, bucket, verb) != Forbidden403
    ensures AuthorizeBucket(auth, stored, bucket, verb) != NotFound404
    ensures AuthorizeBucket(auth, stored, bucket, verb) == ClaimOwnership <==> verb == Write && !stored.exists_
  {
  }

  /** What each role is kept from, whatever the bucket, the grants and the keys. */
  lemma {:induction false} RoleCeilings(auth: Caller, stored: Stored, bucket: string, verb: Permission)
    requires auth.enforced
    ensures var answer := AuthorizeBucket(auth, stored, bucket, verb);
            && (auth.role == DisabledRole ==> answer != Allowed && answer != ClaimOwnership)
            && (auth.role == WriteOnlyRole && (verb == Read || verb == Admin) ==>
                answer != Allowed && answer != ClaimOwnership)
            && ((auth.role == ReadOnlyRole || auth.role == AuditorRole) && verb != Read ==>
                  answer != Allowed && answer != ClaimOwnership)
  {
    AnswerByName(auth, stored, bucket, verb);
  }

  /** A verb of an ordinary user who decrypts somebody else's bucket: exactly what the ACL level gives. */
  lemma {:induction false} LevelVerbs(auth: Caller, stored: Stored, bucket: string, level: Permission)
    requires auth.enforced && auth.role == UserRole && IsVisible(auth.session, stored.cfg.keys, bucket)
    requires stored.cfg.owner.Some? && stored.cfg.owner.value != auth.session.user
    requires auth.session.user in stored.cfg.acl && stored.cfg.acl[auth.session.user] == level
    ensures AuthorizeBucket(auth, stored, bucket, Read) == Allowed <==>
              level == Read || level == Write || level == Admin
    ensures AuthorizeBucket(auth, stored, bucket, Write) == Allowed <==>
              level == Write || level == WriteOnly || level == Admin
    ensures AuthorizeBucket(auth, stored, bucket, WriteOnly) == Allowed <==>
              level == Write || level == WriteOnly || level == Admin
    ensures AuthorizeBucket(auth, stored, bucket, Admin) == Allowed <==> level == Admin
  {
    AnswerByName(auth, stored, bucket, Read);
    AnswerByName(auth, stored, bucket, Write);
    AnswerByName(auth, stored, bucket, WriteOnly);
    AnswerByName(auth, stored, bucket, Admin);
  }

  /** An allowed verb is within the role, and reading or administering needs real access to the newest epoch. */
  lemma {:induction false} AllowedMeansDecryptable(auth: Caller, stored: Stored, bucket: string, required: Permission)
    requires auth.enforced && AuthorizeBucket(auth, stored, bucket, required).Allowed?
    ensures RoleCaps(auth.role).Allows(required)
    ensures required.Read? || required.Admin? ==> IsVisible(auth.session, stored.cfg.keys, bucket)
    ensures !IsVisible(auth.session, stored.cfg.keys, bucket) ==>
              && stored.cfg.owner.Some? && stored.cfg.owner.value != auth.session.user
              && auth.session.user in stored.cfg.acl && stored.cfg.acl[auth.session.user] == WriteOnly
  {
    AnswerExactly(auth, stored, bucket, required);
  }

  /** To read or administer, a bucket one may not know of answers like one that does not exist. */
  lemma {:induction false} InvisibleLooksMissing(auth: Caller, stored: Stored, bucket: string, required: Permission)
    requires auth.enforced && (required.Read? || required.Admin?)
    ensures AuthorizeBucket(auth, Missing, bucket, required) == NotFound404
    ensures !IsVisible(auth.session, stored.cfg.keys, bucket) && !Drops(auth, stored) ==>
              AuthorizeBucket(auth, stored, bucket, required) == AuthorizeBucket(auth, Missing, bucket, required)
    ensures AuthorizeBucket(auth, stored, bucket, required) == Forbidden403 ==>
              IsVisible(auth.session, stored.cfg.keys, bucket) || Drops(auth, stored)
  {
    AnswerExactly(auth, stored, bucket, required);
    AnswerExactly(auth, Missing, bucket, required);
  }

  /**
   * Tied to the key epochs: after any run of epoch creations and grants, reading and administering
   * are allowed only to a persona whose latest row on the newest epoch authorizes it, and any other
   * persona without a drop box gets the answer for a bucket that does not exist.
   */
  lemma {:induction false} ReadersAreAuthorized(auth: Caller, stored: Stored, bucket: string, required: Permission,
                                                events: seq<Event>)
    requires auth.enforced && (required.Read? || required.Admin?)
    requires LegalRun(bucket, events) && stored.cfg.keys == Run(events).keys
    ensures var ledger := Run(events).ledger;
            var authorized := ledger != [] &&
              Authorized(ledger[|ledger| - 1], auth.session.user, auth.session.persona, auth.session.identity);
            && (AuthorizeBucket(auth, stored, bucket, required).Allowed? ==> authorized)
            && (!authorized && !Drops(auth, stored) ==>
                  AuthorizeBucket(auth, stored, bucket, required) == AuthorizeBucket(auth, Missing, bucket, required))
  {
    VisibleIffAuthorized(auth.session, bucket, events);
    InvisibleLooksMissing(auth, stored, bucket, required);
    if AuthorizeBucket(auth, stored, bucket, required).Allowed? {
      AllowedMeansDecryptable(auth, stored, bucket, required);
    }
  }

  /** A persona sees a bucket exactly when its latest row on the newest epoch authorizes it. */
  lemma {:induction false} VisibleIffAuthorized(session: Session, bucket: string, events: seq<Event>)
    requires LegalRun(bucket, events)
    ensures var s := Run(events);
            IsVisible(session, s.keys, bucket) <==>
              s.ledger != [] && Authorized(s.ledger[|s.ledger| - 1], session.user, session.persona, session.identity)
  {
    var s := Run(events);
    RunIsFaithful(bucket, events);
    if s.keys != [] {
      ReadableIffAuthorized(bucket, s.keys, s.ledger, |s.keys| - 1, session.user, session.persona, session.identity);
    }
  }

  // ----- Which role may be handed out under which -----

  predicate Accepts(role: Role, session: Session, stored: Stored, bucket: string, required: Permission) {
    var answer := AuthorizeBucket(Caller(session, role, true), stored, bucket, required);
    answer.Allowed? || answer.ClaimOwnership?
  }

  const Witness := Session("user", 0, 0)

  /** The first epoch of a bucket: one row, real for persona 0 of the witness and decoys for the other three. */
  const WitnessSlots := GranteeSlots([Some(0), Some(1), Some(2), Some(3)], OnlySlot(0))

  function WitnessSeal(slot: nat, payload: Key): SealedKey {
    SealedKey(slot, payload, GrantAad("bucket", 0, "user", slot))
  }

  const WitnessRow := [WitnessSeal(0, 1), WitnessSeal(1, 11), WitnessSeal(2, 12), WitnessSeal(3, 13)]

  const WitnessEvents := [AddEpoch(KeyVersion(0, Wrapped(2, 1, WrapAad("bucket", 0)), map["user" := WitnessRow]),
                                   Epoch(2, 1, map["user" := WitnessSlots]))]

  /** A bucket of `owner` with that epoch. */
  function Opened(owner: string): Stored {
    Stored(true, BucketConfig(Some(owner), map[], Run(WitnessEvents).keys))
  }

  lemma {:induction false} WitnessIsLegal()
    ensures LegalRun("bucket", WitnessEvents)
    ensures Run(WitnessEvents) == State([WitnessEvents[0].kv], [WitnessEvents[0].ep])
  {
    var kv, ep := WitnessEvents[0].kv, WitnessEvents[0].ep;
    assert IsRow(WitnessRow, "bucket", 0, "user", WitnessSlots, 1);
    assert EpochFaithful("bucket", kv, ep);
    assert WitnessEvents[..0] == [] && Run([]) == State([], []) && LegalRun("bucket", []);
    assert Legal("bucket", Run([]), WitnessEvents[0]);
    assert Run(WitnessEvents) == Step(Run([]), WitnessEvents[0]);
  }

  lemma {:induction false} WitnessDecrypts(owner: string)
    ensures IsVisible(Witness, Opened(owner).cfg.keys, "bucket")
  {
    WitnessIsLegal();
    VisibleIffAuthorized(Witness, "bucket", WitnessEvents);
  }

  /**
   * The clause of `AnswerExactly` is not empty, on a configuration the key code can reach: the owner of a
   * bucket, whose persona decrypts it, asks to administer it under a role that may only read. The bucket
   * is visible, yet the answer is 404.
   */
  lemma {:induction false} VisibleBucketReportedMissing()
    ensures var auth, stored := Caller(Witness, ReadOnlyRole, true), Opened("user");
            && LegalRun("bucket", WitnessEvents) && stored.cfg.keys == Run(WitnessEvents).keys
            && Sees(auth, stored, "bucket") && CanDecrypt(auth, stored, "bucket") && Granted(auth, stored, Admin)
            && AuthorizeBucket(auth, stored, "bucket", Read) == Allowed
            && AuthorizeBucket(auth, stored, "bucket", Admin) == NotFound404
  {
    WitnessIsLegal();
    WitnessDecrypts("user");
  }

  lemma {:induction false} StrongerRoleAcceptsMore(candidate: Role, ceiling: Role, session: Session, stored: Stored,
                                                   bucket: string, required: Permission)
    requires RolePermits(candidate, ceiling) && Accepts(candidate, session, stored, bucket, required)
    ensures Accepts(ceiling, session, stored, bucket, required)
  {
    AnswerExactly(Caller(session, candidate, true), stored, bucket, required);
    AnswerExactly(Caller(session, ceiling, true), stored, bucket, required);
  }

  /** `RolePermits` is exactly "never accepted for anything the other role is refused". */
  lemma {:induction false} RolePermitsIff(candidate: Role, ceiling: Role)
    ensures RolePermits(candidate, ceiling) <==>
            forall session, stored, bucket, required ::
              Accepts(candidate, session, stored, bucket, required) ==>
                  Accepts(ceiling, session, stored, bucket, required)
  {
    if RolePermits(candidate, ceiling) {
      forall session, stored, bucket, required | Accepts(candidate, session, stored, bucket, required)
        ensures Accepts(ceiling, session, stored, bucket, required)
      {
        StrongerRoleAcceptsMore(candidate, ceiling, session, stored, bucket, required);
      }
    } else {
      var c, m := RoleCaps(candidate), RoleCaps(ceiling);
      var required :=
        if c.read && !m.read then Read
        else if c.write && !m.write then Write
        else if c.admin && !m.admin then Admin
        else Read;
      var owner := if c.Allows(required) && !m.Allows(required) then "user" else "other";
      WitnessDecrypts(owner);
      AnswerExactly(Caller(Witness, candidate, true), Opened(owner), "bucket", required);
      AnswerExactly(Caller(Witness, ceiling, true), Opened(owner), "bucket", required);
      assert Accepts(candidate, Witness, Opened(owner), "bucket", required);
      assert !Accepts(ceiling, Witness, Opened(owner), "bucket", required);
    }
  }
}
