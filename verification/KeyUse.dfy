/**
 * Which file a fetch of the key helper ends up using, in every interleaving: the exact conditions, in
 * terms of the order of the renames and the opens.
 */
module KeyUse {
  import opened Base
  import opened KeyAgent

  /** A fetch opened `file` when `claims` files had been set aside. */
  datatype Opened = Opened(file: Pid, claims: nat)

  /**
   * What the calls of a run did: the files set aside, in order; for every fetch the position of the one
   * it set aside itself; what each fetch opened; and the fetches that authorized, in order.
   */
  datatype History = History(taken: seq<Pid>, own: map<Pid, nat>, opens: map<Pid, Opened>, granters: seq<Pid>)

  const Nothing := History([], map[], map[], [])

  /** Notes the effect of the call that `s` is about to make. */
  function Noted(h: History, s: State, a: Action): History {
    if !a.Call? || a.pid !in s.procs then h
    else
      match s.procs[a.pid]
      case Claiming =>
        if a.fault.FailsBefore? || Armed !in s.dir.names then h
        else h.(taken := h.taken + [s.dir.names[Armed]], own := h.own[a.pid := |h.taken|])
      case Opening =>
        if !a.fault.Works? || Taking !in s.dir.names then h
        else h.(opens := h.opens[a.pid := Opened(s.dir.names[Taking], |h.taken|)])
      case Erasing(read) =>
        if !a.fault.Works? || Taking !in s.dir.names || read.None? then h
        else h.(granters := h.granters + [a.pid])
      case _ => h
  }

  function Seen(cfg: Config, parses: Bytes -> bool, actions: Trace<Action>): History {
    match actions
    case Begin => Nothing
    case Then(earlier, a) => Noted(Seen(cfg, parses, earlier), Run(cfg, parses, earlier), a)
  }

  // ----- What every call keeps -----

  /** Each file is set aside once, the last one is what the taken name can mean, and none comes back. */
  ghost predicate TakenOk(s: State, h: History) {
    && (forall i, j :: 0 <= i < j < |h.taken| ==> h.taken[i] != h.taken[j])
    && (Taking in s.dir.names ==> h.taken != [] && s.dir.names[Taking] == h.taken[|h.taken| - 1])
    && (forall i :: 0 <= i < |h.taken| ==> h.taken[i] in s.dir.files)
    && (forall i, n :: 0 <= i < |h.taken| && n in s.dir.names && n != Taking ==> s.dir.names[n] != h.taken[i])
  }

  /** A fetch that has come so far. */
  predicate PastOpening(p: Proc) {
    p.Reading? || p.Erasing? || p.FetchEnded? || p.Crashed?
  }

  /** A fetch under way has set a file aside, and what it opened was the latest file set aside then. */
  ghost predicate FetchOk(s: State, h: History, p: Pid) {
    && (p in h.own ==> h.own[p] < |h.taken| && p in s.procs && !IsArm(s.procs[p]) && !s.procs[p].Claiming?)
    && (p in s.procs && MidFetch(s.procs[p]) ==> p in h.own)
    && (p in h.opens ==>
          && p in s.procs && PastOpening(s.procs[p]) && p in h.own && h.own[p] < h.opens[p].claims <= |h.taken|
          && h.opens[p].file == h.taken[h.opens[p].claims - 1])
    && (p in s.procs && Held(s.procs[p]).Some? ==> p in h.opens && h.opens[p].file == Held(s.procs[p]).value)
  }

  ghost predicate OpenedOk(s: State, h: History) {
    forall p: Pid :: FetchOk(s, h, p)
  }

  /** Each authorization belongs to one fetch, and is of the file that fetch opened. */
  ghost predicate GrantsOk(s: State, h: History) {
    && |h.granters| == |s.granted|
    && (forall i :: 0 <= i < |h.granters| ==>
          && h.granters[i] in s.procs && (s.procs[h.granters[i]].FetchEnded? || s.procs[h.granters[i]].Crashed?)
          && h.granters[i] in h.opens && h.opens[h.granters[i]].file == s.granted[i].0)
    && (forall i, j :: 0 <= i < j < |h.granters| ==> h.granters[i] != h.granters[j])
  }

  lemma {:induction false} ArmKeepsTaken(s: State, h: History, pid: Pid, fault: Fault, amount: nat)
    requires TakenOk(s, h) && pid in s.procs && ProcOk(s, pid) && IsArm(s.procs[pid])
    ensures TakenOk(ArmCall(s, pid, fault, amount), h)
  {
  }

  /** The call of `pid` sets the armed file aside. */
  ghost predicate Lands(s: State, h: History, h': History, pid: Pid) {
    && Armed in s.dir.names
    && h' == h.(taken := h.taken + [s.dir.names[Armed]], own := h.own[pid := |h.taken|])
  }

  lemma {:induction false} FetchKeepsTaken(s: State, parses: Bytes -> bool, h: History, a: Action)
    requires TakenOk(s, h) && OneNameEach(s.dir) && a.Call? && a.pid in s.procs && !IsArm(s.procs[a.pid])
    requires Armed in s.dir.names ==> s.dir.names[Armed] in s.dir.files
    ensures TakenOk(FetchCall(s, parses, a.pid, a.fault, a.amount), Noted(h, s, a))
  {
    var t, h' := FetchCall(s, parses, a.pid, a.fault, a.amount), Noted(h, s, a);
    if h'.taken != h.taken {
      LandingKeepsTaken(s, t, h, h', a.pid);
    }
  }

  lemma {:induction false} LandingKeepsTaken(s: State, t: State, h: History, h': History, pid: Pid)
    requires TakenOk(s, h) && OneNameEach(s.dir) && Lands(s, h, h', pid)
    requires t.dir == s.dir.Rename(Armed, Taking) && s.dir.names[Armed] in s.dir.files
    ensures TakenOk(t, h')
  {
  }

  /** Nothing changes for `p`, and no file set aside is forgotten. */
  ghost predicate Same(s: State, t: State, h: History, h': History, p: Pid) {
    && (p in s.procs <==> p in t.procs) && (p in s.procs ==> t.procs[p] == s.procs[p])
    && (p in h.own <==> p in h'.own) && (p in h.own ==> h'.own[p] == h.own[p])
    && (p in h.opens <==> p in h'.opens) && (p in h.opens ==> h'.opens[p] == h.opens[p])
    && h.taken <= h'.taken
  }

  lemma {:induction false} SameStaysOk(s: State, t: State, h: History, h': History, p: Pid)
    requires FetchOk(s, h, p) && Same(s, t, h, h', p)
    ensures FetchOk(t, h', p)
  {
  }

  lemma {:induction false} CallerFetchOk(s: State, parses: Bytes -> bool, h: History, a: Action)
    requires TakenOk(s, h) && FetchOk(s, h, a.pid) && a.Call? && a.pid in s.procs && !IsArm(s.procs[a.pid])
    ensures FetchOk(FetchCall(s, parses, a.pid, a.fault, a.amount), Noted(h, s, a), a.pid)
  {
  }

  lemma {:induction false} FetchKeepsOpened(s: State, parses: Bytes -> bool, h: History, a: Action)
    requires TakenOk(s, h) && OpenedOk(s, h) && a.Call? && a.pid in s.procs && !IsArm(s.procs[a.pid])
    ensures OpenedOk(FetchCall(s, parses, a.pid, a.fault, a.amount), Noted(h, s, a))
  {
    var t, h' := FetchCall(s, parses, a.pid, a.fault, a.amount), Noted(h, s, a);
    FetchOnlyMoves(s, parses, a.pid, a.fault, a.amount);
    forall p: Pid ensures FetchOk(t, h', p) {
      if p == a.pid {
        CallerFetchOk(s, parses, h, a);
      } else {
        OthersSame(s, parses, h, a, p);
        SameStaysOk(s, t, h, h', p);
      }
    }
  }

  lemma {:induction false} OthersSame(s: State, parses: Bytes -> bool, h: History, a: Action, p: Pid)
    requires a.Call? && a.pid in s.procs && p != a.pid
    ensures Same(s, FetchCall(s, parses, a.pid, a.fault, a.amount), h, Noted(h, s, a), p)
  {
  }

  lemma {:induction false} GrantKeepsGrants(s: State, t: State, h: History, h': History, pid: Pid, file: Pid,
                                            text: Bytes)
    requires OpenedOk(s, h) && GrantsOk(s, h) && pid in s.procs && s.procs[pid] == Erasing(Some((file, text)))
    requires t.procs == s.procs[pid := FetchEnded] && t.granted == s.granted + [(file, text)]
    requires h' == h.(granters := h.granters + [pid])
    ensures GrantsOk(t, h')
  {
    assert FetchOk(s, h, pid) && Held(s.procs[pid]) == Some(file);
  }

  lemma {:induction false} QuietKeepsGrants(s: State, t: State, h: History, h': History, pid: Pid, next: Proc)
    requires GrantsOk(s, h) && pid in s.procs && t.procs == s.procs[pid := next] && t.granted == s.granted
    requires s.procs[pid].FetchEnded? || s.procs[pid].Crashed? ==> next == s.procs[pid]
    requires h'.granters == h.granters && forall p :: p in h.opens ==> p in h'.opens && h'.opens[p] == h.opens[p]
    ensures GrantsOk(t, h')
  {
  }

  lemma {:induction false} FetchKeepsGrants(s: State, parses: Bytes -> bool, h: History, a: Action)
    requires OpenedOk(s, h) && GrantsOk(s, h) && a.Call? && a.pid in s.procs && !IsArm(s.procs[a.pid])
    ensures GrantsOk(FetchCall(s, parses, a.pid, a.fault, a.amount), Noted(h, s, a))
  {
    var t, h' := FetchCall(s, parses, a.pid, a.fault, a.amount), Noted(h, s, a);
    if h'.granters != h.granters {
      GrantKeepsGrants(s, t, h, h', a.pid, s.procs[a.pid].read.value.0, s.procs[a.pid].read.value.1);
    } else if !s.procs[a.pid].FetchEnded? && !s.procs[a.pid].Crashed? {
      assert FetchOk(s, h, a.pid);
      QuietKeepsGrants(s, t, h, h', a.pid, t.procs[a.pid]);
    }
  }

  ghost predicate Told(s: State, h: History) {
    TakenOk(s, h) && OpenedOk(s, h) && GrantsOk(s, h)
  }

  lemma {:induction false} ArmKeepsTold(s: State, h: History, pid: Pid, fault: Fault, amount: nat)
    requires Told(s, h) && pid in s.procs && ProcOk(s, pid) && IsArm(s.procs[pid])
    ensures Told(ArmCall(s, pid, fault, amount), h)
  {
    var t := ArmCall(s, pid, fault, amount);
    ArmKeepsTaken(s, h, pid, fault, amount);
    ArmLeavesTaking(s, pid, fault, amount);
    forall p: Pid ensures FetchOk(t, h, p) {
      assert FetchOk(s, h, p);
    }
    assert t.granted == s.granted;
  }

  /** A process arrives or dies. */
  lemma {:induction false} ArrivalKeepsTold(s: State, cfg: Config, parses: Bytes -> bool, h: History, a: Action)
    requires Told(s, h) && (a.Call? ==> a.pid !in s.procs)
    ensures Told(Step(s, cfg, parses, a), h)
  {
    var t := Step(s, cfg, parses, a);
    assert t.dir == s.dir && t.granted == s.granted;
    forall p: Pid ensures FetchOk(t, h, p) {
      assert FetchOk(s, h, p);
    }
  }

  lemma {:induction false} StepKeepsTold(s: State, cfg: Config, parses: Bytes -> bool, h: History, a: Action)
    requires Usable(s) && OneNameEach(s.dir) && Told(s, h)
    ensures Told(Step(s, cfg, parses, a), Noted(h, s, a))
  {
    if a.Call? && a.pid in s.procs {
      assert ProcOk(s, a.pid);
      if IsArm(s.procs[a.pid]) {
        ArmKeepsTold(s, h, a.pid, a.fault, a.amount);
      } else {
        FetchKeepsTaken(s, parses, h, a);
        FetchKeepsOpened(s, parses, h, a);
        FetchKeepsGrants(s, parses, h, a);
      }
    } else {
      ArrivalKeepsTold(s, cfg, parses, h, a);
    }
  }

  lemma {:induction false} RunIsTold(cfg: Config, parses: Bytes -> bool, actions: Trace<Action>)
    ensures Told(Run(cfg, parses, actions), Seen(cfg, parses, actions)) && OneNameEach(Run(cfg, parses, actions).dir)
  {
    if actions.Then? {
      var s := Run(cfg, parses, actions.earlier);
      RunIsTold(cfg, parses, actions.earlier);
      RunIsUsable(cfg, parses, actions.earlier);
      StepKeepsOneName(s, cfg, parses, actions.last);
      StepKeepsTold(s, cfg, parses, Seen(cfg, parses, actions.earlier), actions.last);
    }
  }

  // ----- The exact conditions -----

  /**
   * A fetch reads the file it set aside itself if and only if no other fetch set a file aside between
   * its own rename and its open.
   */
  lemma {:induction false} OwnFileIffUndisturbed(cfg: Config, parses: Bytes -> bool, actions: Trace<Action>, p: Pid)
    requires p in Seen(cfg, parses, actions).opens
    ensures var h := Seen(cfg, parses, actions);
            && p in h.own && h.own[p] < |h.taken|
            && (h.opens[p].file == h.taken[h.own[p]] <==> h.opens[p].claims == h.own[p] + 1)
  {
    RunIsTold(cfg, parses, actions);
    assert FetchOk(Run(cfg, parses, actions), Seen(cfg, parses, actions), p);
  }

  /** Two fetches read the same file if and only if no file was set aside between their opens. */
  lemma {:induction false} SameFileIffNoClaimBetween(cfg: Config, parses: Bytes -> bool, actions: Trace<Action>, p: Pid,
        q: Pid)
    requires p in Seen(cfg, parses, actions).opens && q in Seen(cfg, parses, actions).opens
    ensures var h := Seen(cfg, parses, actions);
            h.opens[p].file == h.opens[q].file <==> h.opens[p].claims == h.opens[q].claims
  {
    RunIsTold(cfg, parses, actions);
    assert FetchOk(Run(cfg, parses, actions), Seen(cfg, parses, actions), p);
    assert FetchOk(Run(cfg, parses, actions), Seen(cfg, parses, actions), q);
  }

  /**
   * Whether an armed file is used more than once. Authorizations number `i` and `j` come from two
   * different fetches, and they are of one file if and only if no file was set aside between the opens
   * of those two fetches.
   */
  lemma {:induction false} GrantsShareFileIff(cfg: Config, parses: Bytes -> bool, actions: Trace<Action>, i: nat,
                                              j: nat)
    requires i < j < |Run(cfg, parses, actions).granted|
    ensures var s, h := Run(cfg, parses, actions), Seen(cfg, parses, actions);
            && |h.granters| == |s.granted| && h.granters[i] != h.granters[j]
            && h.granters[i] in h.opens && h.granters[j] in h.opens
            && (s.granted[i].0 == s.granted[j].0 <==> h.opens[h.granters[i]].claims == h.opens[h.granters[j]].claims)
  {
    var h := Seen(cfg, parses, actions);
    RunIsTold(cfg, parses, actions);
    SameFileIffNoClaimBetween(cfg, parses, actions, h.granters[i], h.granters[j]);
  }

  /** No file is used twice in a run if and only if the opens of any two authorizing fetches are so separated. */
  lemma {:induction false} EachFileOnceIff(cfg: Config, parses: Bytes -> bool, actions: Trace<Action>)
    ensures var s, h := Run(cfg, parses, actions), Seen(cfg, parses, actions);
            && |h.granters| == |s.granted|
            && (forall i :: 0 <= i < |h.granters| ==> h.granters[i] in h.opens)
            && ((forall i, j :: 0 <= i < j < |s.granted| ==> s.granted[i].0 != s.granted[j].0) <==>
                (forall i, j :: 0 <= i < j < |h.granters| ==>
                    h.opens[h.granters[i]].claims != h.opens[h.granters[j]].claims))
  {
    var s, h := Run(cfg, parses, actions), Seen(cfg, parses, actions);
    RunIsTold(cfg, parses, actions);
    forall i, j | 0 <= i < j < |s.granted|
      ensures s.granted[i].0 == s.granted[j].0 <==> h.opens[h.granters[i]].claims == h.opens[h.granters[j]].claims
    {
      GrantsShareFileIff(cfg, parses, actions, i, j);
    }
  }

  // ----- Who is authorized -----

  lemma {:induction false} OwnCameFromRequest(cfg: Config, parses: Bytes -> bool, actions: Trace<Action>, pid: Pid)
    requires pid in Seen(cfg, parses, actions).own
    ensures FetchAsked(cfg, actions, pid)
  {
    var s, h := Run(cfg, parses, actions.earlier), Seen(cfg, parses, actions.earlier);
    if pid in h.own {
      OwnCameFromRequest(cfg, parses, actions.earlier, pid);
    } else {
      assert pid in s.procs && s.procs[pid].Claiming?;
      FetchCameFromRequest(cfg, parses, actions.earlier, pid);
    }
  }

  /**
   * Every authorization went to a fetch that the configured peer asked for, and the text came from an arm
   * request of the arming user. Without a configured peer nothing is ever authorized.
   */
  lemma {:induction false} GrantsGoToThePeer(cfg: Config, parses: Bytes -> bool, actions: Trace<Action>, i: nat)
    requires i < |Run(cfg, parses, actions).granted|
    ensures var s, h := Run(cfg, parses, actions), Seen(cfg, parses, actions);
            && |h.granters| == |s.granted| && cfg.peerUid.Some?
            && Occurs(Connect(h.granters[i], cfg.peerUid.value, Fetch), actions)
            && s.granted[i].0 in s.armed
            && Occurs(Connect(s.granted[i].0, cfg.armUid, Arm(s.armed[s.granted[i].0])), actions)
  {
    var s, h := Run(cfg, parses, actions), Seen(cfg, parses, actions);
    RunIsTold(cfg, parses, actions);
    assert FetchOk(s, h, h.granters[i]);
    OwnCameFromRequest(cfg, parses, actions, h.granters[i]);
    GrantsAreSourced(cfg, parses, actions);
    ArmedCameFromRequest(cfg, parses, actions, s.granted[i].0);
  }

  // ----- A run in which one file is used twice -----

  lemma {:induction false} ArmCreates(cfg: Config, parses: Bytes -> bool, before: Trace<Action>, pid: Pid, text: Bytes)
    returns (after: Trace<Action>)
    requires pid !in Run(cfg, parses, before).procs
    ensures var s, t := Run(cfg, parses, before), Run(cfg, parses, after);
            && t.procs == s.procs[pid := Writing(text, 0)] && t.granted == s.granted
            && t.dir == Dir((s.dir.names - {Tmp})[Tmp := pid], s.dir.files[pid := []])
  {
    var s := Run(cfg, parses, before);
    after := Then(before, Connect(pid, cfg.armUid, Arm(text)));
    assert Run(cfg, parses, after).procs == s.procs[pid := Clearing(text)];
    after := Then(after, Call(pid, Works, 0));
    assert Run(cfg, parses, after).procs == s.procs[pid := Creating(text)];
    after := Then(after, Call(pid, Works, 0));
  }

  lemma {:induction false} ArmWrites(cfg: Config, parses: Bytes -> bool, before: Trace<Action>, pid: Pid, text: Bytes)
    returns (after: Trace<Action>)
    requires var s := Run(cfg, parses, before);
             pid in s.procs && s.procs[pid] == Writing(text, 0) && s.dir.Content(pid) == [] && text != []
    ensures var s, t := Run(cfg, parses, before), Run(cfg, parses, after);
            && t.procs == s.procs[pid := Publishing(text)] && t.granted == s.granted
            && t.dir == s.dir.(files := s.dir.files[pid := text])
  {
    var s := Run(cfg, parses, before);
    after := Then(before, Call(pid, Works, |text|));
    WriteCall(s, pid, text, 0, Works, |text|);
    assert text[0..|text|] == text && [] + text == text;
    assert Run(cfg, parses, after).procs == s.procs[pid := Writing(text, |text|)];
    assert Run(cfg, parses, after).dir == s.dir.(files := s.dir.files[pid := text]);
    after := Then(after, Call(pid, Works, 0));
  }

  /** A complete arm request, undisturbed. */
  lemma {:induction false} ArmCompletes(cfg: Config, parses: Bytes -> bool, before: Trace<Action>, pid: Pid,
                                        text: Bytes)
    returns (after: Trace<Action>)
    requires pid !in Run(cfg, parses, before).procs && text != []
    ensures var s, t := Run(cfg, parses, before), Run(cfg, parses, after);
            && t.procs == s.procs[pid := ArmEnded] && t.granted == s.granted
            && t.dir == Dir((s.dir.names - {Tmp})[Armed := pid], s.dir.files[pid := text])
  {
    after := ArmCreates(cfg, parses, before, pid, text);
    after := ArmWrites(cfg, parses, after, pid, text);
    after := Then(after, Call(pid, Works, 0));
  }

  /** A fetch that sets the armed file aside. */
  lemma {:induction false} ClaimLands(cfg: Config, parses: Bytes -> bool, before: Trace<Action>, pid: Pid)
    returns (after: Trace<Action>)
    requires pid !in Run(cfg, parses, before).procs && cfg.peerUid.Some? && Armed in Run(cfg, parses, before).dir.names
    ensures var s, t := Run(cfg, parses, before), Run(cfg, parses, after);
            && t.procs == s.procs[pid := Inspecting] && t.granted == s.granted && t.dir == s.dir.Rename(Armed, Taking)
  {
    var s := Run(cfg, parses, before);
    after := Then(before, Connect(pid, cfg.peerUid.value, Fetch));
    assert Run(cfg, parses, after) == s.(procs := s.procs[pid := Claiming]);
    after := Then(after, Call(pid, Works, 0));
  }

  /** It inspects, opens and reads whatever the taken name means now. */
  lemma {:induction false} ReadsThrough(cfg: Config, parses: Bytes -> bool, before: Trace<Action>, pid: Pid, file: Pid,
                                        text: Bytes)
    returns (after: Trace<Action>)
    requires var s := Run(cfg, parses, before);
             && pid in s.procs && s.procs[pid] == Inspecting && Taking in s.dir.names && s.dir.names[Taking] == file
             && s.dir.Content(file) == text && text != [] && parses(text)
    ensures var s, t := Run(cfg, parses, before), Run(cfg, parses, after);
            t == s.(procs := s.procs[pid := Erasing(Some((file, text)))])
  {
    var s := Run(cfg, parses, before);
    var call := Call(pid, Works, |text|);
    after := Then(before, call);
    assert Run(cfg, parses, after) == s.(procs := s.procs[pid := Opening]);
    after := Then(after, call);
    assert Run(cfg, parses, after) == s.(procs := s.procs[pid := Reading(file, [])]);
    after := Then(after, call);
    assert text[0..|text|] == text && [] + text == text;
    assert Run(cfg, parses, after) == s.(procs := s.procs[pid := Reading(file, text)]);
    after := Then(after, call);
  }

  lemma {:induction false} Authorizes(cfg: Config, parses: Bytes -> bool, before: Trace<Action>, pid: Pid, file: Pid,
                                      text: Bytes)
    returns (after: Trace<Action>)
    requires var s := Run(cfg, parses, before);
             pid in s.procs && s.procs[pid] == Erasing(Some((file, text))) && Taking in s.dir.names
    ensures var s, t := Run(cfg, parses, before), Run(cfg, parses, after);
            && t.procs == s.procs[pid := FetchEnded] && t.dir == s.dir.Unlink(Taking)
            && t.granted == s.granted + [(file, text)]
  {
    after := Then(before, Call(pid, Works, 0));
  }

  /** Two fetches that overlap have both read the second of two armed files. */
  lemma {:induction false} BothReadOneFile(cfg: Config, parses: Bytes -> bool, text: Bytes)
    returns (actions: Trace<Action>)
    requires cfg.peerUid.Some? && parses(text) && text != []
    ensures var s := Run(cfg, parses, actions);
            && s.procs == map[0 := ArmEnded, 1 := ArmEnded,
                              10 := Erasing(Some((1, text))), 11 := Erasing(Some((1, text)))]
            && s.dir == Dir(map[Taking := 1], map[0 := text, 1 := text]) && s.granted == []
  {
    actions := ArmCompletes(cfg, parses, Begin, 0, text);
    assert Run(cfg, parses, actions).dir == Dir(map[Armed := 0], map[0 := text]);
    actions := ClaimLands(cfg, parses, actions, 10);
    assert Run(cfg, parses, actions).dir == Dir(map[Taking := 0], map[0 := text]);
    actions := ArmCompletes(cfg, parses, actions, 1, text);
    assert Run(cfg, parses, actions).dir == Dir(map[Taking := 0, Armed := 1], map[0 := text, 1 := text]);
    actions := ClaimLands(cfg, parses, actions, 11);
    assert Run(cfg, parses, actions).dir == Dir(map[Taking := 1], map[0 := text, 1 := text]);
    actions := ReadsThrough(cfg, parses, actions, 10, 1, text);
    actions := ReadsThrough(cfg, parses, actions, 11, 1, text);
  }

  /**
   * The separation is needed: three fetches that overlap can use one armed file twice. The second sets
   * its file aside before the first has opened its own, both read it, the first erases it, and the
   * second erases the file a third one has set aside.
   */
  lemma {:induction false} OverlappingFetchesCanShareFile(cfg: Config, parses: Bytes -> bool, text: Bytes)
    returns (actions: Trace<Action>)
    requires cfg.peerUid.Some? && parses(text) && text != []
    ensures var s := Run(cfg, parses, actions);
            s.granted == [(1, text), (1, text)] && 12 in s.procs && s.procs[12] == Inspecting
  {
    actions := BothReadOneFile(cfg, parses, text);
    actions := Authorizes(cfg, parses, actions, 10, 1, text);
    assert Run(cfg, parses, actions).dir.names == map[];
    actions := ArmCompletes(cfg, parses, actions, 2, text);
    assert Run(cfg, parses, actions).dir.names == map[Armed := 2];
    actions := ClaimLands(cfg, parses, actions, 12);
    assert Run(cfg, parses, actions).dir.names == map[Taking := 2];
    actions := Authorizes(cfg, parses, actions, 11, 1, text);
  }
}
