/**
 * The one-shot authorization of the key helper. Arm and fetch requests are served by separate
 * processes that share a directory and synchronise only through rename and remove. One step below is
 * one file-system call of one process; any call may fail before or after taking effect, and any
 * process may die between two calls.
 */
module KeyAgent {
  import opened Base

  // ----- The shared directory -----

  datatype Name = Tmp | Armed | Taking

  /** A process creates at most one file, so its process number also names that file. */
  type Pid = nat

  datatype Dir = Dir(names: map<Name, Pid>, files: map<Pid, Bytes>) {
    function Unlink(n: Name): Dir {
      this.(names := names - {n})
    }

    function Create(n: Name, file: Pid): Dir {
      this.(names := names[n := file], files := files[file := []])
    }

    function Content(file: Pid): Bytes {
      if file in files then files[file] else []
    }

    function Append(file: Pid, data: Bytes): Dir {
      this.(files := files[file := Content(file) + data])
    }

    function Rename(from: Name, to: Name): Dir
      requires from in names
    {
      this.(names := (names - {from})[to := names[from]])
    }
  }

  // ----- The processes -----

  datatype Proc =
    // An arm request, at its next call.
    | Clearing(text: Bytes)
    | Creating(text: Bytes)
    | Writing(text: Bytes, written: nat)
    | Publishing(text: Bytes)
    | Abandoning
    | ArmEnded
    // A fetch request, at its next call.
    | Claiming
    | Inspecting
    | Opening
    | Reading(file: Pid, got: Bytes)
    | Erasing(read: Option<(Pid, Bytes)>)
    | FetchEnded
    | Crashed

  datatype Config = Config(armUid: nat, peerUid: Option<nat>)

  datatype Request = Arm(text: Bytes) | Fetch

  datatype Action =
    | Connect(pid: Pid, uid: nat, request: Request)
    /** The process makes its next call; `amount` bounds what a read or write transfers. */
    | Call(pid: Pid, fault: Fault, amount: nat)
    | Crash(pid: Pid)

  /**
   * `armed` maps every arm process to the text it means to store, `published` counts the renames onto
   * the armed name, and `granted` lists file and text of every successful fetch.
   */
  datatype State = State(dir: Dir, procs: map<Pid, Proc>, armed: map<Pid, Bytes>, published: nat,
                         granted: seq<(Pid, Bytes)>)

  const Initial := State(Dir(map[], map[]), map[], map[], 0, [])

  // ----- One call -----

  function Connected(s: State, cfg: Config, pid: Pid, uid: nat, request: Request): State {
    if pid in s.procs then s
    else match request
      case Arm(text) =>
        if uid != cfg.armUid then s
        else s.(procs := s.procs[pid := Clearing(text)], armed := s.armed[pid := text])
      case Fetch =>
        if cfg.peerUid != Some(uid) then s else s.(procs := s.procs[pid := Claiming])
  }

  /** `write_armed`: clear the temporary name, create, write, sync, rename; clean up on error. */
  function ArmCall(s: State, pid: Pid, fault: Fault, amount: nat): State
    requires pid in s.procs
  {
    match s.procs[pid]
    case Clearing(text) =>
      var dir := if fault.FailsBefore? then s.dir else s.dir.Unlink(Tmp);
      s.(dir := dir, procs := s.procs[pid := Creating(text)])
    case Creating(text) =>
      if fault.FailsBefore? || Tmp in s.dir.names then s.(procs := s.procs[pid := Abandoning])
      else
        var next := if fault.Works? then Writing(text, 0) else Abandoning;
        s.(dir := s.dir.Create(Tmp, pid), procs := s.procs[pid := next])
    case Writing(text, written) =>
      if written >= |text| then
        s.(procs := s.procs[pid := if fault.Works? then Publishing(text) else Abandoning])
      else
        var n := Min(amount, |text| - written);
        var dir := if fault.FailsBefore? then s.dir else s.dir.Append(pid, text[written..written + n]);
        s.(dir := dir, procs := s.procs[pid := if fault.Works? then Writing(text, written + n) else Abandoning])
    case Publishing(text) =>
      if fault.FailsBefore? || Tmp !in s.dir.names then s.(procs := s.procs[pid := Abandoning])
      else
        s.(dir := s.dir.Rename(Tmp, Armed), published := s.published + 1,
           procs := s.procs[pid := if fault.Works? then ArmEnded else Abandoning])
    case Abandoning =>
      var dir := if fault.FailsBefore? then s.dir else s.dir.Unlink(Tmp);
      s.(dir := dir, procs := s.procs[pid := ArmEnded])
    case _ => s
  }

  /** `take_armed`: rename aside, inspect, open, read to the end, then erase whatever came of it. */
  function FetchCall(s: State, parses: Bytes -> bool, pid: Pid, fault: Fault, amount: nat): State
    requires pid in s.procs
  {
    match s.procs[pid]
    case Claiming =>
      if fault.FailsBefore? || Armed !in s.dir.names then s.(procs := s.procs[pid := FetchEnded])
      else
        s.(dir := s.dir.Rename(Armed, Taking),
           procs := s.procs[pid := if fault.Works? then Inspecting else FetchEnded])
    case Inspecting =>
      var fine := fault.Works? && Taking in s.dir.names;
      s.(procs := s.procs[pid := if fine then Opening else Erasing(None)])
    case Opening =>
      var fine := fault.Works? && Taking in s.dir.names;
      s.(procs := s.procs[pid := if fine then Reading(s.dir.names[Taking], []) else Erasing(None)])
    case Reading(file, got) =>
      var content := s.dir.Content(file);
      if !fault.Works? then s.(procs := s.procs[pid := Erasing(None)])
      else if amount == 0 || |got| >= |content| then
        s.(procs := s.procs[pid := Erasing(if parses(got) then Some((file, got)) else None)])
      else
        s.(procs := s.procs[pid := Reading(file, got + content[|got|..Min(|got| + amount, |content|)])])
    case Erasing(read) =>
      if fault.FailsBefore? || Taking !in s.dir.names then s.(procs := s.procs[pid := FetchEnded])
      else
        s.(dir := s.dir.Unlink(Taking), procs := s.procs[pid := FetchEnded],
           granted := if fault.Works? && read.Some? then s.granted + [read.value] else s.granted)
    case _ => s
  }

  predicate IsArm(p: Proc) {
    p.Clearing? || p.Creating? || p.Writing? || p.Publishing? || p.Abandoning? || p.ArmEnded?
  }

  function Step(s: State, cfg: Config, parses: Bytes -> bool, a: Action): State {
    match a
    case Connect(pid, uid, request) => Connected(s, cfg, pid, uid, request)
    case Call(pid, fault, amount) =>
      if pid !in s.procs then s
      else if IsArm(s.procs[pid]) then ArmCall(s, pid, fault, amount)
      else FetchCall(s, parses, pid, fault, amount)
    case Crash(pid) => if pid in s.procs then s.(procs := s.procs[pid := Crashed]) else s
  }

  // ----- What every call keeps -----

  /** Where a process stands in terms of the files. */
  ghost predicate ProcOk(s: State, pid: Pid) {
    pid in s.procs ==>
      match s.procs[pid]
      case Clearing(text) => pid !in s.dir.files && pid in s.armed && s.armed[pid] == text
      case Creating(text) => pid !in s.dir.files && pid in s.armed && s.armed[pid] == text
      case Writing(text, written) =>
        && pid in s.dir.files && pid in s.armed && s.armed[pid] == text
        && written <= |text| && s.dir.files[pid] == text[..written]
      case Reading(file, got) => file in s.dir.files && got <= s.dir.files[file]
      case Erasing(Some((file, got))) => file in s.dir.files && got <= s.dir.files[file]
      case _ => true
  }

  ghost predicate Usable(s: State) {
    && (forall n :: n in s.dir.names ==> s.dir.names[n] in s.dir.files)
    && (forall f :: f in s.dir.files ==> f in s.procs && f in s.armed && s.dir.files[f] <= s.armed[f])
    && (forall p :: p in s.armed ==> p in s.procs)
    && (forall p :: p in s.procs ==> ProcOk(s, p))
  }

  function Present(s: State, n: Name): nat {
    if n in s.dir.names then 1 else 0
  }

  /** Each publication is at most one of: still armed, being taken, or granted. */
  ghost predicate Accounted(s: State) {
    |s.granted| + Present(s, Taking) + Present(s, Armed) <= s.published
  }

  /** What was granted is a parsed beginning of what some arm process set out to store. */
  ghost predicate Sourced(s: State, parses: Bytes -> bool) {
    && (forall i :: 0 <= i < |s.granted| ==>
          s.granted[i].0 in s.armed && s.granted[i].1 <= s.armed[s.granted[i].0] && parses(s.granted[i].1))
    && (forall p :: p in s.procs && s.procs[p].Erasing? && s.procs[p].read.Some? ==> parses(s.procs[p].read.value.1))
  }

  /** A call of `pid` moves that process on and may only extend its own file. */
  ghost predicate OnlyMoves(s: State, t: State, pid: Pid) {
    && pid in s.procs && pid in t.procs && t.armed == s.armed
    && t.procs == s.procs[pid := t.procs[pid]]
    && (forall f :: f in s.dir.files ==> f in t.dir.files && s.dir.files[f] <= t.dir.files[f])
    && (forall f :: f in s.dir.files && f != pid ==> t.dir.files[f] == s.dir.files[f])
    && (forall f :: f in t.dir.files ==> f == pid || f in s.dir.files)
  }

  lemma {:induction false} ArmOnlyMoves(s: State, pid: Pid, fault: Fault, amount: nat)
    requires pid in s.procs && ProcOk(s, pid)
    ensures OnlyMoves(s, ArmCall(s, pid, fault, amount), pid)
  {
  }

  lemma {:induction false} FetchOnlyMoves(s: State, parses: Bytes -> bool, pid: Pid, fault: Fault, amount: nat)
    requires pid in s.procs
    ensures OnlyMoves(s, FetchCall(s, parses, pid, fault, amount), pid)
  {
  }

  lemma {:induction false} OthersStayOk(s: State, t: State, pid: Pid, p: Pid)
    requires OnlyMoves(s, t, pid) && p != pid && ProcOk(s, p)
    ensures ProcOk(t, p)
  {
  }

  /** The caller's own place, its file and the names after its call. */
  ghost predicate CallerOk(t: State, pid: Pid) {
    && ProcOk(t, pid)
    && (pid in t.dir.files ==> pid in t.armed && t.dir.files[pid] <= t.armed[pid])
    && (forall n :: n in t.dir.names ==> t.dir.names[n] in t.dir.files)
  }

  lemma {:induction false} ArmCallerOk(s: State, pid: Pid, fault: Fault, amount: nat)
    requires Usable(s) && pid in s.procs && IsArm(s.procs[pid])
    ensures CallerOk(ArmCall(s, pid, fault, amount), pid)
  {
    assert ProcOk(s, pid);
    if s.procs[pid].Writing? {
      var text, written := s.procs[pid].text, s.procs[pid].written;
      if written < |text| {
        var n := Min(amount, |text| - written);
        assert text[..written] + text[written..written + n] == text[..written + n];
      }
    }
  }

  lemma {:induction false} FetchCallerOk(s: State, parses: Bytes -> bool, pid: Pid, fault: Fault, amount: nat)
    requires Usable(s) && pid in s.procs && !IsArm(s.procs[pid])
    ensures CallerOk(FetchCall(s, parses, pid, fault, amount), pid)
  {
    assert ProcOk(s, pid);
  }

  lemma {:induction false} StepKeepsUsable(s: State, cfg: Config, parses: Bytes -> bool, a: Action)
    requires Usable(s)
    ensures Usable(Step(s, cfg, parses, a))
  {
    var t := Step(s, cfg, parses, a);
    if a.Call? && a.pid in s.procs {
      if IsArm(s.procs[a.pid]) {
        ArmOnlyMoves(s, a.pid, a.fault, a.amount);
        ArmCallerOk(s, a.pid, a.fault, a.amount);
      } else {
        FetchOnlyMoves(s, parses, a.pid, a.fault, a.amount);
        FetchCallerOk(s, parses, a.pid, a.fault, a.amount);
      }
      CallKeepsUsable(s, t, a.pid);
    } else {
      ArrivalKeepsUsable(s, cfg, parses, a);
    }
  }

  lemma {:induction false} ConnectKeepsUsable(s: State, cfg: Config, pid: Pid, uid: nat, request: Request)
    requires Usable(s)
    ensures Usable(Connected(s, cfg, pid, uid, request))
  {
    var t := Connected(s, cfg, pid, uid, request);
    forall p | p in t.procs ensures ProcOk(t, p) {
      assert p in s.procs ==> ProcOk(s, p);
    }
  }

  lemma {:induction false} CrashKeepsUsable(s: State, pid: Pid)
    requires Usable(s) && pid in s.procs
    ensures Usable(s.(procs := s.procs[pid := Crashed]))
  {
    var t := s.(procs := s.procs[pid := Crashed]);
    forall p | p in t.procs ensures ProcOk(t, p) {
      assert p in s.procs ==> ProcOk(s, p);
    }
  }

  lemma {:induction false} ArrivalKeepsUsable(s: State, cfg: Config, parses: Bytes -> bool, a: Action)
    requires Usable(s) && (a.Call? ==> a.pid !in s.procs)
    ensures Usable(Step(s, cfg, parses, a))
  {
    if a.Connect? {
      ConnectKeepsUsable(s, cfg, a.pid, a.uid, a.request);
    } else if a.pid in s.procs {
      CrashKeepsUsable(s, a.pid);
    }
  }

  lemma {:induction false} CallKeepsUsable(s: State, t: State, pid: Pid)
    requires Usable(s) && OnlyMoves(s, t, pid) && CallerOk(t, pid)
    ensures Usable(t)
  {
    forall p | p in t.procs && p != pid ensures ProcOk(t, p) {
      OthersStayOk(s, t, pid, p);
    }
  }

  lemma {:induction false} StepKeepsAccounts(s: State, cfg: Config, parses: Bytes -> bool, a: Action)
    requires Accounted(s)
    ensures Accounted(Step(s, cfg, parses, a))
  {
  }

  lemma {:induction false} ArmKeepsSources(s: State, parses: Bytes -> bool, pid: Pid, fault: Fault, amount: nat)
    requires Sourced(s, parses) && pid in s.procs && IsArm(s.procs[pid])
    ensures Sourced(ArmCall(s, pid, fault, amount), parses)
  {
  }

  lemma {:induction false} FetchKeepsSources(s: State, parses: Bytes -> bool, pid: Pid, fault: Fault, amount: nat)
    requires Usable(s) && Sourced(s, parses) && pid in s.procs && !IsArm(s.procs[pid])
    ensures Sourced(FetchCall(s, parses, pid, fault, amount), parses)
  {
    assert ProcOk(s, pid);
  }

  lemma {:induction false} StepKeepsSources(s: State, cfg: Config, parses: Bytes -> bool, a: Action)
    requires Usable(s) && Sourced(s, parses)
    ensures Sourced(Step(s, cfg, parses, a), parses)
  {
    if a.Call? && a.pid in s.procs {
      if IsArm(s.procs[a.pid]) {
        ArmKeepsSources(s, parses, a.pid, a.fault, a.amount);
      } else {
        FetchKeepsSources(s, parses, a.pid, a.fault, a.amount);
      }
    }
  }

  // ----- Every interleaving -----

  function Run(cfg: Config, parses: Bytes -> bool, actions: Trace<Action>): State {
    match actions
    case Begin => Initial
    case Then(earlier, a) => Step(Run(cfg, parses, earlier), cfg, parses, a)
  }

  lemma {:induction false} RunIsUsable(cfg: Config, parses: Bytes -> bool, actions: Trace<Action>)
    ensures Usable(Run(cfg, parses, actions))
  {
    if actions.Then? {
      RunIsUsable(cfg, parses, actions.earlier);
      StepKeepsUsable(Run(cfg, parses, actions.earlier), cfg, parses, actions.last);
    }
  }

  /**
   * However any number of arm and fetch processes interleave, fail and die, there are never more
   * grants than publications, and one more is possible only while a file is armed or being taken.
   */
  lemma {:induction false} GrantsNeverExceedArms(cfg: Config, parses: Bytes -> bool, actions: Trace<Action>)
    ensures var s := Run(cfg, parses, actions);
            |s.granted| + Present(s, Taking) + Present(s, Armed) <= s.published
  {
    if actions.Then? {
      GrantsNeverExceedArms(cfg, parses, actions.earlier);
      StepKeepsAccounts(Run(cfg, parses, actions.earlier), cfg, parses, actions.last);
    }
  }

  /** No proper beginning of a stored text parses: it is one JSON object. */
  ghost predicate SelfDelimiting(parses: Bytes -> bool, text: Bytes) {
    forall part :: part <= text && parses(part) ==> part == text
  }

  lemma {:induction false} GrantsAreSourced(cfg: Config, parses: Bytes -> bool, actions: Trace<Action>)
    ensures Sourced(Run(cfg, parses, actions), parses)
  {
    if actions.Then? {
      GrantsAreSourced(cfg, parses, actions.earlier);
      RunIsUsable(cfg, parses, actions.earlier);
      StepKeepsSources(Run(cfg, parses, actions.earlier), cfg, parses, actions.last);
    }
  }

  /** A granted authorization is never torn: it is the complete text of one arm request. */
  lemma {:induction false} GrantsAreWhole(cfg: Config, parses: Bytes -> bool, actions: Trace<Action>)
    requires forall a :: Occurs(a, actions) && a.Connect? && a.request.Arm? ==> SelfDelimiting(parses, a.request.text)
    ensures var s := Run(cfg, parses, actions);
            forall i :: 0 <= i < |s.granted| ==> s.granted[i].0 in s.armed && s.granted[i].1 == s.armed[s.granted[i].0]
  {
    var s := Run(cfg, parses, actions);
    GrantsAreSourced(cfg, parses, actions);
    forall i | 0 <= i < |s.granted|
      ensures s.granted[i].1 == s.armed[s.granted[i].0]
    {
      ArmedCameFromRequest(cfg, parses, actions, s.granted[i].0);
    }
  }

  lemma {:induction false} StepArms(s: State, cfg: Config, parses: Bytes -> bool, a: Action, pid: Pid)
    requires pid in Step(s, cfg, parses, a).armed
    ensures var text := Step(s, cfg, parses, a).armed[pid];
            a == Connect(pid, cfg.armUid, Arm(text)) || (pid in s.armed && s.armed[pid] == text)
  {
  }

  /** Only a request from the arming user becomes an arm process. */
  lemma {:induction false} ArmedCameFromRequest(cfg: Config, parses: Bytes -> bool, actions: Trace<Action>, pid: Pid)
    requires pid in Run(cfg, parses, actions).armed
    ensures Occurs(Connect(pid, cfg.armUid, Arm(Run(cfg, parses, actions).armed[pid])), actions)
  {
    var s := Run(cfg, parses, actions.earlier);
    StepArms(s, cfg, parses, actions.last, pid);
    if actions.last != Connect(pid, cfg.armUid, Arm(Run(cfg, parses, actions).armed[pid])) {
      ArmedCameFromRequest(cfg, parses, actions.earlier, pid);
    }
  }

  predicate IsFetch(p: Proc) {
    p.Claiming? || p.Inspecting? || p.Opening? || p.Reading? || p.Erasing? || p.FetchEnded?
  }

  /** The configured peer asked for this fetch. */
  ghost predicate FetchAsked(cfg: Config, actions: Trace<Action>, pid: Pid) {
    cfg.peerUid.Some? && Occurs(Connect(pid, cfg.peerUid.value, Fetch), actions)
  }

  lemma {:induction false} ArmCallMakesNoFetch(s: State, pid: Pid, fault: Fault, amount: nat, q: Pid)
    requires pid in s.procs && IsArm(s.procs[pid])
    ensures var t := ArmCall(s, pid, fault, amount);
            q in t.procs && IsFetch(t.procs[q]) ==> q in s.procs && IsFetch(s.procs[q])
  {
  }

  lemma {:induction false} FetchCallMakesNoFetch(s: State, parses: Bytes -> bool, pid: Pid, fault: Fault, amount: nat,
                                                 q: Pid)
    requires pid in s.procs
    ensures var t := FetchCall(s, parses, pid, fault, amount);
            q in t.procs && IsFetch(t.procs[q]) ==> q in s.procs && IsFetch(s.procs[q])
  {
  }

  lemma {:induction false} StepFetches(s: State, cfg: Config, parses: Bytes -> bool, a: Action, pid: Pid)
    requires pid in Step(s, cfg, parses, a).procs && IsFetch(Step(s, cfg, parses, a).procs[pid])
    ensures || (cfg.peerUid.Some? && a == Connect(pid, cfg.peerUid.value, Fetch))
            || (pid in s.procs && IsFetch(s.procs[pid]))
  {
    if a.Call? && a.pid in s.procs {
      if IsArm(s.procs[a.pid]) {
        ArmCallMakesNoFetch(s, a.pid, a.fault, a.amount, pid);
      } else {
        FetchCallMakesNoFetch(s, parses, a.pid, a.fault, a.amount, pid);
      }
    }
  }

  /** Only a request from the configured peer becomes a fetch process. */
  lemma {:induction false} FetchCameFromRequest(cfg: Config, parses: Bytes -> bool, actions: Trace<Action>, pid: Pid)
    requires pid in Run(cfg, parses, actions).procs && IsFetch(Run(cfg, parses, actions).procs[pid])
    ensures FetchAsked(cfg, actions, pid)
  {
    StepFetches(Run(cfg, parses, actions.earlier), cfg, parses, actions.last, pid);
    if actions.last.Connect? && actions.last == Connect(pid, actions.last.uid, Fetch)
        && cfg.peerUid == Some(actions.last.uid) {
      assert Occurs(Connect(pid, cfg.peerUid.value, Fetch), actions);
    } else {
      FetchCameFromRequest(cfg, parses, actions.earlier, pid);
    }
  }

  // ----- Fetches that do not overlap -----

  /** Between setting the armed file aside and erasing it. */
  predicate MidFetch(p: Proc) {
    p.Inspecting? || p.Opening? || p.Reading? || p.Erasing?
  }

  /** No fetch sets a file aside while another one is under way. */
  ghost predicate Orderly(s: State, a: Action) {
    a.Call? && a.pid in s.procs && s.procs[a.pid].Claiming? ==> forall q :: q in s.procs ==> !MidFetch(s.procs[q])
  }

  ghost predicate OrderlyRun(cfg: Config, parses: Bytes -> bool, actions: Trace<Action>) {
    actions.Then? ==>
      OrderlyRun(cfg, parses, actions.earlier) && Orderly(Run(cfg, parses, actions.earlier), actions.last)
  }

  /** The file a fetch has opened, if it has come that far. */
  function Held(p: Proc): Option<Pid> {
    match p
    case Reading(file, _) => Some(file)
    case Erasing(Some((file, _))) => Some(file)
    case _ => None
  }

  ghost predicate Exclusive(s: State) {
    && (forall p, q :: p in s.procs && q in s.procs && MidFetch(s.procs[p]) && MidFetch(s.procs[q]) ==> p == q)
    && (forall p :: p in s.procs && Held(s.procs[p]).Some? ==>
          Taking in s.dir.names && s.dir.names[Taking] == Held(s.procs[p]).value)
  }

  ghost predicate OneNameEach(dir: Dir) {
    forall m, n :: m in dir.names && n in dir.names && dir.names[m] == dir.names[n] ==> m == n
  }

  /** What has been granted has no name left, and was granted once. */
  ghost predicate Spent(s: State) {
    && (forall i :: 0 <= i < |s.granted| ==> s.granted[i].0 in s.dir.files && s.granted[i].0 !in s.dir.names.Values)
    && (forall i, j :: 0 <= i < j < |s.granted| ==> s.granted[i].0 != s.granted[j].0)
  }

  lemma {:induction false} DirKeepsOneName(dir: Dir, from: Name, to: Name, n: Name, file: Pid)
    requires OneNameEach(dir)
    ensures OneNameEach(dir.Unlink(n))
    ensures from in dir.names ==> OneNameEach(dir.Rename(from, to))
    ensures file !in dir.names.Values ==> OneNameEach(dir.Create(n, file))
  {
    if file !in dir.names.Values {
      assert forall m :: m in dir.names ==> dir.names[m] != file;
    }
  }

  /** A call leaves the names alone or does one of the directory's operations. */
  ghost predicate OneOperation(dir: Dir, next: Dir, pid: Pid) {
    || next.names == dir.names || next.names == dir.Unlink(Tmp).names || next.names == dir.Unlink(Taking).names
    || (Tmp in dir.names && next.names == dir.Rename(Tmp, Armed).names)
    || (Armed in dir.names && next.names == dir.Rename(Armed, Taking).names)
    || (pid !in dir.files && next.names == dir.Create(Tmp, pid).names)
  }

  lemma {:induction false} ArmOnNames(s: State, pid: Pid, fault: Fault, amount: nat)
    requires pid in s.procs && ProcOk(s, pid)
    ensures OneOperation(s.dir, ArmCall(s, pid, fault, amount).dir, pid)
  {
  }

  lemma {:induction false} FetchOnNames(s: State, parses: Bytes -> bool, pid: Pid, fault: Fault, amount: nat)
    requires pid in s.procs
    ensures OneOperation(s.dir, FetchCall(s, parses, pid, fault, amount).dir, pid)
  {
  }

  lemma {:induction false} OperationKeepsOneName(dir: Dir, next: Dir, pid: Pid)
    requires OneNameEach(dir) && OneOperation(dir, next, pid)
    requires forall n :: n in dir.names ==> dir.names[n] in dir.files
    ensures OneNameEach(next)
  {
    DirKeepsOneName(dir, Tmp, Armed, Tmp, pid);
    DirKeepsOneName(dir, Armed, Taking, Taking, pid);
  }

  lemma {:induction false} StepKeepsOneName(s: State, cfg: Config, parses: Bytes -> bool, a: Action)
    requires Usable(s) && OneNameEach(s.dir)
    ensures OneNameEach(Step(s, cfg, parses, a).dir)
  {
    if a.Call? && a.pid in s.procs {
      assert ProcOk(s, a.pid);
      if IsArm(s.procs[a.pid]) {
        ArmOnNames(s, a.pid, a.fault, a.amount);
      } else {
        FetchOnNames(s, parses, a.pid, a.fault, a.amount);
      }
      OperationKeepsOneName(s.dir, Step(s, cfg, parses, a).dir, a.pid);
    }
  }

  /** A process that is not fetching and leaves the taken name alone disturbs no fetch. */
  lemma {:induction false} BystanderKeepsExclusive(s: State, t: State, pid: Pid, next: Proc)
    requires Exclusive(s) && t.procs == s.procs[pid := next] && !MidFetch(next)
    requires Taking in s.dir.names ==> Taking in t.dir.names && t.dir.names[Taking] == s.dir.names[Taking]
    ensures Exclusive(t)
  {
  }

  lemma {:induction false} ArmLeavesTaking(s: State, pid: Pid, fault: Fault, amount: nat)
    requires pid in s.procs && IsArm(s.procs[pid])
    ensures var t := ArmCall(s, pid, fault, amount);
            && pid in t.procs && IsArm(t.procs[pid]) && t.procs == s.procs[pid := t.procs[pid]]
            && (Taking in s.dir.names ==> Taking in t.dir.names && t.dir.names[Taking] == s.dir.names[Taking])
  {
  }

  lemma {:induction false} FetchKeepsExclusive(s: State, parses: Bytes -> bool, pid: Pid, fault: Fault, amount: nat)
    requires pid in s.procs && !IsArm(s.procs[pid])
    requires Exclusive(s)
    requires s.procs[pid].Claiming? ==> forall q :: q in s.procs ==> !MidFetch(s.procs[q])
    ensures Exclusive(FetchCall(s, parses, pid, fault, amount))
  {
    var t := FetchCall(s, parses, pid, fault, amount);
    assert t.procs == s.procs[pid := t.procs[pid]];
    assert t.dir == s.dir || s.procs[pid].Claiming? || s.procs[pid].Erasing?;
    assert s.procs[pid].Erasing? ==> !MidFetch(t.procs[pid]);
    assert MidFetch(t.procs[pid]) ==> MidFetch(s.procs[pid]) || s.procs[pid].Claiming?;
  }

  lemma {:induction false} OrderlyKeepsExclusive(s: State, cfg: Config, parses: Bytes -> bool, a: Action)
    requires Exclusive(s) && Orderly(s, a)
    ensures Exclusive(Step(s, cfg, parses, a))
  {
    if a.Call? && a.pid in s.procs {
      if IsArm(s.procs[a.pid]) {
        ArmLeavesTaking(s, a.pid, a.fault, a.amount);
        var t := ArmCall(s, a.pid, a.fault, a.amount);
        BystanderKeepsExclusive(s, t, a.pid, t.procs[a.pid]);
      } else {
        FetchKeepsExclusive(s, parses, a.pid, a.fault, a.amount);
      }
    }
  }

  lemma {:induction false} ArmKeepsSpent(s: State, pid: Pid, fault: Fault, amount: nat)
    requires Usable(s) && Spent(s) && pid in s.procs && IsArm(s.procs[pid])
    ensures Spent(ArmCall(s, pid, fault, amount))
  {
    assert ProcOk(s, pid);
  }

  lemma {:induction false} GrantSpends(s: State, t: State, text: Bytes)
    requires Spent(s) && OneNameEach(s.dir) && Taking in s.dir.names && s.dir.names[Taking] in s.dir.files
    requires t.dir == s.dir.Unlink(Taking) && t.granted == s.granted + [(s.dir.names[Taking], text)]
    ensures Spent(t)
  {
    var file := s.dir.names[Taking];
    assert file in s.dir.names.Values && file !in t.dir.names.Values;
    assert t.dir.names.Values <= s.dir.names.Values;
  }

  lemma {:induction false} FetchKeepsSpent(s: State, parses: Bytes -> bool, pid: Pid, fault: Fault, amount: nat)
    requires pid in s.procs && !IsArm(s.procs[pid])
    requires Exclusive(s) && OneNameEach(s.dir) && Spent(s)
              && (Taking in s.dir.names ==> s.dir.names[Taking] in s.dir.files)
    ensures Spent(FetchCall(s, parses, pid, fault, amount))
  {
    var t := FetchCall(s, parses, pid, fault, amount);
    if t.granted == s.granted {
      assert t.dir.files == s.dir.files && t.dir.names.Values <= s.dir.names.Values;
    } else {
      assert Held(s.procs[pid]) == Some(s.procs[pid].read.value.0);
      GrantSpends(s, t, s.procs[pid].read.value.1);
    }
  }

  lemma {:induction false} OrderlyKeepsSpent(s: State, cfg: Config, parses: Bytes -> bool, a: Action)
    requires Usable(s) && Exclusive(s) && OneNameEach(s.dir) && Spent(s)
    ensures Spent(Step(s, cfg, parses, a))
  {
    if a.Call? && a.pid in s.procs {
      if IsArm(s.procs[a.pid]) {
        ArmKeepsSpent(s, a.pid, a.fault, a.amount);
      } else {
        FetchKeepsSpent(s, parses, a.pid, a.fault, a.amount);
      }
    }
  }

  lemma {:induction false} OrderlyRunInvariant(cfg: Config, parses: Bytes -> bool, actions: Trace<Action>)
    requires OrderlyRun(cfg, parses, actions)
    ensures var s := Run(cfg, parses, actions); Exclusive(s) && OneNameEach(s.dir) && Spent(s)
  {
    if actions.Then? {
      var s := Run(cfg, parses, actions.earlier);
      OrderlyRunInvariant(cfg, parses, actions.earlier);
      RunIsUsable(cfg, parses, actions.earlier);
      OrderlyKeepsExclusive(s, cfg, parses, actions.last);
      StepKeepsOneName(s, cfg, parses, actions.last);
      OrderlyKeepsSpent(s, cfg, parses, actions.last);
    }
  }

  /** As long as fetches do not overlap, each single armed file is granted at most once. */
  lemma {:induction false} OrderlyFetchesUseEachFileOnce(cfg: Config, parses: Bytes -> bool, actions: Trace<Action>,
        i: nat, j: nat)
    requires OrderlyRun(cfg, parses, actions) && i < j < |Run(cfg, parses, actions).granted|
    ensures Run(cfg, parses, actions).granted[i].0 != Run(cfg, parses, actions).granted[j].0
  {
    OrderlyRunInvariant(cfg, parses, actions);
  }

  // ----- The helper's code -----

  /** The state directory. */
  class StateDir {
    var names: map<Name, Pid>
    var files: map<Pid, Bytes>

    function View(): Dir
      reads this
    {
      Dir(names, files)
    }

    method Unlink(n: Name, fault: Fault) returns (ok: bool)
      modifies this
      ensures View() == if fault.FailsBefore? then old(View()) else old(View()).Unlink(n)
      ensures ok <==> fault.Works? && n in old(names)
    {
      ok := fault.Works? && n in names;
      if !fault.FailsBefore? {
        names := names - {n};
      }
    }

    method CreateNew(n: Name, file: Pid, fault: Fault) returns (ok: bool)
      modifies this
      ensures ok <==> fault.Works? && n !in old(names)
      ensures View() == if fault.FailsBefore? || n in old(names) then old(View()) else old(View()).Create(n, file)
    {
      if fault.FailsBefore? || n in names {
        return false;
      }
      names, files := names[n := file], files[file := []];
      return fault.Works?;
    }

    method Append(file: Pid, data: Bytes, fault: Fault) returns (ok: bool)
      modifies this`files
      ensures ok <==> fault.Works?
      ensures View() == if fault.FailsBefore? then old(View()) else old(View()).Append(file, data)
    {
      if !fault.FailsBefore? {
        files := files[file := View().Content(file) + data];
      }
      return fault.Works?;
    }

    method Rename(from: Name, to: Name, fault: Fault) returns (ok: bool)
      modifies this`names
      ensures ok <==> fault.Works? && from in old(names)
      ensures View() == if fault.FailsBefore? || from !in old(names) then old(View()) else old(View()).Rename(from, to)
    {
      if fault.FailsBefore? || from !in names {
        return false;
      }
      names := (names - {from})[to := names[from]];
      return fault.Works?;
    }
  }

  /** `after` is `before` and then calls of `pid` alone. */
  ghost predicate Continues(before: Trace<Action>, after: Trace<Action>, pid: Pid) {
    after == before ||
    (after.Then? && after.last.Call? && after.last.pid == pid && Continues(before, after.earlier, pid))
  }

  /** A continuation that ends with the directory and the process as they are. */
  ghost predicate Traces(cfg: Config, parses: Bytes -> bool, before: Trace<Action>, after: Trace<Action>, pid: Pid,
                         dir: Dir, p: Proc) {
    && Continues(before, after, pid)
    && var t := Run(cfg, parses, after);
       t.dir == dir && pid in t.procs && t.procs[pid] == p
  }

  lemma {:induction false} TraceStep(cfg: Config, parses: Bytes -> bool, before: Trace<Action>, after: Trace<Action>,
                                     pid: Pid, dir: Dir, p: Proc, fault: Fault, amount: nat)
    requires Traces(cfg, parses, before, after, pid, dir, p)
    ensures var s := Run(cfg, parses, after);
            var t := Run(cfg, parses, Then(after, Call(pid, fault, amount)));
            && t == (if IsArm(p) then ArmCall(s, pid, fault, amount) else FetchCall(s, parses, pid, fault, amount))
            && pid in t.procs
            && Traces(cfg, parses, before, Then(after, Call(pid, fault, amount)), pid, t.dir, t.procs[pid])
  {
  }

  lemma {:induction false} WriteCall(s: State, pid: Pid, text: Bytes, written: nat, fault: Fault, amount: nat)
    requires pid in s.procs && s.procs[pid] == Writing(text, written) && written < |text|
    ensures var t := ArmCall(s, pid, fault, amount);
            var n := Min(amount, |text| - written);
            && t.dir == (if fault.FailsBefore? then s.dir else s.dir.Append(pid, text[written..written + n]))
            && pid in t.procs && t.procs[pid] == if fault.Works? then Writing(text, written + n) else Abandoning
  {
  }

  lemma {:induction false} TraceWrite(cfg: Config, parses: Bytes -> bool, before: Trace<Action>, after: Trace<Action>,
                                      pid: Pid, dir: Dir, text: Bytes, written: nat, fault: Fault, amount: nat)
    requires Traces(cfg, parses, before, after, pid, dir, Writing(text, written)) && written < |text|
    ensures var n := Min(amount, |text| - written);
            Traces(cfg, parses, before, Then(after, Call(pid, fault, amount)), pid,
                   if fault.FailsBefore? then dir else dir.Append(pid, text[written..written + n]),
                   if fault.Works? then Writing(text, written + n) else Abandoning)
  {
    TraceStep(cfg, parses, before, after, pid, dir, Writing(text, written), fault, amount);
    WriteCall(Run(cfg, parses, after), pid, text, written, fault, amount);
  }

  /** Once everything is written, the file holds the text; then it is synced. */
  lemma {:induction false} TraceSync(cfg: Config, parses: Bytes -> bool, before: Trace<Action>, after: Trace<Action>,
                                     pid: Pid, dir: Dir, text: Bytes, fault: Fault)
    requires Traces(cfg, parses, before, after, pid, dir, Writing(text, |text|))
    ensures dir.Content(pid) == text
    ensures Traces(cfg, parses, before, Then(after, Call(pid, fault, 0)), pid, dir, if fault.Works?
              then Publishing(text) else Abandoning)
  {
    RunIsUsable(cfg, parses, after);
    assert ProcOk(Run(cfg, parses, after), pid);
    assert text[..|text|] == text;
    TraceStep(cfg, parses, before, after, pid, dir, Writing(text, |text|), fault, 0);
  }

  /** One write of some more of the text. It can fail unless `works`. */
  method WriteSome(d: StateDir, pid: Pid, text: Bytes, written: nat, works: bool, ghost cfg: Config,
                   ghost parses: Bytes -> bool, ghost before: Trace<Action>, ghost sofar: Trace<Action>)
    returns (ok: bool, more: nat, ghost after: Trace<Action>)
    requires written < |text| && Traces(cfg, parses, before, sofar, pid, d.View(), Writing(text, written))
    modifies d`files
    ensures Traces(cfg, parses, before, after, pid, d.View(), if ok then Writing(text, more) else Abandoning)
    ensures (works ==> ok) && (ok ==> written < more <= |text|)
  {
    var fault: Fault, extra: nat := *, *;
    if works {
      fault := Works;
    }
    TraceWrite(cfg, parses, before, sofar, pid, d.View(), text, written, fault, extra + 1);
    var n := Min(extra + 1, |text| - written);
    ok := d.Append(pid, text[written..written + n], fault);
    more := written + n;
    after := Then(sofar, Call(pid, fault, extra + 1));
  }

  /** How the calls of an arm go. */
  datatype ArmCalls = ArmCalls(clear: Fault, create: Fault, write: bool, sync: Fault, publish: Fault, cleanup: Fault)

  /** Writes and syncs the temporary file. */
  method WriteTmp(d: StateDir, pid: Pid, text: Bytes, calls: ArmCalls, ghost cfg: Config, ghost parses: Bytes -> bool,
                  ghost before: Trace<Action>, ghost sofar: Trace<Action>)
    returns (ok: bool, ghost after: Trace<Action>)
    requires Traces(cfg, parses, before, sofar, pid, d.View(), Writing(text, 0))
    modifies d`files
    ensures Traces(cfg, parses, before, after, pid, d.View(), if ok then Publishing(text) else Abandoning)
    ensures ok <==> calls.write && calls.sync == Works
    ensures ok ==> d.View().Content(pid) == text
  {
    after := sofar;
    var written := 0;
    while written < |text|
      invariant 0 <= written <= |text|
      invariant Traces(cfg, parses, before, after, pid, d.View(), Writing(text, written))
    {
      ok, written, after := WriteSome(d, pid, text, written, calls.write, cfg, parses, before, after);
      if !ok {
        return;
      }
    }
    var fault := if calls.write then calls.sync else FailsBefore;
    TraceSync(cfg, parses, before, after, pid, d.View(), text, fault);
    after := Then(after, Call(pid, fault, 0));
    ok := fault.Works?;
  }

  /** Clears and creates the temporary file. */
  method CreateTmp(d: StateDir, pid: Pid, text: Bytes, calls: ArmCalls, ghost cfg: Config, ghost parses: Bytes -> bool,
                   ghost before: Trace<Action>)
    returns (ok: bool, ghost after: Trace<Action>)
    requires Traces(cfg, parses, before, before, pid, d.View(), Clearing(text))
    modifies d
    ensures Traces(cfg, parses, before, after, pid, d.View(), if ok then Writing(text, 0) else Abandoning)
    ensures ok <==> (calls.clear != FailsBefore || Tmp !in old(d.names)) && calls.create == Works
    ensures ok ==> d.names == old(d.names)[Tmp := pid]
    ensures d.names - {Tmp} == old(d.names) - {Tmp}
  {
    var fault := calls.clear;
    TraceStep(cfg, parses, before, before, pid, d.View(), Clearing(text), fault, 0);
    var _ := d.Unlink(Tmp, fault);
    after := Then(before, Call(pid, fault, 0));
    fault := calls.create;
    TraceStep(cfg, parses, before, after, pid, d.View(), Creating(text), fault, 0);
    ok := d.CreateNew(Tmp, pid, fault);
    after := Then(after, Call(pid, fault, 0));
  }

  /**
   * Stores an authorization under the armed name. It succeeds if and only if its calls work, except that
   * clearing away an old temporary file only has to happen if there is one. On any error the temporary file
   * is removed, and what was armed before stays armed unless the rename took effect all the same.
   */
  method WriteArmed(d: StateDir, pid: Pid, text: Bytes, calls: ArmCalls, ghost cfg: Config, ghost parses: Bytes -> bool,
                    ghost before: Trace<Action>)
    returns (ok: bool, ghost after: Trace<Action>)
    requires Traces(cfg, parses, before, before, pid, d.View(), Clearing(text))
    modifies d
    ensures Traces(cfg, parses, before, after, pid, d.View(), ArmEnded)
    ensures ok <==>
              && (calls.clear != FailsBefore || Tmp !in old(d.names)) && calls.create == Works
              && calls.write && calls.sync == Works && calls.publish == Works
    ensures ok ==> d.names == (old(d.names) - {Tmp})[Armed := pid] && d.View().Content(pid) == text
    ensures !ok && calls.cleanup != FailsBefore ==> Tmp !in d.names
    ensures !ok && calls.publish != FailsAfter ==> d.names - {Tmp} == old(d.names) - {Tmp}
  {
    ok, after := CreateTmp(d, pid, text, calls, cfg, parses, before);
    if ok {
      ok, after := WriteTmp(d, pid, text, calls, cfg, parses, before, after);
    }
    if ok {
      var fault := calls.publish;
      TraceStep(cfg, parses, before, after, pid, d.View(), Publishing(text), fault, 0);
      ok := d.Rename(Tmp, Armed, fault);
      after := Then(after, Call(pid, fault, 0));
    }
    if !ok {
      after := RemoveTmp(d, pid, calls.cleanup, cfg, parses, before, after);
    }
  }

  method RemoveTmp(d: StateDir, pid: Pid, fault: Fault, ghost cfg: Config, ghost parses: Bytes -> bool,
                   ghost before: Trace<Action>, ghost sofar: Trace<Action>)
    returns (ghost after: Trace<Action>)
    requires Traces(cfg, parses, before, sofar, pid, d.View(), Abandoning)
    modifies d
    ensures Traces(cfg, parses, before, after, pid, d.View(), ArmEnded)
    ensures d.names == if fault == FailsBefore then old(d.names) else old(d.names) - {Tmp}
  {
    TraceStep(cfg, parses, before, sofar, pid, d.View(), Abandoning, fault, 0);
    var _ := d.Unlink(Tmp, fault);
    after := Then(sofar, Call(pid, fault, 0));
  }

  ghost function Granted(cfg: Config, parses: Bytes -> bool, actions: Trace<Action>): seq<(Pid, Bytes)> {
    Run(cfg, parses, actions).granted
  }

  /** How the calls of a take go. */
  datatype TakeCalls = TakeCalls(claim: Fault, inspect: Fault, open: Fault, read: bool, erase: Fault)

  /** Reads an open file up to `cap` bytes and parses what it got. Unless `works`, some read fails. */
  method ReadOpen(d: StateDir, pid: Pid, file: Pid, cap: nat, works: bool, parses: Bytes -> bool,
                  ghost cfg: Config, ghost before: Trace<Action>, ghost sofar: Trace<Action>)
    returns (read: Option<(Pid, Bytes)>, ghost after: Trace<Action>)
    requires Traces(cfg, parses, before, sofar, pid, d.View(), Reading(file, []))
    ensures Traces(cfg, parses, before, after, pid, d.View(), Erasing(read))
              && Granted(cfg, parses, after) == Granted(cfg, parses, sofar)
    ensures var content := d.View().Content(file);
            var text := content[..Min(cap, |content|)];
            read == if works && parses(text) then Some((file, text)) else None
  {
    after := sofar;
    var got: Bytes := [];
    var content := d.View().Content(file);
    var fault: Fault;
    while |got| < Min(cap, |content|)
      invariant |got| <= Min(cap, |content|) && got == content[..|got|]
      invariant Traces(cfg, parses, before, after, pid, d.View(), Reading(file, got))
                && Granted(cfg, parses, after) == Granted(cfg, parses, sofar)
    {
      var extra: nat;
      fault, extra := *, *;
      if works {
        fault := Works;
      }
      var n := Min(extra + 1, Min(cap, |content|) - |got|);
      TraceStep(cfg, parses, before, after, pid, d.View(), Reading(file, got), fault, n);
      after := Then(after, Call(pid, fault, n));
      if !fault.Works? {
        return None, after;
      }
      got := got + content[|got|..|got| + n];
    }
    fault := if works then Works else FailsBefore;
    TraceStep(cfg, parses, before, after, pid, d.View(), Reading(file, got), fault, 0);
    after := Then(after, Call(pid, fault, 0));
    read := if works && parses(got) then Some((file, got)) else None;
  }

  /** Inspects, opens and reads the file that was set aside. */
  method ReadTaking(d: StateDir, pid: Pid, cap: nat, calls: TakeCalls, parses: Bytes -> bool,
                    ghost cfg: Config, ghost before: Trace<Action>, ghost sofar: Trace<Action>)
    returns (read: Option<(Pid, Bytes)>, ghost after: Trace<Action>)
    requires Traces(cfg, parses, before, sofar, pid, d.View(), Inspecting)
    ensures Traces(cfg, parses, before, after, pid, d.View(), Erasing(read))
              && Granted(cfg, parses, after) == Granted(cfg, parses, sofar)
    ensures if Taking !in d.names then read == None
            else var content := d.View().Content(d.names[Taking]);
                 var text := content[..Min(cap, |content|)];
                 var works := calls.inspect == Works && calls.open == Works && calls.read;
                 read == if works && parses(text) then Some((d.names[Taking], text)) else None
  {
    var fault := calls.inspect;
    TraceStep(cfg, parses, before, sofar, pid, d.View(), Inspecting, fault, 0);
    after := Then(sofar, Call(pid, fault, 0));
    if !fault.Works? || Taking !in d.names {
      return None, after;
    }
    fault := calls.open;
    TraceStep(cfg, parses, before, after, pid, d.View(), Opening, fault, 0);
    after := Then(after, Call(pid, fault, 0));
    if !fault.Works? {
      return None, after;
    }
    read, after := ReadOpen(d, pid, d.names[Taking], cap, calls.read, parses, cfg, before, after);
  }

  /** Renames the armed file aside. */
  method SetAside(d: StateDir, pid: Pid, fault: Fault, parses: Bytes -> bool, ghost cfg: Config,
                  ghost before: Trace<Action>)
    returns (ok: bool, ghost after: Trace<Action>)
    requires Traces(cfg, parses, before, before, pid, d.View(), Claiming)
    modifies d
    ensures Traces(cfg, parses, before, after, pid, d.View(), if ok then Inspecting else FetchEnded)
    ensures ok <==> fault == Works && Armed in old(d.names)
    ensures d.View() ==
              if fault == FailsBefore || Armed !in old(d.names) then old(d.View())
              else old(d.View()).Rename(Armed, Taking)
    ensures Granted(cfg, parses, after) == Granted(cfg, parses, before)
  {
    TraceStep(cfg, parses, before, before, pid, d.View(), Claiming, fault, 0);
    ok := d.Rename(Armed, Taking, fault);
    after := Then(before, Call(pid, fault, 0));
  }

  /** Erases the file that was set aside; the grant goes out only if that worked. */
  method EraseTaking(d: StateDir, pid: Pid, read: Option<(Pid, Bytes)>, fault: Fault, parses: Bytes -> bool,
                     ghost cfg: Config, ghost before: Trace<Action>, ghost sofar: Trace<Action>)
    returns (ok: bool, ghost after: Trace<Action>)
    requires Traces(cfg, parses, before, sofar, pid, d.View(), Erasing(read))
    modifies d
    ensures Traces(cfg, parses, before, after, pid, d.View(), FetchEnded)
    ensures ok <==> fault == Works && Taking in old(d.names)
    ensures d.View() == if fault == FailsBefore then old(d.View()) else old(d.View()).Unlink(Taking)
    ensures Granted(cfg, parses, after) ==
              Granted(cfg, parses, sofar) + if ok && read.Some? then [read.value] else []
  {
    TraceStep(cfg, parses, before, sofar, pid, d.View(), Erasing(read), fault, 0);
    ok := d.Unlink(Taking, fault);
    after := Then(sofar, Call(pid, fault, 0));
  }

  datatype Taken = NotArmed | Refused | Authorized(text: Bytes)

  /**
   * Consumes the armed file: sets it aside, reads it, and erases it whatever came of reading. It authorizes if
   * and only if every call works and what was armed parses.
   */
  method TakeArmed(d: StateDir, pid: Pid, cap: nat, calls: TakeCalls, parses: Bytes -> bool, ghost cfg: Config,
                   ghost before: Trace<Action>)
    returns (r: Taken, ghost after: Trace<Action>)
    requires Traces(cfg, parses, before, before, pid, d.View(), Claiming)
    modifies d
    ensures Traces(cfg, parses, before, after, pid, d.View(), FetchEnded)
    ensures r.NotArmed? <==> Armed !in old(d.names) && calls.claim == Works
    ensures (r.NotArmed? ==> d.View() == old(d.View())) && (r.Authorized? ==> Armed in old(d.names))
    ensures Armed in old(d.names) ==>
              var content := old(d.View()).Content(old(d.names)[Armed]);
              var text := content[..Min(cap, |content|)];
              r == if calls == TakeCalls(Works, Works, Works, true, Works) && parses(text) then Authorized(text)
                   else Refused
    ensures Armed in old(d.names) && calls.claim == Works && calls.erase != FailsBefore ==>
              d.names == old(d.names) - {Armed, Taking}
    ensures Granted(cfg, parses, after) ==
              Granted(cfg, parses, before) + if r.Authorized? then [(old(d.names)[Armed], r.text)] else []
    ensures d.files == old(d.files)
  {
    var wasArmed := Armed in d.names;
    var ok;
    ok, after := SetAside(d, pid, calls.claim, parses, cfg, before);
    if !ok {
      return if wasArmed || !calls.claim.Works? then Refused else NotArmed, after;
    }
    var read;
    read, after := ReadTaking(d, pid, cap, calls, parses, cfg, before, after);
    ok, after := EraseTaking(d, pid, read, calls.erase, parses, cfg, before, after);
    r := if ok && read.Some? then Authorized(read.value.1) else Refused;
  }
}
