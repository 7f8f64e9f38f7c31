/**
  The accessory's setup code and its verifier: shown on a display or written to a tag, refreshed
  periodically, locked while a pairing attempt is under way, kept for a split pairing. This module
  is the machine on values; `SetupInfoServer` is the code.
*/
module SetupInfo {
  import opened Base

  /** Display and NFC as platform objects or, deprecated, as capabilities of the setup platform. */
  datatype Platform = Platform(display: bool, nfc: bool, legacyDisplay: bool, legacyNfc: bool,
                               hasSetupId: bool, staticCode: nat, staticVerifier: nat)

  /** A provisioned verifier, or one derived from a setup code and a random salt. */
  datatype Info = Static(verifier: nat) | Derived(code: nat, salt: nat)

  /** `NoAccessory`: the accessory of a stopped server was dereferenced. */
  datatype Status = Alive | AssertionFailure | NoAccessory | NoTimer

  /**
    `code` and `info` are None while unavailable. `running`, `paired`, `pairing` and `updatePending`
    belong to the environment: the server runs and has an accessory, a pairing is stored, a session
    is in Pair Setup, a state update is scheduled.
  */
  datatype State = State(code: Option<nat>, info: Option<Info>, lock: bool, keep: bool,
                         refreshTimer: bool, nfcTimer: bool,
                         running: bool, paired: bool, pairing: bool, updatePending: bool, status: Status)

  /**
    Which look-ups of the stored pairings fail in one step, in the order they are made: `first` before
    an attempt begins and when the payload is shown after one has ended, `guard` by the step itself,
    `prepare` and `show` while setup information is prepared and shown.
  */
  datatype Fails = Fails(first: bool, guard: bool, prepare: bool, show: bool)

  const NONE_FAILS := Fails(false, false, false, false)

  /** What one step may draw from its surroundings. */
  datatype Input = Input(code: nat, salt: nat, timerAvailable: bool, fails: Fails)

  const INITIAL := State(None, None, false, false, false, false, false, false, false, false, Alive)

  predicate Available(s: State) {
    s.code.Some? || s.info.Some?
  }

  /** A dynamic code is generated. */
  predicate IsDynamic(p: Platform) {
    p.display || p.legacyDisplay
  }

  predicate HasOutput(p: Platform) {
    p.display || p.legacyDisplay || p.nfc || p.legacyNfc
  }

  /** The code is shown or written wherever it is available, not only in NFC pairing mode. */
  predicate AlwaysShown(p: Platform) {
    p.display || p.legacyDisplay || p.legacyNfc
  }

  /** A look-up that fails finds no pairing. */
  predicate LooksPaired(s: State, fails: bool) {
    s.paired && !fails
  }

  /** A setup code is shown or written. */
  predicate Shown(p: Platform, s: State) {
    s.code.Some? && WouldShow(p, s)
  }

  /** A code would be, once it is available. */
  predicate WouldShow(p: Platform, s: State) {
    p.hasSetupId && (AlwaysShown(p) || (p.nfc && s.nfcTimer))
  }

  /** Only a start, a stop and a change of the pairings touch these. */
  predicate SameRun(s: State, r: State) {
    r.running == s.running && r.updatePending == s.updatePending && r.paired == s.paired
  }

  function Check(s: State, condition: bool): State {
    if s.status == Alive && !condition then s.(status := AssertionFailure) else s
  }

  /**
    Every payload needs the accessory's category; one with a setup code may not claim that the
    accessory is paired.
  */
  function Synchronize(p: Platform, s: State, fails: bool): (next: State)
    ensures SameRun(s, next)
  {
    if !HasOutput(p) then s
    else if s.status == Alive && !s.running then s.(status := NoAccessory)
    else Check(s, Shown(p, s) ==> !LooksPaired(s, fails))
  }

  function Zeroed(s: State): State {
    s.(code := None, info := None, lock := false, keep := false)
  }

  function Clear(s: State): (next: State)
    ensures SameRun(s, next)
  {
    var r := if Available(s) then Zeroed(s).(refreshTimer := false) else s;
    Check(r, !r.refreshTimer)
  }

  /** Generates a dynamic code or loads the static one. */
  function Load(p: Platform, s: State, i: Input): (next: State)
    ensures SameRun(s, next)
  {
    if IsDynamic(p) then
      var r := s.(code := Some(i.code));
      if r.lock then r
      else if r.refreshTimer then r.(status := AssertionFailure)
      else if !i.timerAvailable then r.(status := NoTimer)
      else r.(refreshTimer := true)
    else
      s.(code := if p.nfc || p.legacyNfc then Some(p.staticCode) else s.code, info := Some(Static(p.staticVerifier)))
  }

  function Prepare(p: Platform, s: State, lock: bool, i: Input): (next: State)
    ensures SameRun(s, next)
  {
    if s.status != Alive then s
    else if LooksPaired(s, i.fails.prepare) then s.(status := AssertionFailure)
    else if Available(s) then
      if lock then s.(lock := true, refreshTimer := false) else s
    else
      var r := Load(p, Zeroed(s).(lock := lock), i);
      if r.status != Alive then r else Synchronize(p, r, i.fails.show)
  }

  /** With a display an expired code is replaced. */
  function Regenerate(p: Platform, s: State, i: Input): (next: State)
    ensures SameRun(s, next)
  {
    if p.display then Prepare(p, s, false, i) else s
  }

  function RefreshExpired(p: Platform, s: State, i: Input): (next: State)
    ensures SameRun(s, next)
  {
    var r := Check(s.(refreshTimer := false), !LooksPaired(s, i.fails.guard) && !s.lock && Available(s));
    Regenerate(p, if r.status == Alive then Clear(r) else r, i)
  }

  /** None when a previous setup code should be restored and there is none. */
  function GetSetupInfo(p: Platform, s: State, restorePrevious: bool, i: Input): (next: (State, Option<Info>))
    ensures SameRun(s, next.0)
  {
    if restorePrevious && !Available(s) then (s, None)
    else if !Available(s) then (s.(status := AssertionFailure), None)
    else
      var r := if !restorePrevious && s.keep then
                 var c := Prepare(p, Clear(s), true, i);
                 Check(c, !c.keep)
               else s;
      if r.status != Alive then (r, None)
      else if r.info.Some? then (r, r.info)
      else if r.code.None? then (r.(status := AssertionFailure), None)
      else (r.(info := Some(Derived(r.code.value, i.salt))), Some(Derived(r.code.value, i.salt)))
  }

  /** A start schedules a state update, also one that is refused for the firmware being too old. */
  function ServerStart(p: Platform, s: State, i: Input): State {
    var r := Check(s.(running := true, updatePending := true), !s.refreshTimer);
    if p.display && !LooksPaired(s, i.fails.guard) then Prepare(p, r, false, i) else r
  }

  /** A scheduled state update stays scheduled; the accessory goes last. */
  function ServerStop(p: Platform, s: State, i: Input): State {
    var r := Synchronize(p, Zeroed(s).(refreshTimer := false, nfcTimer := false), i.fails.show);
    if r.status == Alive then r.(running := false) else r
  }

  function CompleteExitingNfc(p: Platform, s: State, i: Input): (next: State)
    ensures SameRun(s, next)
  {
    var r := if !s.lock && !s.refreshTimer then Clear(s) else s;
    if r.status != Alive then r else Synchronize(p, r, i.fails.show)
  }

  /** Ignored when the mode is not active. */
  function ExitNfc(p: Platform, s: State, i: Input): (next: State)
    ensures SameRun(s, next)
  {
    if !s.nfcTimer then s else CompleteExitingNfc(p, s.(nfcTimer := false), i)
  }

  function EnterNfc(p: Platform, s: State, i: Input): (next: State)
    ensures SameRun(s, next)
  {
    if LooksPaired(s, i.fails.guard) then s
    else if !i.timerAvailable then s.(nfcTimer := false, status := NoTimer)
    else EnteredNfc(p, s.(nfcTimer := true), !s.nfcTimer, i)
  }

  /** NFC mode is active: what is there is shown, if it was not yet, or something is prepared. */
  function EnteredNfc(p: Platform, s: State, isNew: bool, i: Input): (next: State)
    ensures SameRun(s, next)
  {
    if !Available(s) then Prepare(p, s, false, i)
    else if isNew then Synchronize(p, s, i.fails.show)
    else s
  }

  function StateUpdate(p: Platform, t: State, i: Input): State {
    var s := t.(updatePending := false);
    if !LooksPaired(s, i.fails.guard) then
      if p.display then Prepare(p, s, false, i) else Synchronize(p, s, i.fails.show)
    else if p.nfc && s.nfcTimer then ExitNfc(p, s, i)
    else s
  }

  function Locked(p: Platform, s: State, i: Input): (next: State)
    ensures SameRun(s, next)
  {
    var r := Prepare(p, s, true, i);
    Check(r, !r.refreshTimer)
  }

  function PairingStart(p: Platform, s: State, i: Input): (next: State)
    ensures SameRun(s, next)
  {
    Locked(p, Check(s.(pairing := true), !LooksPaired(s, i.fails.guard)), i)
  }

  /** With a display, dynamic codes are generated whenever the accessory is not paired. */
  function Resume(p: Platform, s: State, i: Input): (next: State)
    ensures SameRun(s, next)
  {
    if p.display && !LooksPaired(s, i.fails.guard) then Prepare(p, s, false, i) else s
  }

  /** A kept code stays locked for the next attempt. */
  function EndAttempt(p: Platform, s: State, keep: bool, i: Input): (next: State)
    ensures SameRun(s, next)
  {
    if keep then Check(s, s.lock).(keep := true)
    else
      var c := Clear(s);
      if c.status != Alive then c else Synchronize(p, c, i.fails.first)
  }

  function PairingStop(p: Platform, s: State, keep: bool, i: Input): (next: State)
    ensures SameRun(s, next)
  {
    var r := EndAttempt(p, s.(pairing := false), keep, i);
    if r.status == Alive then Resume(p, r, i) else r
  }

  function RefreshPayload(p: Platform, s: State, i: Input): (next: State)
    ensures SameRun(s, next)
  {
    if !s.refreshTimer then s else Prepare(p, Clear(s), false, i)
  }

  function EnterLegacy(p: Platform, s: State, i: Input): (next: State)
    ensures SameRun(s, next)
  {
    if !p.legacyDisplay && !p.legacyNfc then s
    else if s.pairing then s
    else if LooksPaired(s, i.fails.guard) then s
    else Prepare(p, s, false, i)
  }

  // ------------------------------------------------------------------ runs

  /**
    `Stop` ends an attempt; `forget` is how an attempt that is restarted withdraws the mark that its
    code is kept. `PairingStored` and `PairingsRemoved` change the stored pairings; whoever notices
    schedules a state update, and after a failing look-up so does a message that changed nothing.
    `Update` is that update, whatever has happened in between.
  */
  datatype Step =
    | Start | RefusedStart | Shutdown | Update | ScheduleUpdate
    | Begin | Get(restorePrevious: bool) | Stop(keep: bool, forget: bool)
    | PairingStored(noticed: bool) | PairingsRemoved(noticed: bool)
    | Refresh | RefreshTimerFires | EnterNfcMode | ExitNfcMode | NfcTimerFires | EnterLegacyMode

  /**
    When a step can happen: timers fire only while armed, a pairing is stored only by an attempt, and
    an attempt begins and goes on only while the accessory looks unpaired.
  */
  predicate Enabled(p: Platform, s: State, step: Step, i: Input) {
    && s.status == Alive
    && match step
       case Start => !s.running
       case RefusedStart => !s.running
       case Shutdown => s.running && !s.pairing
       case Update => s.updatePending
       case ScheduleUpdate => s.running
       case Begin => s.running && !s.pairing && !LooksPaired(s, i.fails.first)
       case Get(_) => s.pairing && !LooksPaired(s, i.fails.guard)
       case Stop(_, _) => s.pairing
       case PairingStored(_) => s.pairing
       case PairingsRemoved(_) => true
       case Refresh => p.display
       case RefreshTimerFires => s.refreshTimer
       case EnterNfcMode => p.nfc
       case ExitNfcMode => p.nfc
       case NfcTimerFires => s.nfcTimer
       case EnterLegacyMode => !p.display && !p.nfc
  }

  function Next(p: Platform, s: State, step: Step, i: Input): State {
    match step
    case Start => ServerStart(p, s, i)
    case RefusedStart => s.(updatePending := true)
    case Shutdown => ServerStop(p, s, i)
    case Update => StateUpdate(p, s, i)
    case ScheduleUpdate => s.(updatePending := true)
    case Begin => PairingStart(p, s, i)
    case Get(restorePrevious) => GetSetupInfo(p, s, restorePrevious, i).0
    case Stop(keep, forget) =>
      var r := PairingStop(p, s, keep, i);
      if forget && r.status == Alive then r.(keep := false) else r
    case PairingStored(noticed) => s.(paired := true, updatePending := s.updatePending || noticed)
    case PairingsRemoved(noticed) => s.(paired := false, updatePending := s.updatePending || (noticed && s.running))
    case Refresh => RefreshPayload(p, s, i)
    case RefreshTimerFires => RefreshExpired(p, s, i)
    case EnterNfcMode => EnterNfc(p, s, i)
    case ExitNfcMode => ExitNfc(p, s, i)
    case NfcTimerFires => ExitNfc(p, s, i)
    case EnterLegacyMode => EnterLegacy(p, s, i)
  }

  type Steps = seq<(Step, Input)>

  function Run(p: Platform, s: State, steps: Steps): State
    decreases |steps|
  {
    if steps == [] then s else Run(p, Next(p, s, steps[0].0, steps[0].1), steps[1..])
  }

  predicate Possible(p: Platform, s: State, steps: Steps)
    decreases |steps|
  {
    steps == []
    || (&& Enabled(p, s, steps[0].0, steps[0].1)
        && Possible(p, Next(p, s, steps[0].0, steps[0].1), steps[1..]))
  }

  // ------------------------------------------------------------------ the invariant

  /** The verifier is the one of the current code. */
  predicate Matches(p: Platform, s: State) {
    if IsDynamic(p) then
      (s.info.Some? ==> s.code.Some? && s.info.value.Derived? && s.info.value.code == s.code.value)
    else
      && (s.code.Some? ==> s.code == Some(p.staticCode) && s.info.Some?)
      && (s.info.Some? ==> s.info == Some(Static(p.staticVerifier)))
  }

  predicate Inv(p: Platform, s: State) {
    && Matches(p, s)
    && (s.lock ==> Available(s) && !s.refreshTimer)
    && (s.refreshTimer ==> s.code.Some? && IsDynamic(p) && s.running)
    && (s.pairing ==> s.lock && s.running)
    && (s.keep ==> s.lock)
    && (s.nfcTimer ==> p.nfc && s.running)
    && (!s.running ==> !Available(s))
  }

  /** Only an attempt leaves setup information on a paired accessory. */
  predicate Clean(s: State) {
    s.paired ==> !s.refreshTimer && (Available(s) ==> s.lock)
  }

  // ------------------------------------------------------------------ what goes wrong

  /** Showing a code on an accessory that looks paired fails an assertion. */
  predicate ShowFails(p: Platform, s: State, fails: bool) {
    s.running && Shown(p, s) && LooksPaired(s, fails)
  }

  /** Setup information is generated or loaded. */
  predicate Loads(p: Platform, s: State, lock: bool, i: Input) {
    !Available(s) && (IsDynamic(p) && !lock ==> i.timerAvailable)
  }

  /** Preparing it on an accessory that looks paired fails a precondition. */
  predicate PrepareFails(p: Platform, s: State, lock: bool, i: Input) {
    || LooksPaired(s, i.fails.prepare)
    || (Loads(p, s, lock, i) && s.running && WouldShow(p, s) && LooksPaired(s, i.fails.show))
  }

  /** Leaving NFC mode shows what is left of it. */
  predicate ExitFails(p: Platform, s: State, i: Input) {
    s.nfcTimer && (s.lock || s.refreshTimer) && ShowFails(p, s.(nfcTimer := false), i.fails.show)
  }

  /** Exactly when a step fails an assertion or a precondition. */
  predicate Asserts(p: Platform, s: State, step: Step, i: Input) {
    var looksPaired := LooksPaired(s, i.fails.guard);
    match step
    case Start => p.display && !looksPaired && PrepareFails(p, s.(running := true), false, i)
    case Update =>
      if looksPaired then p.nfc && ExitFails(p, s, i)
      else if p.display then PrepareFails(p, s, false, i)
      else ShowFails(p, s, i.fails.show)
    case Begin => looksPaired || PrepareFails(p, s, true, i)
    case Get(restorePrevious) => !restorePrevious && s.keep && PrepareFails(p, Zeroed(s), true, i)
    case Stop(keep, _) => p.display && !looksPaired && PrepareFails(p, if keep then s else Zeroed(s), false, i)
    case Refresh => s.refreshTimer && PrepareFails(p, Zeroed(s), false, i)
    case RefreshTimerFires => looksPaired || (p.display && PrepareFails(p, Zeroed(s), false, i))
    case EnterNfcMode =>
      && !looksPaired && i.timerAvailable
      && if Available(s) then !s.nfcTimer && ShowFails(p, s.(nfcTimer := true), i.fails.show)
         else PrepareFails(p, s.(nfcTimer := true), false, i)
    case ExitNfcMode => ExitFails(p, s, i)
    case NfcTimerFires => ExitFails(p, s, i)
    case EnterLegacyMode =>
      (p.legacyDisplay || p.legacyNfc) && !s.pairing && !looksPaired && PrepareFails(p, s, false, i)
    case _ => false
  }

  /** Exactly when a step uses the accessory of a server that does not run. */
  predicate UsesStoppedServer(p: Platform, s: State, step: Step, i: Input) {
    && !s.running && HasOutput(p) && !LooksPaired(s, i.fails.guard)
    && match step
       case Update => p.display ==> !LooksPaired(s, i.fails.prepare) && i.timerAvailable
       case EnterNfcMode => !LooksPaired(s, i.fails.prepare) && i.timerAvailable
       case EnterLegacyMode =>
         && (p.legacyDisplay || p.legacyNfc) && !LooksPaired(s, i.fails.prepare)
         && (p.legacyDisplay ==> i.timerAvailable)
       case _ => false
  }

  /** With every look-up successful: NFC mode ends while a locked code is still shown by a paired accessory. */
  predicate LeavesNfcShowingCode(p: Platform, s: State, step: Step) {
    && s.nfcTimer && s.paired && s.code.Some? && p.hasSetupId && AlwaysShown(p)
    && (step == Update || step == ExitNfcMode || step == NfcTimerFires)
  }
}
