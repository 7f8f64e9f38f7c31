/** Where setup codes come from, how long they stay, and when they are replaced. */
module SetupInfoLifecycle {
  import opened Base
  import opened SetupInfo
  import P = SetupInfoProperties

  // ------------------------------------------------------------------ progress

  /** Beyond the conditions under which a step fails, all it may lack is a timer. */
  lemma NothingElseFails(p: Platform, s: State, step: Step, i: Input)
    requires Inv(p, s) && Enabled(p, s, step, i) && i.timerAvailable
    ensures Next(p, s, step, i).status == Alive
       <==> !Asserts(p, s, step, i) && !UsesStoppedServer(p, s, step, i)
  {
    P.NextKeeps(p, s, step, i);
    TimerIsThere(p, s, step, i);
  }

  lemma TimerIsThere(p: Platform, s: State, step: Step, i: Input)
    requires Inv(p, s) && Enabled(p, s, step, i) && i.timerAvailable
    ensures Next(p, s, step, i).status != NoTimer
  {
    match step
    case Start => PrepareHasTimer(p, s.(running := true, updatePending := true), false, i);
    case Update => UpdateHasTimer(p, s, i);
    case Begin => PrepareHasTimer(p, s.(pairing := true), true, i);
    case Get(restorePrevious) => GetHasTimer(p, s, restorePrevious, i);
    case Stop(keep, forget) => StopHasTimer(p, s, keep, i);
    case Refresh => RefreshHasTimer(p, s, i);
    case RefreshTimerFires => RefreshHasTimer(p, s, i);
    case EnterNfcMode => EnterNfcHasTimer(p, s, i);
    case EnterLegacyMode => PrepareHasTimer(p, s, false, i);
    case _ =>
  }

  lemma UpdateHasTimer(p: Platform, s: State, i: Input)
    requires s.status == Alive && i.timerAvailable
    ensures StateUpdate(p, s, i).status != NoTimer
  {
    PrepareHasTimer(p, s.(updatePending := false), false, i);
  }

  lemma GetHasTimer(p: Platform, s: State, restorePrevious: bool, i: Input)
    requires Inv(p, s) && s.status == Alive && i.timerAvailable
    ensures GetSetupInfo(p, s, restorePrevious, i).0.status != NoTimer
  {
    assert s.keep ==> Clear(s) == Zeroed(s);
    PrepareHasTimer(p, Zeroed(s), true, i);
  }

  lemma EnterNfcHasTimer(p: Platform, s: State, i: Input)
    requires s.status == Alive && i.timerAvailable
    ensures EnterNfc(p, s, i).status != NoTimer
  {
    PrepareHasTimer(p, s.(nfcTimer := true), false, i);
  }

  lemma PrepareHasTimer(p: Platform, s: State, lock: bool, i: Input)
    requires s.status != NoTimer && i.timerAvailable
    ensures Prepare(p, s, lock, i).status != NoTimer
  {
    var r := Load(p, Zeroed(s).(lock := lock), i);
    LoadHasTimer(p, Zeroed(s).(lock := lock), i);
    ShowHasTimer(p, r, i.fails.show);
  }

  lemma LoadHasTimer(p: Platform, s: State, i: Input)
    requires s.status != NoTimer && i.timerAvailable
    ensures Load(p, s, i).status != NoTimer
  {
  }

  lemma ShowHasTimer(p: Platform, s: State, fails: bool)
    requires s.status != NoTimer
    ensures Synchronize(p, s, fails).status != NoTimer
  {
  }

  lemma StopHasTimer(p: Platform, s: State, keep: bool, i: Input)
    requires Inv(p, s) && s.pairing && s.status == Alive && i.timerAvailable
    ensures PairingStop(p, s, keep, i).status != NoTimer
  {
    if keep {
      P.StopKeeping(p, s, i);
    } else {
      P.StopClearing(p, s, i);
      PrepareHasTimer(p, Zeroed(s).(pairing := false), false, i);
    }
  }

  lemma RefreshHasTimer(p: Platform, s: State, i: Input)
    requires Inv(p, s) && s.status == Alive && i.timerAvailable
    ensures RefreshPayload(p, s, i).status != NoTimer
    ensures s.refreshTimer ==> RefreshExpired(p, s, i).status != NoTimer
  {
    var t := Zeroed(s).(refreshTimer := false);
    assert s.refreshTimer ==> Clear(s) == t && Clear(s.(refreshTimer := false)) == t;
    PrepareHasTimer(p, t, false, i);
  }

  // ------------------------------------------------------------------ the setup of an accessory

  /** A newly generated code, to be refreshed, or the provisioned setup. */
  predicate NewSetup(p: Platform, r: State, i: Input) {
    if IsDynamic(p) then r.code == Some(i.code) && r.info.None? && (r.refreshTimer <==> !r.lock)
    else r.info == Some(Static(p.staticVerifier)) && r.code == if p.nfc || p.legacyNfc then Some(p.staticCode) else None
  }

  predicate SameSetup(s: State, r: State) {
    r.code == s.code && r.info == s.info
  }

  /** Where there was a setup it stays, at most locked; otherwise there is a new one. */
  predicate Prepared(p: Platform, s: State, lock: bool, r: State, i: Input) {
    if Available(s) then SameSetup(s, r) && r.lock == (s.lock || lock) && (r.refreshTimer <==> s.refreshTimer && !lock)
    else NewSetup(p, r, i) && r.lock == lock && !r.keep
  }

  lemma PrepareEffect(p: Platform, s: State, lock: bool, i: Input)
    requires (Inv(p, s) || P.Blank(p, s)) && s.status == Alive && Prepare(p, s, lock, i).status == Alive
    ensures var r := Prepare(p, s, lock, i);
            && Prepared(p, s, lock, r, i) && Available(r) && r.nfcTimer == s.nfcTimer && r.pairing == s.pairing
            && (Available(s) ==> r.keep == s.keep) && SameRun(s, r)
  {
    if !Available(s) {
      P.PrepareParts(p, s, lock, i);
      LoadEffect(p, s.(lock := lock), i);
      P.SynchronizeExact(p, Load(p, s.(lock := lock), i), i.fails.show);
    }
  }

  lemma LoadEffect(p: Platform, s: State, i: Input)
    requires s.code.None? && s.info.None? && !s.refreshTimer && s.status == Alive && Load(p, s, i).status == Alive
    ensures var r := Load(p, s, i);
            && NewSetup(p, r, i) && Available(r) && SameRun(s, r)
            && r.lock == s.lock && r.keep == s.keep && r.nfcTimer == s.nfcTimer && r.pairing == s.pairing
  {
  }

  // ------------------------------------------------------------------ server

  lemma StartEffect(p: Platform, s: State, i: Input)
    requires Inv(p, s) && Enabled(p, s, Start, i) && Next(p, s, Start, i).status == Alive
    ensures var r := Next(p, s, Start, i);
            && r.running && r.updatePending
            && if p.display && !LooksPaired(s, i.fails.guard) then NewSetup(p, r, i) && !r.lock else !Available(r)
  {
    if p.display && !LooksPaired(s, i.fails.guard) {
      PrepareEffect(p, s.(running := true, updatePending := true), false, i);
    }
  }

  lemma ShutdownEffect(p: Platform, s: State, i: Input)
    requires Inv(p, s) && Enabled(p, s, Shutdown, i) && Next(p, s, Shutdown, i).status == Alive
    ensures var r := Next(p, s, Shutdown, i);
            !r.running && !Available(r) && !r.refreshTimer && !r.nfcTimer && r.updatePending == s.updatePending
  {
  }

  /** An unpaired accessory gets a code on its display; a paired one leaves NFC mode. */
  lemma UpdateEffect(p: Platform, s: State, i: Input)
    requires Inv(p, s) && Enabled(p, s, Update, i) && Next(p, s, Update, i).status == Alive
    ensures var r := Next(p, s, Update, i);
            && !r.updatePending
            && (!LooksPaired(s, i.fails.guard) && p.display ==> Prepared(p, s, false, r, i) && Available(r))
            && (!LooksPaired(s, i.fails.guard) && !p.display ==> r == s.(updatePending := false))
            && (LooksPaired(s, i.fails.guard) ==> !r.nfcTimer)
  {
    if !LooksPaired(s, i.fails.guard) && p.display {
      PrepareEffect(p, s.(updatePending := false), false, i);
    }
  }

  /** What the surroundings do to the pairings, and which of it schedules a state update. */
  lemma SurroundingsEffect(p: Platform, s: State, step: Step, i: Input)
    requires Enabled(p, s, step, i)
    requires step.RefusedStart? || step.ScheduleUpdate? || step.PairingStored? || step.PairingsRemoved?
    ensures var r := Next(p, s, step, i);
            && r == s.(paired := r.paired, updatePending := r.updatePending)
            && r.paired == (if step.PairingStored? then true else if step.PairingsRemoved? then false else s.paired)
            && (r.updatePending <==>
                  || s.updatePending || step.RefusedStart? || step.ScheduleUpdate?
                  || (step.PairingStored? && step.noticed) || (step.PairingsRemoved? && step.noticed && s.running))
  {
  }

  // ------------------------------------------------------------------ attempts

  /** An attempt locks the setup, with what is there or a new one. */
  lemma BeginEffect(p: Platform, s: State, i: Input)
    requires Inv(p, s) && Enabled(p, s, Begin, i) && Next(p, s, Begin, i).status == Alive
    ensures var r := Next(p, s, Begin, i);
            && r.pairing && r.lock && !r.refreshTimer && Available(r)
            && if Available(s) then SameSetup(s, r) && r.keep == s.keep else NewSetup(p, r, i) && !r.keep
  {
    var t := s.(pairing := true);
    assert !LooksPaired(s, i.fails.guard);
    if !Available(s) {
      PrepareEffect(p, t, true, i);
    }
  }

  /** A setup kept from an earlier attempt is discarded. */
  predicate Discards(s: State, restorePrevious: bool) {
    !restorePrevious && s.keep
  }

  /**
    The verifier is the one that is there, or derived, with a new salt, from the code that is there; a
    kept setup that is not to be restored gives way to a new one before.
  */
  lemma GetEffect(p: Platform, s: State, restorePrevious: bool, i: Input)
    requires Inv(p, s) && Enabled(p, s, Get(restorePrevious), i)
    requires GetSetupInfo(p, s, restorePrevious, i).0.status == Alive
    ensures var (r, v) := GetSetupInfo(p, s, restorePrevious, i);
            && v.Some? && r.info == v && r.lock && !r.refreshTimer && r.pairing
            && (if Discards(s, restorePrevious) then !r.keep && (IsDynamic(p) ==> r.code == Some(i.code))
                else r.keep == s.keep && r.code == s.code)
            && (if !IsDynamic(p) then v == Some(Static(p.staticVerifier))
                else if s.info.Some? && !Discards(s, restorePrevious) then v == s.info
                else r.code.Some? && v == Some(Derived(r.code.value, i.salt)))
  {
    if Discards(s, restorePrevious) {
      assert Clear(s) == Zeroed(s);
      PrepareEffect(p, Zeroed(s), true, i);
    }
  }

  /** An attempt that does not keep its setup has used it up. */
  lemma StopEffect(p: Platform, s: State, keep: bool, forget: bool, i: Input)
    requires Inv(p, s) && Enabled(p, s, Stop(keep, forget), i) && Next(p, s, Stop(keep, forget), i).status == Alive
    ensures var r := Next(p, s, Stop(keep, forget), i);
            && !r.pairing
            && if keep then SameSetup(s, r) && r.lock && r.keep == !forget
               else if p.display && !LooksPaired(s, i.fails.guard) then NewSetup(p, r, i) && !r.lock && !r.keep
               else !Available(r) && !r.lock && !r.keep
  {
    if keep {
      P.StopKeeping(p, s, i);
    } else {
      P.StopClearing(p, s, i);
      if p.display && !LooksPaired(s, i.fails.guard) {
        PrepareEffect(p, Zeroed(s).(pairing := false), false, i);
      }
    }
  }

  // ------------------------------------------------------------------ refreshing

  /** A code whose time is up is gone; with a display there is a new one. A locked one is not refreshed. */
  lemma RefreshEffect(p: Platform, s: State, step: Step, i: Input)
    requires Inv(p, s) && Enabled(p, s, step, i) && Next(p, s, step, i).status == Alive
    requires step == RefreshTimerFires || step == Refresh
    ensures var r := Next(p, s, step, i);
            if !s.refreshTimer then r == s
            else if p.display then NewSetup(p, r, i) && !r.lock && r.refreshTimer
            else !Available(r) && !r.refreshTimer
  {
    var t := Zeroed(s).(refreshTimer := false);
    if s.refreshTimer && p.display {
      assert step == Refresh ==> Clear(s) == t;
      assert step == RefreshTimerFires ==> Clear(s.(refreshTimer := false)) == t;
      PrepareEffect(p, t, false, i);
    }
  }

  // ------------------------------------------------------------------ pairing modes

  /** NFC mode begins or goes on, with a setup, unless the accessory looks paired. */
  lemma EnterNfcEffect(p: Platform, s: State, i: Input)
    requires Inv(p, s) && Enabled(p, s, EnterNfcMode, i) && Next(p, s, EnterNfcMode, i).status == Alive
    ensures var r := Next(p, s, EnterNfcMode, i);
            if LooksPaired(s, i.fails.guard) then r == s
            else r.nfcTimer && Available(r) && Prepared(p, s, false, r, i)
  {
    if !LooksPaired(s, i.fails.guard) && !Available(s) {
      PrepareEffect(p, s.(nfcTimer := true), false, i);
    }
  }

  /** What was there for NFC mode alone goes with it. */
  lemma LeaveNfcEffect(p: Platform, s: State, step: Step, i: Input)
    requires Inv(p, s) && Enabled(p, s, step, i) && Next(p, s, step, i).status == Alive
    requires step == ExitNfcMode || step == NfcTimerFires
    ensures var r := Next(p, s, step, i);
            && !r.nfcTimer
            && if s.nfcTimer && !s.lock && !s.refreshTimer then !Available(r) else r == s.(nfcTimer := false)
  {
  }

  /** The deprecated pairing mode needs one of the deprecated outputs and no attempt under way. */
  lemma EnterLegacyEffect(p: Platform, s: State, i: Input)
    requires Inv(p, s) && Enabled(p, s, EnterLegacyMode, i) && Next(p, s, EnterLegacyMode, i).status == Alive
    ensures var r := Next(p, s, EnterLegacyMode, i);
            if (p.legacyDisplay || p.legacyNfc) && !s.pairing && !LooksPaired(s, i.fails.guard) then
              Prepared(p, s, false, r, i)
            else r == s
  {
    if (p.legacyDisplay || p.legacyNfc) && !s.pairing && !LooksPaired(s, i.fails.guard) {
      PrepareEffect(p, s, false, i);
    }
  }

  // ------------------------------------------------------------------ runs

  /** A dynamic code is locked by an attempt, or will be refreshed: none stays for good. */
  predicate Expires(p: Platform, s: State) {
    IsDynamic(p) && Available(s) ==> s.lock || s.refreshTimer
  }

  /** With a display there is a code whenever the accessory is not paired, or a state update will see to it. */
  predicate OnDisplay(p: Platform, s: State) {
    p.display && s.running && !s.paired ==> Available(s) || s.updatePending
  }

  predicate Lasting(p: Platform, s: State) {
    Expires(p, s) && OnDisplay(p, s)
  }

  /** The removal of pairings from a running server is noticed. */
  predicate Noticed(s: State, step: Step) {
    step.PairingsRemoved? && s.running && s.paired ==> step.noticed
  }

  lemma NextLasts(p: Platform, s: State, step: Step, i: Input)
    requires Inv(p, s) && Lasting(p, s) && Enabled(p, s, step, i) && Noticed(s, step)
    requires Next(p, s, step, i).status == Alive
    ensures Lasting(p, Next(p, s, step, i))
  {
    match step
    case Start => StartEffect(p, s, i);
    case Update => UpdateEffect(p, s, i);
    case Begin => BeginEffect(p, s, i);
    case Get(restorePrevious) => GetEffect(p, s, restorePrevious, i);
    case Stop(keep, forget) => StopEffect(p, s, keep, forget, i);
    case Refresh | RefreshTimerFires => RefreshEffect(p, s, step, i);
    case EnterNfcMode => EnterNfcEffect(p, s, i);
    case ExitNfcMode | NfcTimerFires => LeaveNfcEffect(p, s, step, i);
    case EnterLegacyMode => EnterLegacyEffect(p, s, i);
    case _ =>
  }

  predicate AllNoticed(p: Platform, s: State, steps: Steps)
    decreases |steps|
  {
    steps == [] || (Noticed(s, steps[0].0) && AllNoticed(p, Next(p, s, steps[0].0, steps[0].1), steps[1..]))
  }

  lemma {:induction false} RunLasts(p: Platform, s: State, steps: Steps)
    requires Inv(p, s) && Lasting(p, s) && s.status == Alive && Possible(p, s, steps) && AllNoticed(p, s, steps)
    requires Run(p, s, steps).status == Alive
    ensures Lasting(p, Run(p, s, steps))
    decreases |steps|
  {
    if steps != [] {
      var r := Next(p, s, steps[0].0, steps[0].1);
      P.AliveBefore(p, r, steps[1..]);
      P.NextKeeps(p, s, steps[0].0, steps[0].1);
      NextLasts(p, s, steps[0].0, steps[0].1);
      RunLasts(p, r, steps[1..]);
    }
  }

  /**
    In every run in which removals are noticed, once no state update is due: a running accessory with a
    display that is not paired has a code, locked by an attempt or to be refreshed.
  */
  lemma DisplayHasCode(p: Platform, paired: bool, steps: Steps)
    requires p.display && Possible(p, INITIAL.(paired := paired), steps)
    requires AllNoticed(p, INITIAL.(paired := paired), steps)
    ensures var s := Run(p, INITIAL.(paired := paired), steps);
            s.status == Alive && s.running && !s.paired && !s.updatePending ==>
              s.code.Some? && (s.lock <==> !s.refreshTimer)
  {
    var s := Run(p, INITIAL.(paired := paired), steps);
    if s.status == Alive {
      RunLasts(p, INITIAL.(paired := paired), steps);
      P.RunKeeps(p, INITIAL.(paired := paired), steps);
    }
  }
}
