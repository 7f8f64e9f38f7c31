/** What holds in every run of the setup code machine. */
module SetupInfoProperties {
  import opened Base
  import opened SetupInfo

  /** What one step keeps, and exactly when it fails. */
  predicate Exact(p: Platform, s: State, step: Step, i: Input) {
    var r := Next(p, s, step, i);
    && (r.status == AssertionFailure <==> Asserts(p, s, step, i))
    && (r.status == NoAccessory <==> UsesStoppedServer(p, s, step, i))
    && (r.status == Alive ==> Inv(p, r))
  }

  /** Nothing is available, and no flag or timer says otherwise. */
  predicate Blank(p: Platform, s: State) {
    !Available(s) && !s.refreshTimer && !s.lock && !s.keep && (s.nfcTimer ==> p.nfc)
  }

  lemma LoadExact(p: Platform, s: State, lock: bool, i: Input)
    requires Blank(p, s) && s.status == Alive
    ensures var r := Load(p, s.(lock := lock), i);
            && (r.status == NoTimer <==> !Loads(p, s, lock, i)) && (r.status == Alive <==> Loads(p, s, lock, i))
            && (r.status == Alive ==>
                  && Matches(p, r) && Available(r) && (Shown(p, r) <==> WouldShow(p, s))
                  && (r.refreshTimer ==> IsDynamic(p) && r.code.Some? && !lock)
                  && r == s.(lock := lock, code := r.code, info := r.info, refreshTimer := r.refreshTimer))
  {
  }

  lemma SynchronizeExact(p: Platform, s: State, fails: bool)
    requires s.status == Alive
    ensures var r := Synchronize(p, s, fails);
            && (r.status == AssertionFailure <==> ShowFails(p, s, fails))
            && (r.status == NoAccessory <==> HasOutput(p) && !s.running)
            && (r.status == Alive ==> r == s) && r.status != NoTimer
  {
  }

  /** Preparing setup information where there is none. */
  lemma PrepareLoads(p: Platform, s: State, lock: bool, i: Input)
    requires Blank(p, s) && s.status == Alive && (s.pairing ==> lock && s.running)
    ensures var r := Prepare(p, s, lock, i);
            && (r.status == AssertionFailure <==> PrepareFails(p, s, lock, i))
            && (r.status == NoAccessory <==>
                  !LooksPaired(s, i.fails.prepare) && Loads(p, s, lock, i) && HasOutput(p) && !s.running)
            && (r.status == Alive ==> Available(r) && r.lock == lock && !r.keep)
            && (r.status == Alive && s.running ==> Inv(p, r))
  {
    if !LooksPaired(s, i.fails.prepare) {
      var r := Load(p, s.(lock := lock), i);
      PrepareParts(p, s, lock, i);
      LoadExact(p, s, lock, i);
      if r.status == Alive {
        SynchronizeExact(p, r, i.fails.show);
      }
    }
  }

  lemma PrepareParts(p: Platform, s: State, lock: bool, i: Input)
    requires Blank(p, s) && s.status == Alive && !LooksPaired(s, i.fails.prepare)
    ensures var r := Load(p, s.(lock := lock), i);
            Prepare(p, s, lock, i) == if r.status != Alive then r else Synchronize(p, r, i.fails.show)
  {
    assert Zeroed(s) == s;
  }

  /** Preparing setup information; where there is some it is at most locked. */
  lemma PrepareExact(p: Platform, s: State, lock: bool, i: Input)
    requires (Inv(p, s) || Blank(p, s)) && s.status == Alive && (s.pairing ==> s.running && (lock || s.lock))
    ensures var r := Prepare(p, s, lock, i);
            && (r.status == AssertionFailure <==> PrepareFails(p, s, lock, i))
            && (r.status == NoAccessory <==>
                  !LooksPaired(s, i.fails.prepare) && Loads(p, s, lock, i) && HasOutput(p) && !s.running)
            && (r.status == Alive && s.running ==> Inv(p, r) && Available(r) && (lock ==> r.lock))
            && (r.status == Alive && Available(s) ==> r == if lock then s.(lock := true, refreshTimer := false) else s)
            && (r.status == Alive && !Available(s) ==> r.lock == lock && !r.keep)
  {
    if !Available(s) {
      PrepareLoads(p, s, lock, i);
    }
  }

  lemma StartExact(p: Platform, s: State, i: Input)
    requires Inv(p, s) && Enabled(p, s, Start, i)
    ensures Exact(p, s, Start, i)
  {
    PrepareExact(p, s.(running := true, updatePending := true), false, i);
  }

  lemma UpdateExact(p: Platform, s: State, i: Input)
    requires Inv(p, s) && Enabled(p, s, Update, i)
    ensures Exact(p, s, Update, i)
  {
    var t := s.(updatePending := false);
    if !LooksPaired(s, i.fails.guard) {
      if p.display {
        PrepareExact(p, t, false, i);
      }
    } else if p.nfc {
      ExitExact(p, t, i);
    }
  }

  lemma ExitExact(p: Platform, s: State, i: Input)
    requires Inv(p, s) && s.status == Alive
    ensures var r := ExitNfc(p, s, i);
            && (r.status == AssertionFailure <==> ExitFails(p, s, i)) && r.status != NoAccessory
            && (r.status == Alive ==> Inv(p, r))
  {
  }

  lemma LockedExact(p: Platform, s: State, i: Input)
    requires (Inv(p, s) || Blank(p, s) || (Inv(p, s.(pairing := false)) && Available(s))) && s.status == Alive
    requires s.running
    ensures var r := Locked(p, s, i);
            && (r.status == AssertionFailure <==> PrepareFails(p, s, true, i)) && r.status != NoAccessory
            && (r.status == Alive ==> Inv(p, r))
  {
    if !Available(s) {
      PrepareLoads(p, s, true, i);
    }
  }

  lemma BeginExact(p: Platform, s: State, i: Input)
    requires Inv(p, s) && Enabled(p, s, Begin, i)
    ensures Exact(p, s, Begin, i)
  {
    var t := s.(pairing := true);
    if !LooksPaired(s, i.fails.guard) {
      assert t.(pairing := false) == s;
      LockedExact(p, t, i);
    } else {
      assert Check(t, false).status == AssertionFailure;
    }
  }

  lemma GetExact(p: Platform, s: State, restorePrevious: bool, i: Input)
    requires Inv(p, s) && Enabled(p, s, Get(restorePrevious), i)
    ensures Exact(p, s, Get(restorePrevious), i)
  {
    if !restorePrevious && s.keep {
      assert Clear(s) == Zeroed(s);
      PrepareExact(p, Zeroed(s), true, i);
    }
  }

  lemma ResumeExact(p: Platform, s: State, i: Input)
    requires (Inv(p, s) || Blank(p, s)) && Matches(p, s) && s.status == Alive && s.running && !s.pairing
    ensures var r := Resume(p, s, i);
            && (r.status == AssertionFailure <==>
                  p.display && !LooksPaired(s, i.fails.guard) && PrepareFails(p, s, false, i))
            && r.status != NoAccessory && (r.status == Alive ==> Inv(p, r))
  {
    PrepareExact(p, s, false, i);
  }

  lemma StopKeeping(p: Platform, s: State, i: Input)
    requires Inv(p, s) && s.pairing && s.status == Alive
    ensures var r := PairingStop(p, s, true, i);
            && (r.status == AssertionFailure <==>
                  p.display && !LooksPaired(s, i.fails.guard) && LooksPaired(s, i.fails.prepare))
            && (r.status == Alive ==> r == s.(pairing := false, keep := true))
            && (r.status == Alive || r.status == AssertionFailure)
  {
  }

  lemma StopClearing(p: Platform, s: State, i: Input)
    requires Inv(p, s) && s.pairing && s.status == Alive
    ensures PairingStop(p, s, false, i) == Resume(p, Zeroed(s).(pairing := false), i)
  {
    assert Clear(s.(pairing := false)) == Zeroed(s).(pairing := false);
  }

  lemma StopExact(p: Platform, s: State, keep: bool, forget: bool, i: Input)
    requires Inv(p, s) && Enabled(p, s, Stop(keep, forget), i)
    ensures Exact(p, s, Stop(keep, forget), i)
  {
    if keep {
      StopKeeping(p, s, i);
    } else {
      StopClearing(p, s, i);
      ResumeExact(p, Zeroed(s).(pairing := false), i);
    }
  }

  lemma RefreshExact(p: Platform, s: State, i: Input)
    requires Inv(p, s) && Enabled(p, s, Refresh, i)
    ensures Exact(p, s, Refresh, i)
  {
    if s.refreshTimer {
      var t := Zeroed(s).(refreshTimer := false);
      assert Clear(s) == t;
      PrepareExact(p, t, false, i);
    }
  }

  lemma ExpiryExact(p: Platform, s: State, i: Input)
    requires Inv(p, s) && Enabled(p, s, RefreshTimerFires, i)
    ensures Exact(p, s, RefreshTimerFires, i)
  {
    if !LooksPaired(s, i.fails.guard) {
      var t := Zeroed(s).(refreshTimer := false);
      assert Clear(s.(refreshTimer := false)) == t;
      PrepareExact(p, t, false, i);
    }
  }

  lemma EnterNfcLoads(p: Platform, s: State, i: Input)
    requires Inv(p, s) && Enabled(p, s, EnterNfcMode, i) && !Available(s)
    requires !LooksPaired(s, i.fails.guard) && i.timerAvailable
    ensures EnterNfc(p, s, i) == Prepare(p, s.(nfcTimer := true), false, i)
  {
  }

  lemma EnterNfcShows(p: Platform, s: State, i: Input)
    requires Inv(p, s) && Enabled(p, s, EnterNfcMode, i) && Available(s)
    requires !LooksPaired(s, i.fails.guard) && i.timerAvailable
    ensures Exact(p, s, EnterNfcMode, i)
  {
  }

  lemma EnterNfcExact(p: Platform, s: State, i: Input)
    requires Inv(p, s) && Enabled(p, s, EnterNfcMode, i)
    ensures Exact(p, s, EnterNfcMode, i)
  {
    if !LooksPaired(s, i.fails.guard) && i.timerAvailable {
      if Available(s) {
        EnterNfcShows(p, s, i);
      } else {
        EnterNfcLoads(p, s, i);
        PrepareLoads(p, s.(nfcTimer := true), false, i);
      }
    }
  }

  lemma EnterLegacyExact(p: Platform, s: State, i: Input)
    requires Inv(p, s) && Enabled(p, s, EnterLegacyMode, i)
    ensures Exact(p, s, EnterLegacyMode, i)
  {
    if !s.pairing {
      PrepareExact(p, s, false, i);
    }
  }

  /**
    The invariant is kept by every step, whichever look-ups of the pairings fail, and a step goes wrong
    exactly as `Asserts` and `UsesStoppedServer` say.
  */
  lemma NextKeeps(p: Platform, s: State, step: Step, i: Input)
    requires Inv(p, s) && Enabled(p, s, step, i)
    ensures Exact(p, s, step, i)
  {
    match step
    case Start => StartExact(p, s, i);
    case Update => UpdateExact(p, s, i);
    case Begin => BeginExact(p, s, i);
    case Get(restorePrevious) => GetExact(p, s, restorePrevious, i);
    case Stop(keep, forget) => StopExact(p, s, keep, forget, i);
    case Refresh => RefreshExact(p, s, i);
    case RefreshTimerFires => ExpiryExact(p, s, i);
    case EnterNfcMode => EnterNfcExact(p, s, i);
    case ExitNfcMode => ExitExact(p, s, i);
    case NfcTimerFires => ExitExact(p, s, i);
    case EnterLegacyMode => EnterLegacyExact(p, s, i);
    case RefusedStart | Shutdown | ScheduleUpdate | PairingStored(_) | PairingsRemoved(_) =>
  }

  lemma {:induction false} RunKeeps(p: Platform, s: State, steps: Steps)
    requires Inv(p, s) && s.status == Alive && Possible(p, s, steps)
    ensures Run(p, s, steps).status == Alive ==> Inv(p, Run(p, s, steps))
    decreases |steps|
  {
    if steps != [] {
      var r := Next(p, s, steps[0].0, steps[0].1);
      NextKeeps(p, s, steps[0].0, steps[0].1);
      if r.status == Alive {
        RunKeeps(p, r, steps[1..]);
      }
    }
  }

  /**
    In every run: a locked code has no refresh timer, a refresh timer has a code to refresh, an
    attempt has a locked code, and a verifier always belongs to the current code.
  */
  lemma SetupInfoInvariant(p: Platform, paired: bool, steps: Steps)
    requires Possible(p, INITIAL.(paired := paired), steps)
    ensures var s := Run(p, INITIAL.(paired := paired), steps);
            s.status == Alive ==>
              && (s.lock ==> !s.refreshTimer) && (s.refreshTimer ==> s.code.Some?)
              && (s.pairing ==> s.lock && Available(s)) && Matches(p, s)
  {
    RunKeeps(p, INITIAL.(paired := paired), steps);
  }

  // ------------------------------------------------------------------ which runs fail

  /** No step of the run fails an assertion or uses a stopped server's accessory. */
  predicate NothingFails(p: Platform, s: State, steps: Steps)
    decreases |steps|
  {
    steps == []
    || (!Asserts(p, s, steps[0].0, steps[0].1) && !UsesStoppedServer(p, s, steps[0].0, steps[0].1)
        && NothingFails(p, Next(p, s, steps[0].0, steps[0].1), steps[1..]))
  }

  /** A run fails exactly when one of its steps does. */
  lemma {:induction false} RunFailsExactly(p: Platform, s: State, steps: Steps)
    requires Inv(p, s) && s.status == Alive && Possible(p, s, steps)
    ensures NothingFails(p, s, steps)
       <==> Run(p, s, steps).status != AssertionFailure && Run(p, s, steps).status != NoAccessory
    decreases |steps|
  {
    if steps != [] {
      var r := Next(p, s, steps[0].0, steps[0].1);
      NextKeeps(p, s, steps[0].0, steps[0].1);
      if r.status == Alive {
        RunFailsExactly(p, r, steps[1..]);
      } else {
        assert steps[1..] == [];
      }
    }
  }

  /**
    While every look-up of the pairings succeeds, only an attempt leaves setup information on a paired
    accessory, and the one step that fails is the end of NFC mode while a locked code is on show.
  */
  lemma CleanSteps(p: Platform, s: State, step: Step, i: Input)
    requires Inv(p, s) && Clean(s) && Enabled(p, s, step, i) && (s.paired ==> i.fails == NONE_FAILS)
    ensures Asserts(p, s, step, i) <==> LeavesNfcShowingCode(p, s, step)
    ensures Next(p, s, step, i).status == Alive ==> Clean(Next(p, s, step, i))
  {
    if s.paired {
      PairedSteps(p, s, step, i);
    } else {
      StaysUnpaired(p, s, step, i);
    }
  }

  lemma PairedSteps(p: Platform, s: State, step: Step, i: Input)
    requires Inv(p, s) && Clean(s) && Enabled(p, s, step, i) && s.paired && i.fails == NONE_FAILS
    ensures Asserts(p, s, step, i) <==> LeavesNfcShowingCode(p, s, step)
    ensures Next(p, s, step, i).status == Alive ==> Clean(Next(p, s, step, i))
  {
  }

  lemma StaysUnpaired(p: Platform, s: State, step: Step, i: Input)
    requires Inv(p, s) && Enabled(p, s, step, i) && !s.paired
    ensures !Asserts(p, s, step, i)
    ensures Next(p, s, step, i).status == Alive && Next(p, s, step, i).paired ==> Clean(Next(p, s, step, i))
  {
  }

  /**
    What callers can see to: look-ups succeed while the accessory is paired; with an output, a server
    is stopped only while no state update is scheduled, and a start is not refused; a pairing mode is
    entered only while the server runs or the accessory is paired.
  */
  predicate Careful(p: Platform, s: State, step: Step, i: Input) {
    && (s.paired ==> i.fails == NONE_FAILS)
    && match step
       case Shutdown => HasOutput(p) ==> !s.updatePending
       case RefusedStart => !HasOutput(p)
       case EnterNfcMode => s.running || s.paired
       case EnterLegacyMode => s.running || s.paired
       case _ => true
  }

  predicate CarefulRun(p: Platform, s: State, steps: Steps)
    decreases |steps|
  {
    steps == []
    || (Careful(p, s, steps[0].0, steps[0].1) && CarefulRun(p, Next(p, s, steps[0].0, steps[0].1), steps[1..]))
  }

  /** With an output, a stopped server has no state update scheduled. */
  predicate Settled(p: Platform, s: State) {
    HasOutput(p) && !s.running ==> !s.updatePending
  }

  lemma NextSettled(p: Platform, s: State, step: Step, i: Input)
    requires Inv(p, s) && Enabled(p, s, step, i) && Settled(p, s) && Careful(p, s, step, i)
    ensures Settled(p, Next(p, s, step, i)) && !UsesStoppedServer(p, s, step, i)
  {
  }

  /** Without both an always shown code and programmable NFC, and with such callers, nothing ever fails. */
  lemma {:induction false} AssertionsHold(p: Platform, s: State, steps: Steps)
    requires Inv(p, s) && Clean(s) && Settled(p, s) && s.status == Alive && Possible(p, s, steps)
    requires !(p.nfc && AlwaysShown(p) && p.hasSetupId) && CarefulRun(p, s, steps)
    ensures Run(p, s, steps).status != AssertionFailure && Run(p, s, steps).status != NoAccessory
    decreases |steps|
  {
    if steps != [] {
      var r := Next(p, s, steps[0].0, steps[0].1);
      NextKeeps(p, s, steps[0].0, steps[0].1);
      CleanSteps(p, s, steps[0].0, steps[0].1);
      NextSettled(p, s, steps[0].0, steps[0].1);
      if r.status == Alive {
        AssertionsHold(p, r, steps[1..]);
      }
    }
  }

  // ------------------------------------------------------------------ runs that fail

  lemma RunStep(p: Platform, s: State, step: Step, i: Input, rest: Steps)
    requires Enabled(p, s, step, i)
    ensures Possible(p, s, [(step, i)] + rest) == Possible(p, Next(p, s, step, i), rest)
    ensures Run(p, s, [(step, i)] + rest) == Run(p, Next(p, s, step, i), rest)
  {
    assert ([(step, i)] + rest)[1..] == rest;
  }

  lemma LastStep(p: Platform, s: State, step: Step, i: Input)
    requires Enabled(p, s, step, i)
    ensures Possible(p, s, [(step, i)]) && Run(p, s, [(step, i)]) == Next(p, s, step, i)
  {
    RunStep(p, s, step, i, []);
    assert [(step, i)] + [] == [(step, i)];
  }

  /** The state update scheduled by a start, or by one that was refused. */
  lemma LateUpdate(p: Platform, i: Input)
    requires HasOutput(p) && i.timerAvailable
    ensures var s := INITIAL.(updatePending := true);
            Enabled(p, s, Update, i) && Next(p, s, Update, i).status == NoAccessory
  {
    NextKeeps(p, INITIAL.(updatePending := true), Update, i);
  }

  /** On any unpaired accessory with a display, NFC or their deprecated forms, a stop right after a start fails. */
  lemma UpdateAfterShutdownFails(p: Platform, i: Input)
    requires (p.display || p.nfc || p.legacyDisplay || p.legacyNfc) && i.timerAvailable
    ensures var steps := [(Start, i), (Shutdown, i), (Update, i)];
            Possible(p, INITIAL, steps) && Run(p, INITIAL, steps).status == NoAccessory
  {
    var s1 := Next(p, INITIAL, Start, i);
    var t1: Steps := [(Shutdown, i)] + [(Update, i)];
    LateUpdate(p, i);
    LastStep(p, INITIAL.(updatePending := true), Update, i);
    assert Next(p, s1, Shutdown, i) == INITIAL.(updatePending := true);
    RunStep(p, s1, Shutdown, i, [(Update, i)]);
    RunStep(p, INITIAL, Start, i, t1);
    assert [(Start, i)] + t1 == [(Start, i), (Shutdown, i), (Update, i)];
  }

  /** So does a start that is refused, without any stop. */
  lemma UpdateAfterRefusedStartFails(p: Platform, i: Input)
    requires HasOutput(p) && i.timerAvailable
    ensures var steps := [(RefusedStart, i), (Update, i)];
            Possible(p, INITIAL, steps) && Run(p, INITIAL, steps).status == NoAccessory
  {
    LateUpdate(p, i);
    LastStep(p, INITIAL.(updatePending := true), Update, i);
    RunStep(p, INITIAL, RefusedStart, i, [(Update, i)]);
    assert [(RefusedStart, i)] + [(Update, i)] == [(RefusedStart, i), (Update, i)];
  }

  /** And NFC mode, entered before the server is started. */
  lemma NfcModeBeforeStartFails(p: Platform, i: Input)
    requires p.nfc && i.timerAvailable
    ensures Possible(p, INITIAL, [(EnterNfcMode, i)]) && Run(p, INITIAL, [(EnterNfcMode, i)]).status == NoAccessory
  {
    NextKeeps(p, INITIAL, EnterNfcMode, i);
    LastStep(p, INITIAL, EnterNfcMode, i);
  }

  /** On a paired accessory with a display one failing look-up, by the state update after a start, is enough. */
  lemma MisreadPairingFails(p: Platform, i: Input, j: Input)
    requires p.display && i.fails == NONE_FAILS && j.fails == NONE_FAILS.(guard := true)
    ensures var s := INITIAL.(paired := true);
            var steps := [(Start, i), (Update, j)];
            Possible(p, s, steps) && Run(p, s, steps).status == AssertionFailure
  {
    var s := INITIAL.(paired := true);
    var s1 := s.(running := true, updatePending := true);
    assert Next(p, s, Start, i) == s1;
    NextKeeps(p, s1, Update, j);
    LastStep(p, s1, Update, j);
    RunStep(p, s, Start, i, [(Update, j)]);
    assert [(Start, i)] + [(Update, j)] == [(Start, i), (Update, j)];
  }

  /**
    With both they can fail though every look-up succeeds: an attempt made in NFC mode stores its
    pairing, and the state update runs before the attempt is stopped.
  */
  lemma PairedInNfcModeFailsAssertion(p: Platform, i: Input)
    requires p.display && p.nfc && p.hasSetupId && i.timerAvailable && i.fails == NONE_FAILS
    ensures var steps := [(Start, i), (EnterNfcMode, i), (Begin, i), (Get(false), i), (PairingStored(true), i),
                          (Update, i)];
            Possible(p, INITIAL, steps) && Run(p, INITIAL, steps).status == AssertionFailure
  {
    var s1 := Next(p, INITIAL, Start, i);
    var s2 := Next(p, s1, EnterNfcMode, i);
    assert s2 == INITIAL.(code := Some(i.code), refreshTimer := true, nfcTimer := true, running := true,
                          updatePending := true);
    var t3: Steps := [(Begin, i), (Get(false), i), (PairingStored(true), i), (Update, i)];
    AttemptInNfcMode(p, s2, i);
    RunStep(p, s1, EnterNfcMode, i, t3);
    RunStep(p, INITIAL, Start, i, [(EnterNfcMode, i)] + t3);
    assert [(Start, i)] + ([(EnterNfcMode, i)] + t3)
        == [(Start, i), (EnterNfcMode, i), (Begin, i), (Get(false), i), (PairingStored(true), i), (Update, i)];
  }

  /** From NFC mode on. */
  lemma AttemptInNfcMode(p: Platform, s: State, i: Input)
    requires p.display && p.nfc && p.hasSetupId && i.fails == NONE_FAILS
    requires s == INITIAL.(code := Some(i.code), refreshTimer := true, nfcTimer := true, running := true,
                           updatePending := true)
    ensures var steps := [(Begin, i), (Get(false), i), (PairingStored(true), i), (Update, i)];
            Possible(p, s, steps) && Run(p, s, steps).status == AssertionFailure
  {
    var s3 := Next(p, s, Begin, i);
    assert s3 == s.(lock := true, refreshTimer := false, pairing := true);
    var s4 := Next(p, s3, Get(false), i);
    assert s4 == s3.(info := Some(Derived(i.code, i.salt)));
    var s5 := Next(p, s4, PairingStored(true), i);
    var t: Steps := [(Update, i)];
    RunStep(p, s5, Update, i, []);
    assert t == [(Update, i)] + [];
    RunStep(p, s4, PairingStored(true), i, t);
    RunStep(p, s3, Get(false), i, [(PairingStored(true), i)] + t);
    RunStep(p, s, Begin, i, [(Get(false), i)] + ([(PairingStored(true), i)] + t));
    assert [(Begin, i)] + ([(Get(false), i)] + ([(PairingStored(true), i)] + t))
        == [(Begin, i), (Get(false), i), (PairingStored(true), i), (Update, i)];
  }

  // ------------------------------------------------------------------ one attempt

  /** `r` has the code of `s` and, once computed, its verifier. */
  predicate SameSetup(s: State, r: State) {
    r.code == s.code && (s.info.Some? ==> r.info == s.info)
  }

  predicate WithinAttempt(steps: Steps) {
    forall k :: 0 <= k < |steps| ==> !steps[k].0.Stop?
  }

  lemma GetStep(p: Platform, s: State, restorePrevious: bool, i: Input)
    requires Inv(p, s) && s.pairing && s.status == Alive
    requires GetSetupInfo(p, s, restorePrevious, i).0.status == Alive
    ensures var r := GetSetupInfo(p, s, restorePrevious, i).0;
            && r.pairing && r.keep == (s.keep && restorePrevious)
            && (r.keep == s.keep ==> SameSetup(s, r))
  {
  }

  lemma OtherStep(p: Platform, s: State, step: Step, i: Input)
    requires Inv(p, s) && s.pairing && Enabled(p, s, step, i) && !step.Stop? && !step.Get?
    requires Next(p, s, step, i).status == Alive
    ensures var r := Next(p, s, step, i); r.pairing && r.keep == s.keep && SameSetup(s, r)
  {
  }

  /** One step of an attempt changes the code only by discarding one that was kept from an earlier attempt. */
  lemma AttemptStep(p: Platform, s: State, step: Step, i: Input)
    requires Inv(p, s) && s.pairing && Enabled(p, s, step, i) && !step.Stop? && Next(p, s, step, i).status == Alive
    ensures var r := Next(p, s, step, i);
            && r.pairing && (r.keep ==> s.keep)
            && (r.keep == s.keep ==> SameSetup(s, r))
            && (r.keep != s.keep ==> step == Get(false))
            && (step == Get(false) ==> !r.keep)
  {
    if step.Get? {
      GetStep(p, s, step.restorePrevious, i);
    } else {
      OtherStep(p, s, step, i);
    }
  }

  lemma {:induction false} AttemptRun(p: Platform, s: State, steps: Steps)
    requires Inv(p, s) && s.pairing && s.status == Alive && Possible(p, s, steps) && WithinAttempt(steps)
    requires Run(p, s, steps).status == Alive
    ensures var r := Run(p, s, steps);
            && Inv(p, r) && r.pairing && (r.keep ==> s.keep)
            && (r.keep == s.keep ==> SameSetup(s, r))
            && (r.keep != s.keep ==> exists k :: 0 <= k < |steps| && steps[k].0 == Get(false))
    decreases |steps|
  {
    if steps != [] {
      var r := Next(p, s, steps[0].0, steps[0].1);
      AliveBefore(p, r, steps[1..]);
      NextKeeps(p, s, steps[0].0, steps[0].1);
      AttemptStep(p, s, steps[0].0, steps[0].1);
      AttemptRun(p, r, steps[1..]);
      if Run(p, r, steps[1..]).keep != r.keep {
        var k :| 0 <= k < |steps[1..]| && steps[1..][k].0 == Get(false);
        assert steps[k + 1].0 == Get(false);
      }
    }
  }

  lemma AliveBefore(p: Platform, s: State, steps: Steps)
    requires Possible(p, s, steps) && Run(p, s, steps).status == Alive
    ensures s.status == Alive
  {
  }

  lemma {:induction false} RunSplits(p: Platform, s: State, steps: Steps, k: nat)
    requires k <= |steps| && Possible(p, s, steps)
    ensures Possible(p, s, steps[..k]) && Possible(p, Run(p, s, steps[..k]), steps[k..])
    ensures Run(p, Run(p, s, steps[..k]), steps[k..]) == Run(p, s, steps)
    decreases k
  {
    if k == 0 {
      assert steps[0..] == steps;
    } else {
      var r := Next(p, s, steps[0].0, steps[0].1);
      RunSplits(p, r, steps[1..], k - 1);
      assert steps[..k][1..] == steps[1..][..k - 1];
      assert steps[1..][k - 1..] == steps[k..];
    }
  }

  /**
    Between the start and the stop of an attempt, under any interleaving of timers, refreshes, NFC
    mode and state updates, the code and its verifier are replaced at most once: whatever the state
    in between, it has the setup of the beginning or that of the end. A replacement needs a request
    for fresh setup information while a code was kept.
  */
  lemma AtMostOneReplacement(p: Platform, s: State, steps: Steps, k: nat)
    requires Inv(p, s) && s.pairing && s.status == Alive && Possible(p, s, steps) && WithinAttempt(steps)
    requires k <= |steps| && Run(p, s, steps).status == Alive
    ensures var m, r := Run(p, s, steps[..k]), Run(p, s, steps);
            && (SameSetup(s, m) || SameSetup(m, r))
            && (!s.keep || (forall j :: 0 <= j < |steps| ==> steps[j].0 != Get(false)) ==> SameSetup(s, r))
  {
    RunSplits(p, s, steps, k);
    var m := Run(p, s, steps[..k]);
    AliveBefore(p, m, steps[k..]);
    AttemptRun(p, s, steps[..k]);
    AttemptRun(p, m, steps[k..]);
    AttemptRun(p, s, steps);
  }

  /**
    Both messages of an attempt that use the verifier get the same one, whatever happens in between
    and whether or not each asks to restore a previous code; only a first message that restores a
    kept code needs the later ones to restore it too.
  */
  lemma SameVerifierThroughout(p: Platform, s: State, restore: bool, i: Input, steps: Steps, restore': bool, j: Input)
    requires Inv(p, s) && s.pairing && Enabled(p, s, Get(restore), i)
    requires var m := GetSetupInfo(p, s, restore, i).0;
             && m.status == Alive && Possible(p, m, steps) && WithinAttempt(steps)
             && Run(p, m, steps).status == Alive
    requires s.keep && restore ==> restore' && forall k :: 0 <= k < |steps| ==> steps[k].0 != Get(false)
    ensures var (m, v) := GetSetupInfo(p, s, restore, i);
            v.Some? && GetSetupInfo(p, Run(p, m, steps), restore', j) == (Run(p, m, steps), v)
  {
    var (m, v) := GetSetupInfo(p, s, restore, i);
    NextKeeps(p, s, Get(restore), i);
    AttemptStep(p, s, Get(restore), i);
    AttemptRun(p, m, steps);
    assert Run(p, m, steps).keep == m.keep;
  }
}
