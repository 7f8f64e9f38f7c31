/** The code of the setup code machine: flags, buffers and timers updated in place. */
module SetupInfoServer {
  import opened Base
  import M = SetupInfo

  class Server {
    const platform: M.Platform

    // accessorySetup.state
    var setupCode: nat
    var setupInfo: M.Info
    var setupInfoIsAvailable: bool
    var setupCodeIsAvailable: bool
    var lockSetupInfo: bool
    var keepSetupInfo: bool

    // accessorySetup timers
    var dynamicRefreshTimer: bool
    var nfcPairingModeTimer: bool

    // The rest of the accessory server.
    var isRunning: bool
    var isPaired: bool
    var sessionIsPairing: bool
    var callbackTimer: bool

    /** Where a failed assertion or a fatal error has ended the program. */
    ghost var status: M.Status

    ghost function Model(): M.State
      reads this
    {
      M.State(if setupCodeIsAvailable then Some(setupCode) else None,
              if setupInfoIsAvailable then Some(setupInfo) else None,
              lockSetupInfo, keepSetupInfo, dynamicRefreshTimer, nfcPairingModeTimer,
              isRunning, isPaired, sessionIsPairing, callbackTimer, status)
    }

    constructor (platform: M.Platform, isPaired: bool)
      ensures this.platform == platform && Model() == M.INITIAL.(paired := isPaired)
    {
      this.platform, this.isPaired := platform, isPaired;
      setupCode, setupInfo := 0, M.Static(0);
      setupInfoIsAvailable, setupCodeIsAvailable, lockSetupInfo, keepSetupInfo := false, false, false, false;
      dynamicRefreshTimer, nfcPairingModeTimer := false, false;
      isRunning, sessionIsPairing, callbackTimer, status := false, false, false, M.Alive;
    }

    /** HAPAssert and HAPPrecondition: the program continues only when the condition holds. */
    method Assert(condition: bool) returns (ok: bool)
      requires status == M.Alive
      modifies `status
      ensures Model() == M.Check(old(Model()), condition) && ok == condition
    {
      ok := condition;
      if !condition {
        status := M.AssertionFailure;
      }
    }

    /** HAPAccessoryServerIsPaired: a failing look-up finds nothing. */
    method IsPaired(fails: bool) returns (r: bool)
      ensures r == M.LooksPaired(Model(), fails)
    {
      if fails {
        return false;
      }
      return isPaired;
    }

    method ZeroState()
      modifies this
      ensures Model() == M.Zeroed(old(Model()))
    {
      setupCode, setupInfo := 0, M.Static(0);
      setupInfoIsAvailable, setupCodeIsAvailable, lockSetupInfo, keepSetupInfo := false, false, false, false;
    }

    /** What is displayed or written is the payload; here only whether a pairable one may be derived. */
    method SynchronizeDisplayAndNFC(fails: bool) returns (ok: bool)
      requires status == M.Alive
      modifies `status
      ensures Model() == M.Synchronize(platform, old(Model()), fails) && ok == (status == M.Alive)
    {
      ok := true;
      if !platform.display && !platform.legacyDisplay && !platform.nfc && !platform.legacyNfc {
        return;
      }
      var paired := IsPaired(fails);
      if !isRunning {
        status := M.NoAccessory;
        return false;
      }
      if setupCodeIsAvailable
         && (platform.legacyDisplay || platform.legacyNfc || platform.display
             || (platform.nfc && nfcPairingModeTimer)) {
        if platform.hasSetupId {
          ok := Assert(!paired);
        }
      }
    }

    method ClearSetupInfo() returns (ok: bool)
      requires status == M.Alive
      modifies this
      ensures Model() == M.Clear(old(Model())) && ok == (status == M.Alive)
    {
      if setupInfoIsAvailable || setupCodeIsAvailable {
        ZeroState();
        if dynamicRefreshTimer {
          dynamicRefreshTimer := false;
        }
      }
      ok := Assert(!dynamicRefreshTimer);
    }

    method LoadSetupInfo(i: M.Input) returns (ok: bool)
      requires status == M.Alive
      modifies this
      ensures Model() == M.Load(platform, old(Model()), i) && ok == (status == M.Alive)
    {
      if platform.display || platform.legacyDisplay {
        setupCode := i.code;
        setupCodeIsAvailable := true;
        if !lockSetupInfo {
          ok := Assert(!dynamicRefreshTimer);
          if !ok {
            return;
          }
          if !i.timerAvailable {
            status := M.NoTimer;
            return false;
          }
          dynamicRefreshTimer := true;
        }
      } else {
        if platform.nfc || platform.legacyNfc {
          setupCode := platform.staticCode;
          setupCodeIsAvailable := true;
        }
        setupInfo := M.Static(platform.staticVerifier);
        setupInfoIsAvailable := true;
      }
      return true;
    }

    method PrepareSetupInfo(lock: bool, i: M.Input) returns (ok: bool)
      requires status == M.Alive
      modifies this
      ensures Model() == M.Prepare(platform, old(Model()), lock, i) && ok == (status == M.Alive)
    {
      var paired := IsPaired(i.fails.prepare);
      ok := Assert(!paired);
      if !ok {
        return;
      }
      if setupInfoIsAvailable || setupCodeIsAvailable {
        KeepSetupInfo(lock);
        return true;
      }
      ok := RenewSetupInfo(lock, i);
    }

    /** What is available is at most locked. */
    method KeepSetupInfo(lock: bool)
      modifies `lockSetupInfo, `dynamicRefreshTimer
      ensures Model() == if lock then old(Model()).(lock := true, refreshTimer := false) else old(Model())
    {
      if lock {
        lockSetupInfo := lock;
        if dynamicRefreshTimer {
          dynamicRefreshTimer := false;
        }
      }
    }

    method RenewSetupInfo(lock: bool, i: M.Input) returns (ok: bool)
      requires status == M.Alive
      modifies this
      ensures var r := M.Load(platform, M.Zeroed(old(Model())).(lock := lock), i);
              Model() == if r.status != M.Alive then r else M.Synchronize(platform, r, i.fails.show)
      ensures ok == (status == M.Alive)
    {
      ZeroState();
      lockSetupInfo := lock;
      ok := LoadSetupInfo(i);
      if ok {
        ok := SynchronizeDisplayAndNFC(i.fails.show);
      }
    }

    method DynamicSetupInfoExpired(i: M.Input)
      requires status == M.Alive && dynamicRefreshTimer
      modifies this
      ensures Model() == M.RefreshExpired(platform, old(Model()), i)
    {
      dynamicRefreshTimer := false;
      var paired := IsPaired(i.fails.guard);
      var ok := Assert(!paired && !lockSetupInfo && (setupInfoIsAvailable || setupCodeIsAvailable));
      if !ok {
        return;
      }
      ok := ClearSetupInfo();
      if ok && platform.display {
        ok := PrepareSetupInfo(false, i);
      }
    }

    /** None for a null result; see `status` for a failed assertion. */
    method GetSetupInfo(restorePrevious: bool, i: M.Input) returns (r: Option<M.Info>)
      requires status == M.Alive
      modifies this
      ensures (Model(), r) == M.GetSetupInfo(platform, old(Model()), restorePrevious, i)
    {
      if restorePrevious && !setupInfoIsAvailable && !setupCodeIsAvailable {
        return None;
      }
      var ok := Assert(setupInfoIsAvailable || setupCodeIsAvailable);
      if !ok {
        return None;
      }
      if !restorePrevious && keepSetupInfo {
        ok := ClearSetupInfo();
        if ok {
          ok := PrepareSetupInfo(true, i);
        }
        if ok {
          ok := Assert(!keepSetupInfo);
        }
        if !ok {
          return None;
        }
      }
      if !setupInfoIsAvailable {
        ok := Assert(setupCodeIsAvailable);
        if !ok {
          return None;
        }
        setupInfo := M.Derived(setupCode, i.salt);
        setupInfoIsAvailable := true;
      }
      return Some(setupInfo);
    }

    /** The schedule of the state update precedes the check of the firmware version. */
    method PrepareStart(refused: bool, i: M.Input)
      requires status == M.Alive && !isRunning
      modifies this
      ensures Model() == if refused then old(Model()).(updatePending := true)
                         else M.ServerStart(platform, old(Model()), i)
    {
      ScheduleHandleUpdatedState();
      if !refused {
        HandleAccessoryServerStart(i);
      }
    }

    method ScheduleHandleUpdatedState()
      modifies `callbackTimer
      ensures Model() == old(Model()).(updatePending := true)
    {
      callbackTimer := true;
    }

    method HandleAccessoryServerStart(i: M.Input)
      requires status == M.Alive && callbackTimer
      modifies this
      ensures Model() == M.ServerStart(platform, old(Model()), i)
    {
      isRunning := true;
      var ok := Assert(!dynamicRefreshTimer);
      var paired := IsPaired(i.fails.guard);
      if ok && platform.display && !paired {
        ok := PrepareSetupInfo(false, i);
      }
    }

    method HandleAccessoryServerStop(i: M.Input)
      requires status == M.Alive
      modifies this
      ensures Model() == M.ServerStop(platform, old(Model()), i)
    {
      dynamicRefreshTimer, nfcPairingModeTimer := false, false;
      ZeroState();
      var ok := SynchronizeDisplayAndNFC(i.fails.show);
      if ok {
        isRunning := false;
      }
    }

    method HandleAccessoryServerStateUpdate(i: M.Input)
      requires status == M.Alive
      modifies this
      ensures Model() == M.StateUpdate(platform, old(Model()), i)
    {
      callbackTimer := false;
      var paired := IsPaired(i.fails.guard);
      if !paired {
        if platform.display {
          var ok := PrepareSetupInfo(false, i);
        } else {
          var ok := SynchronizeDisplayAndNFC(i.fails.show);
        }
      } else if platform.nfc && nfcPairingModeTimer {
        ExitNFCPairingMode(i);
      }
    }

    method SetSessionIsPairing(pairing: bool)
      modifies `sessionIsPairing
      ensures Model() == old(Model()).(pairing := pairing)
    {
      sessionIsPairing := pairing;
    }

    method HandlePairingStart(i: M.Input)
      requires status == M.Alive
      modifies this
      ensures Model() == M.PairingStart(platform, old(Model()), i)
    {
      var paired := IsPaired(i.fails.guard);
      SetSessionIsPairing(true);
      var ok := Assert(!paired);
      if ok {
        LockSetupInfo(i);
      }
    }

    method LockSetupInfo(i: M.Input)
      requires status == M.Alive
      modifies this
      ensures Model() == M.Locked(platform, old(Model()), i)
    {
      ghost var s := Model();
      var ok := PrepareSetupInfo(true, i);
      ghost var r := Model();
      assert r == M.Prepare(platform, s, true, i);
      if ok {
        ok := Assert(!dynamicRefreshTimer);
      }
      assert Model() == M.Check(r, !r.refreshTimer);
    }

    method EndAttempt(keep: bool, i: M.Input) returns (ok: bool)
      requires status == M.Alive
      modifies this
      ensures Model() == M.EndAttempt(platform, old(Model()), keep, i) && ok == (status == M.Alive)
    {
      if keep {
        ok := Assert(lockSetupInfo);
        keepSetupInfo := true;
      } else {
        ok := ClearSetupInfo();
        if ok {
          ok := SynchronizeDisplayAndNFC(i.fails.first);
        }
      }
    }

    method ResumeGenerating(i: M.Input)
      requires status == M.Alive
      modifies this
      ensures Model() == M.Resume(platform, old(Model()), i)
    {
      var paired := IsPaired(i.fails.guard);
      if platform.display && !paired {
        var ok := PrepareSetupInfo(false, i);
      }
    }

    static lemma StopInParts(p: M.Platform, s: M.State, keep: bool, i: M.Input, r: M.State)
      requires r == M.EndAttempt(p, s.(pairing := false), keep, i)
      ensures M.PairingStop(p, s, keep, i) == if r.status == M.Alive then M.Resume(p, r, i) else r
    {
    }

    method HandlePairingStop(keep: bool, i: M.Input)
      requires status == M.Alive
      modifies this
      ensures Model() == M.PairingStop(platform, old(Model()), keep, i)
    {
      ghost var p, s := platform, Model();
      SetSessionIsPairing(false);
      var ok := EndAttempt(keep, i);
      ghost var r := Model();
      StopInParts(p, s, keep, i, r);
      if ok {
        ResumeGenerating(i);
      }
    }

    method RefreshSetupPayload(i: M.Input)
      requires status == M.Alive
      modifies this
      ensures Model() == M.RefreshPayload(platform, old(Model()), i)
    {
      if !dynamicRefreshTimer {
        return;
      }
      var ok := ClearSetupInfo();
      if ok {
        ok := PrepareSetupInfo(false, i);
      }
    }

    method CompleteExitingNFCPairingMode(i: M.Input)
      requires status == M.Alive
      modifies this
      ensures Model() == M.CompleteExitingNfc(platform, old(Model()), i)
    {
      var ok := true;
      if !lockSetupInfo && !dynamicRefreshTimer {
        ok := ClearSetupInfo();
      }
      if ok {
        ok := SynchronizeDisplayAndNFC(i.fails.show);
      }
    }

    method NFCPairingModeExpired(i: M.Input)
      requires status == M.Alive && nfcPairingModeTimer
      modifies this
      ensures Model() == M.ExitNfc(platform, old(Model()), i)
    {
      nfcPairingModeTimer := false;
      CompleteExitingNFCPairingMode(i);
    }

    method EnterNFCPairingMode(i: M.Input)
      requires status == M.Alive
      modifies this
      ensures Model() == M.EnterNfc(platform, old(Model()), i)
    {
      var paired := IsPaired(i.fails.guard);
      if paired {
        return;
      }
      var forceSynchronization := RenewNFCTimer(i.timerAvailable);
      if !nfcPairingModeTimer {
        return;
      }
      EnterActiveNFCMode(forceSynchronization, i);
    }

    method EnterActiveNFCMode(forceSynchronization: bool, i: M.Input)
      requires status == M.Alive
      modifies this
      ensures Model() == M.EnteredNfc(platform, old(Model()), forceSynchronization, i)
    {
      if !setupInfoIsAvailable && !setupCodeIsAvailable {
        var ok := PrepareSetupInfo(false, i);
      } else if forceSynchronization {
        var ok := SynchronizeDisplayAndNFC(i.fails.show);
      }
    }

    /** Whether the mode was not active before. */
    method RenewNFCTimer(timerAvailable: bool) returns (forceSynchronization: bool)
      requires status == M.Alive
      modifies `nfcPairingModeTimer, `status
      ensures forceSynchronization == !old(nfcPairingModeTimer)
      ensures Model() == if timerAvailable then old(Model()).(nfcTimer := true)
                         else old(Model()).(nfcTimer := false, status := M.NoTimer)
    {
      forceSynchronization := false;
      if nfcPairingModeTimer {
        nfcPairingModeTimer := false;
      } else {
        forceSynchronization := true;
      }
      if !timerAvailable {
        status := M.NoTimer;
        return;
      }
      nfcPairingModeTimer := true;
    }

    method ExitNFCPairingMode(i: M.Input)
      requires status == M.Alive
      modifies this
      ensures Model() == M.ExitNfc(platform, old(Model()), i)
    {
      if !nfcPairingModeTimer {
        return;
      }
      nfcPairingModeTimer := false;
      CompleteExitingNFCPairingMode(i);
    }

    method EnterLegacyPairingMode(i: M.Input)
      requires status == M.Alive
      modifies this
      ensures Model() == M.EnterLegacy(platform, old(Model()), i)
    {
      if !platform.legacyDisplay && !platform.legacyNfc {
        return;
      }
      if sessionIsPairing {
        return;
      }
      var paired := IsPaired(i.fails.guard);
      if paired {
        return;
      }
      var ok := PrepareSetupInfo(false, i);
    }
  }
}
