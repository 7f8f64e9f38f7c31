/** What holds in every run of the advertising machine. */
module AdvertisingProperties {
  import opened Base
  import opened Cyclic
  import opened Advertising

  // ------------------------------------------------------------------ the invariant is kept

  lemma UpdateKeeps(m: Machine, faults: Faults)
    requires Inv(m) && m.status == Alive
    ensures var n := UpdateAdvertisingData(m, faults);
            && Inv(n) && n.store == m.store
            && n.adv == m.adv.(fastTimer := n.adv.fastTimer, fastStarted := n.adv.fastStarted)
  {
  }

  lemma BroadcastKeeps(m: Machine, c: Change, faults: Faults)
    requires Inv(m) && Enabled(m, Raise(c)) && m.status == Alive && !m.adv.connected
    requires c.interval.Some? && m.store.expiration != 0 && m.store.expiration != m.store.gsn
    ensures Inv(Broadcast(m, c, faults))
  {
    UpdateKeeps(m.(adv := Silenced(m.adv)), Silencing(faults));
    var m1 := UpdateAdvertisingData(m.(adv := Silenced(m.adv)), Silencing(faults));
    if m1.status == Alive {
      if c.value.None? {
        UpdateKeeps(m1, faults);
      } else {
        OnAirKeeps(m1, c, faults);
      }
    }
  }

  lemma OnAirKeeps(m: Machine, c: Change, faults: Faults)
    requires Inv(m) && Enabled(m, Raise(c)) && m.status == Alive && !m.adv.connected
    requires m.adv.event.iid == 0 && !m.adv.timer && c.interval.Some? && c.value.Some?
    requires m.store.expiration != 0 && m.store.expiration != m.store.gsn
    ensures Inv(OnAir(m, c, faults))
  {
    var v := m.(adv := m.adv.(event := m.adv.event.(value := c.value.value)));
    var m1 := IncrementGsn(v, true, faults);
    if m1.status == Alive {
      if EventTimerAllocation in faults {
        UpdateKeeps(m1, faults);
      } else {
        UpdateKeeps(
          m1.(adv := m1.adv.(timer := true,
                             event := BroadcastedEvent(c.iid, c.value.value, c.interval.value))), faults);
      }
    }
  }

  lemma CoalescedKeeps(m: Machine, faults: Faults)
    requires Inv(m) && m.status == Alive
    ensures var n := CoalescedIncrement(m, faults);
            Inv(n) && (n.status == Alive ==> n.store.didIncrement && n.adv == m.adv)
  {
  }

  lemma DisconnectedEventKeeps(m: Machine, faults: Faults)
    requires Inv(m) && m.status == Alive
    ensures Inv(DisconnectedEvent(m, faults))
  {
    CoalescedKeeps(m, faults);
    var m1 := CoalescedIncrement(m, faults);
    if m1.status == Alive && !m.store.didIncrement && !m1.adv.connected {
      UpdateKeeps(m1.(adv := m1.adv.(timer := EventTimerAllocation !in faults)), faults);
    }
  }

  lemma RaiseKeeps(m: Machine, c: Change, faults: Faults)
    requires Inv(m) && Enabled(m, Raise(c)) && m.status == Alive
    ensures Inv(DidRaiseEvent(m, c, faults))
  {
    DisconnectedEventKeeps(m, faults);
    if c.supportsBroadcast && !m.adv.connected && m.store.expiration != 0
       && m.store.expiration != m.store.gsn && c.interval.Some? {
      BroadcastKeeps(m, c, faults);
    }
  }

  /** The server runs from here on; an advertisement follows immediately and starts fast mode. */
  lemma StartAdvertisingKeeps(m: Machine, faults: Faults)
    requires Inv(m) && m.status == Alive && !m.running && !m.adv.connected
    ensures Inv(UpdateAdvertisingData(m.(running := true), faults))
  {
  }

  lemma StartKeeps(m: Machine, firmware: Firmware, pairings: Pairings, faults: Faults)
    requires Inv(m) && m.status == Alive
    requires Enabled(m, Start(firmware, pairings)) && Guarded(m, Start(firmware, pairings))
    ensures Inv(DidStart(m, firmware, pairings, faults))
  {
    var m1 := FirmwareChecked(m.(running := true), firmware, faults);
    if m1.status == Alive && m1.running && !CleanupFails(pairings, faults) {
      var m2 := m1.(store := Cleaned(m1.store, pairings));
      assert m2.(running := false).(running := true) == m2;
      StartAdvertisingKeeps(m2.(running := false), faults);
    }
  }

  lemma NextKeeps(m: Machine, s: Step)
    requires Inv(m) && Enabled(m, s.event) && Guarded(m, s.event)
    ensures Inv(Next(m, s))
  {
    match s.event
    case Start(firmware, pairings) => StartKeeps(m, firmware, pairings, s.faults);
    case Refresh => UpdateKeeps(m, s.faults);
    case Raise(c) => RaiseKeeps(m, c, s.faults);
    case NotificationSent => CoalescedKeeps(m, s.faults);
    case Connect | Disconnect | EventTimerExpires | FastTimerExpires =>
    case Stop | Reboot | GenerateKey(_, _) | SetAdvertisingID(_) | RemovePairing(_) | FactoryReset =>
  }

  lemma {:induction false} RunKeeps(m: Machine, steps: seq<Step>)
    requires Inv(m) && Possible(m, steps) && GuardedRun(m, steps)
    ensures Inv(Run(m, steps))
    decreases |steps|
  {
    if steps != [] {
      NextKeeps(m, steps[0]);
      RunKeeps(Next(m, steps[0]), steps[1..]);
    }
  }

  /**
    In every guarded run no assertion of the machine fails and a broadcast always finds a valid key.
  */
  lemma AssertionsHold(steps: seq<Step>)
    requires Possible(INITIAL, steps) && GuardedRun(INITIAL, steps)
    ensures Run(INITIAL, steps).status != AssertionFailure
    ensures Run(INITIAL, steps).status != MissingKey
    ensures Run(INITIAL, steps).status == Alive ==> RamInv(Run(INITIAL, steps))
  {
    RunKeeps(INITIAL, steps);
  }

  // ------------------------------------------------------------------ what one step sends

  /**
    A broadcastable change while disconnected, with nothing failing: the next GSN is used, exactly
    once, and the event just raised is what goes on air.
  */
  lemma BroadcastUsesNextGsn(m: Machine, c: Change)
    requires Inv(m) && Enabled(m, Raise(c)) && m.status == Alive && m.running && !m.adv.connected
    requires c.supportsBroadcast && c.interval.Some? && c.value.Some?
    requires m.store.expiration != 0 && m.store.expiration != m.store.gsn
    ensures var n := DidRaiseEvent(m, c, {});
            && n.status == Alive && n.adv.timer && Inv(n) && n.running && !n.adv.connected
            && n.store == Incremented(m.store) && n.store.gsn == Succ(GSN_MAX, m.store.gsn)
            && n.sent == m.sent + [Payload(m.store.key, n.store.gsn, m.store.advertisingID, c.iid, c.value.value)]
            && n.broadcasts == m.broadcasts + 1 && n.coalesced == m.coalesced
  {
    RaiseKeeps(m, c, {});
    assert Silencing({}) == {};
    UpdateKeeps(m.(adv := Silenced(m.adv)), {});
    assert UpdateAdvertisingData(m.(adv := Silenced(m.adv)), {}).status == Alive;
  }

  // ------------------------------------------------------------------ coalescing

  /** Steps that neither connect nor disconnect a central nor reset the GSN. */
  predicate Quiet(e: Event) {
    !e.Connect? && !e.Disconnect? && !UpdatesFirmware(e) && !e.FactoryReset?
  }

  /** `n` follows `m` by at most one GSN increment, which is coalesced only if the flag was clear. */
  predicate AtMostOneIncrement(m: Machine, n: Machine) {
    || (n.broadcasts == m.broadcasts && n.coalesced == m.coalesced && n.store.gsn == m.store.gsn
        && n.store.didIncrement == m.store.didIncrement)
    || (n.broadcasts == m.broadcasts + 1 && n.coalesced == m.coalesced
        && n.store.gsn == Succ(GSN_MAX, m.store.gsn) && n.store.didIncrement)
    || (n.broadcasts == m.broadcasts && n.coalesced == m.coalesced + 1
        && n.store.gsn == Succ(GSN_MAX, m.store.gsn) && !m.store.didIncrement && n.store.didIncrement)
  }

  lemma UpdateIncrementsNothing(m: Machine, faults: Faults)
    ensures var n := UpdateAdvertisingData(m, faults);
            n.store == m.store && n.broadcasts == m.broadcasts && n.coalesced == m.coalesced
  {
  }

  lemma BroadcastIncrements(m: Machine, c: Change, faults: Faults)
    requires c.interval.Some?
    ensures AtMostOneIncrement(m, Broadcast(m, c, faults))
  {
    var m1 := UpdateAdvertisingData(m.(adv := Silenced(m.adv)), Silencing(faults));
    UpdateIncrementsNothing(m.(adv := Silenced(m.adv)), Silencing(faults));
    if m1.status == Alive && c.value.Some? {
      var v := m1.(adv := m1.adv.(event := m1.adv.event.(value := c.value.value)));
      assert AtMostOneIncrement(m, IncrementGsn(v, true, faults));
    }
  }

  lemma DisconnectedEventIncrements(m: Machine, faults: Faults)
    ensures AtMostOneIncrement(m, DisconnectedEvent(m, faults))
  {
    var m1 := CoalescedIncrement(m, faults);
    assert AtMostOneIncrement(m, m1);
    UpdateIncrementsNothing(m1.(adv := m1.adv.(timer := EventTimerAllocation !in faults)), faults);
  }

  lemma RaiseIncrements(m: Machine, s: Step)
    requires Enabled(m, s.event) && s.event.Raise?
    ensures AtMostOneIncrement(m, Next(m, s))
  {
    if s.event.change.interval.Some? {
      BroadcastIncrements(m, s.event.change, s.faults);
    }
    DisconnectedEventIncrements(m, s.faults);
  }

  lemma QuietStep(m: Machine, s: Step)
    requires Enabled(m, s.event) && Quiet(s.event)
    ensures AtMostOneIncrement(m, Next(m, s))
  {
    match s.event
    case Raise(c) => RaiseIncrements(m, s);
    case NotificationSent =>
    case Start(firmware, pairings) =>
      UpdateIncrementsNothing(m.(running := true, store := Cleaned(m.store, pairings)), s.faults);
    case Refresh => UpdateIncrementsNothing(m, s.faults);
    case _ =>
  }

  /** `n` lies behind `m`: at most one coalesced increment, and the GSN moved by what was counted. */
  predicate MovedByCounts(m: Machine, n: Machine) {
    && m.broadcasts <= n.broadcasts && m.coalesced <= n.coalesced
    && n.coalesced - m.coalesced <= (if m.store.didIncrement then 0 else 1)
    && n.store.gsn == Advance(GSN_MAX, m.store.gsn, n.broadcasts - m.broadcasts + n.coalesced - m.coalesced)
  }

  lemma StepMoves(m: Machine, n: Machine, r: Machine)
    requires AtMostOneIncrement(m, n) && MovedByCounts(n, r)
    ensures MovedByCounts(m, r)
  {
    FirstAdvances(m.store.gsn, n.store.gsn, n.broadcasts - m.broadcasts + n.coalesced - m.coalesced,
                  r.broadcasts - n.broadcasts + r.coalesced - n.coalesced);
  }

  /**
    From one connect or disconnect to the next, all events that are not broadcast together
    increment the GSN at most once (not at all if it was already incremented), and the GSN moves
    by exactly those increments plus one for every broadcasted event.
  */
  lemma {:induction false} CoalescedAtMostOnce(m: Machine, steps: seq<Step>)
    requires Possible(m, steps) && forall i :: 0 <= i < |steps| ==> Quiet(steps[i].event)
    ensures MovedByCounts(m, Run(m, steps))
    decreases |steps|
  {
    if steps != [] {
      QuietStep(m, steps[0]);
      CoalescedAtMostOnce(Next(m, steps[0]), steps[1..]);
      StepMoves(m, Next(m, steps[0]), Run(m, steps));
    }
  }

  lemma FirstAdvances(x: Gsn, y: Gsn, j: nat, k: nat)
    requires j <= 1 && y == if j == 0 then x else Succ(GSN_MAX, x)
    ensures Advance(GSN_MAX, y, k) == Advance(GSN_MAX, x, j + k)
  {
    assert Advance(GSN_MAX, x, 0) == x;
    assert Advance(GSN_MAX, x, 1) == Succ(GSN_MAX, x);
    AdvanceAdds(GSN_MAX, x, j, k);
  }

  // ------------------------------------------------------------------ the guard is exact

  const PLAIN_CHANGE := Change(false, true, 1, None, None)

  /**
    A firmware update at server start is harmless exactly when no event timer is armed: otherwise
    either the broadcast finds no key, or the next disconnected event fails an assertion.
  */
  lemma FirmwareUpdateNeedsIdleTimer(m: Machine, pairings: Pairings)
    requires Inv(m) && m.status == Alive && Enabled(m, Start(Updated, pairings))
    ensures var n := DidStart(m, Updated, pairings, {});
            var r := DidRaiseEvent(n, PLAIN_CHANGE, {});
            && (Inv(n) <==> !m.adv.timer)
            && (n.status == MissingKey <==> m.adv.event.iid != 0)
            && (n.status == Alive && r.status == Alive <==> !m.adv.timer)
  {
    if !m.adv.timer {
      StartKeeps(m, Updated, pairings, {});
      var n := DidStart(m, Updated, pairings, {});
      RaiseKeeps(n, PLAIN_CHANGE, {});
    }
  }

  /** Such a start is reachable: raise a disconnected event, stop, start with new firmware, raise again. */
  lemma UnguardedUpdateFailsAssertion()
    ensures var raise := Step(Raise(PLAIN_CHANGE), {});
            var first, update := Start(FirstStart, NoPairing), Start(Updated, AdminPaired);
            var m1 := Next(INITIAL, Step(first, {}));
            var m2 := Next(m1, raise);
            var m3 := Next(m2, Step(Stop, {}));
            var m4 := Next(m3, Step(update, {}));
            && Enabled(INITIAL, first) && Enabled(m1, raise.event) && Enabled(m2, Stop)
            && Enabled(m3, update) && !Guarded(m3, update) && Enabled(m4, raise.event)
            && Next(m4, raise).status == AssertionFailure
  {
    var m1 := Next(INITIAL, Step(Start(FirstStart, NoPairing), {}));
    assert m1.status == Alive && m1.running;
    var m2 := Next(m1, Step(Raise(PLAIN_CHANGE), {}));
    assert m2.status == Alive && m2.adv.timer && m2.running;
  }

  /** A start that removes the broadcast parameters is harmless exactly when no event is on air. */
  lemma CleanupAtStartNeedsSilence(m: Machine, pairings: Pairings)
    requires Inv(m) && m.status == Alive && Enabled(m, Start(Unchanged, pairings)) && pairings != AdminPaired
    ensures var n := DidStart(m, Unchanged, pairings, {});
            && (Inv(n) <==> m.adv.event.iid == 0)
            && (n.status == MissingKey <==> m.adv.event.iid != 0)
            && (n.status == Alive <==> m.adv.event.iid == 0)
  {
    if m.adv.event.iid == 0 {
      StartKeeps(m, Unchanged, pairings, {});
    }
  }

  /** So is the removal of the last admin pairing: else the next advertisement finds no key. */
  lemma RemovePairingNeedsSilence(m: Machine, pairings: Pairings)
    requires Inv(m) && m.status == Alive && Enabled(m, RemovePairing(pairings)) && pairings != AdminPaired
    ensures var n := DidRemovePairing(m, pairings, {});
            && (Inv(n) <==> m.adv.event.iid == 0)
            && (UpdateAdvertisingData(n, {}).status == MissingKey <==> m.adv.event.iid != 0)
  {
    if m.adv.event.iid == 0 {
      assert RamInv(DidRemovePairing(m, pairings, {}));
    }
  }

  /**
    A factory reset of a stopped server is harmless exactly when no event timer is armed: otherwise
    either the next start finds no key, or the next disconnected event fails an assertion.
  */
  lemma FactoryResetNeedsIdleTimer(m: Machine)
    requires Inv(m) && m.status == Alive && Enabled(m, FactoryReset)
    ensures var n := DidFactoryReset(m, {});
            var r := DidStart(n, FirstStart, NoPairing, {});
            var t := DidRaiseEvent(r, PLAIN_CHANGE, {});
            && (Inv(n) <==> !m.adv.timer)
            && (r.status == MissingKey <==> m.adv.event.iid != 0)
            && (r.status == Alive && t.status == Alive <==> !m.adv.timer)
  {
    if !m.adv.timer {
      var n := DidFactoryReset(m, {});
      StartKeeps(n, FirstStart, NoPairing, {});
      RaiseKeeps(DidStart(n, FirstStart, NoPairing, {}), PLAIN_CHANGE, {});
    }
  }

  /** It is reachable: raise a disconnected event, stop, reset, start again, raise again. */
  lemma UnguardedResetFailsAssertion()
    ensures var first, raise := Start(FirstStart, NoPairing), Raise(PLAIN_CHANGE);
            var m1 := Next(INITIAL, Step(first, {}));
            var m2 := Next(m1, Step(raise, {}));
            var m3 := Next(m2, Step(Stop, {}));
            var m4 := Next(m3, Step(FactoryReset, {}));
            var m5 := Next(m4, Step(first, {}));
            && Enabled(INITIAL, first) && Enabled(m1, raise) && Enabled(m2, Stop)
            && Enabled(m3, FactoryReset) && !Guarded(m3, FactoryReset) && Enabled(m4, first) && Enabled(m5, raise)
            && Next(m5, Step(raise, {})).status == AssertionFailure
  {
    var m1 := Next(INITIAL, Step(Start(FirstStart, NoPairing), {}));
    assert m1.status == Alive && m1.running;
    var m2 := Next(m1, Step(Raise(PLAIN_CHANGE), {}));
    assert m2.status == Alive && m2.adv.timer && m2.running;
  }

  /** A session generates a key; after the disconnect a broadcastable change is raised. */
  function OnAirSteps(key: Key, value: Value8): seq<Step> {
    [Step(Start(FirstStart, NoPairing), {}), Step(Connect, {}), Step(GenerateKey(key, None), {}),
     Step(Disconnect, {}), Step(Raise(Change(true, true, 1, Some(1), Some(value))), {})]
  }

  lemma FirstStep(m: Machine, step: Step, rest: seq<Step>)
    requires Enabled(m, step.event)
    ensures Possible(m, [step] + rest) == Possible(Next(m, step), rest)
    ensures Run(m, [step] + rest) == Run(Next(m, step), rest)
  {
    assert ([step] + rest)[1..] == rest;
  }

  lemma SessionGeneratesKey(key: Key)
    ensures var m1 := Next(INITIAL, Step(Start(FirstStart, NoPairing), {}));
            var m2 := Next(m1, Step(Connect, {}));
            && Enabled(m1, Connect) && Enabled(m2, GenerateKey(key, None))
            && Next(m2, Step(GenerateKey(key, None), {})) ==
               INITIAL.(store := Store(1, false, 32767, key, None, false), running := true,
                        adv := ADV_ZERO.(connected := true, fastStarted := true))
  {
    var m1 := Next(INITIAL, Step(Start(FirstStart, NoPairing), {}));
    assert m1 == INITIAL.(running := true, adv := ADV_ZERO.(fastTimer := true, fastStarted := true));
    var m2 := Next(m1, Step(Connect, {}));
    assert m2 == INITIAL.(running := true, adv := ADV_ZERO.(connected := true, fastStarted := true));
  }

  lemma OnAirReachable(key: Key, value: Value8)
    ensures Possible(INITIAL, OnAirSteps(key, value))
    ensures var m := Run(INITIAL, OnAirSteps(key, value));
            && m.status == Alive && m.running && !m.adv.connected && m.adv.event.iid == 1 && Inv(m)
            && m.store == Store(2, true, 32767, key, None, false) && m.sent == [Payload(key, 2, None, 1, value)]
  {
    var steps := OnAirSteps(key, value);
    var m1 := Next(INITIAL, steps[0]);
    var m2 := Next(m1, steps[1]);
    var m3 := Next(m2, steps[2]);
    SessionGeneratesKey(key);
    LeavesOnAir(m3, key, steps[3], steps[4]);
    assert steps == [steps[0]] + ([steps[1]] + ([steps[2]] + ([steps[3]] + ([steps[4]] + []))));
    FirstStep(INITIAL, steps[0], [steps[1]] + ([steps[2]] + ([steps[3]] + ([steps[4]] + []))));
    FirstStep(m1, steps[1], [steps[2]] + ([steps[3]] + ([steps[4]] + [])));
    FirstStep(m2, steps[2], [steps[3]] + ([steps[4]] + []));
  }

  lemma LeavesOnAir(m: Machine, key: Key, s: Step, t: Step)
    requires m.store == Store(1, false, 32767, key, None, false) && m.running && m.status == Alive
    requires m.adv == ADV_ZERO.(connected := true, fastStarted := true) && m.sent == []
    requires s == Step(Disconnect, {}) && t.event.Raise? && t.faults == {}
    requires var c := t.event.change; c.supportsBroadcast && c.iid == 1 && c.interval == Some(1) && c.value.Some?
    ensures Possible(m, [s] + ([t] + []))
    ensures var n := Run(m, [s] + ([t] + []));
            && n.status == Alive && n.running && !n.adv.connected && n.adv.event.iid == 1 && Inv(n)
            && n.store == Store(2, true, 32767, key, None, false)
            && n.sent == [Payload(key, 2, None, 1, t.event.change.value.value)]
  {
    var n := Next(m, s);
    assert n == m.(adv := ADV_ZERO.(fastTimer := true, fastStarted := true));
    assert Enabled(n, t.event);
    FirstStep(m, s, [t] + []);
    FirstStep(n, t, []);
  }

  /**
    Both are reachable: with the event on air the last admin pairing is removed, over the other
    transport; or the server is stopped, its pairings are removed, and it is started again.
  */
  lemma PurgeOnAirFindsNoKey(key: Key, value: Value8, pairings: Pairings)
    requires pairings != AdminPaired
    ensures Possible(INITIAL, OnAirSteps(key, value))
    ensures var m := Run(INITIAL, OnAirSteps(key, value));
            var removed, stopped := Next(m, Step(RemovePairing(pairings), {})), Next(m, Step(Stop, {}));
            && Enabled(m, RemovePairing(pairings)) && Next(removed, Step(Refresh, {})).status == MissingKey
            && Enabled(m, Stop) && Enabled(stopped, Start(Unchanged, pairings))
            && Next(stopped, Step(Start(Unchanged, pairings), {})).status == MissingKey
  {
    OnAirReachable(key, value);
    var m := Run(INITIAL, OnAirSteps(key, value));
    RemovePairingNeedsSilence(m, pairings);
    NextKeeps(m, Step(Stop, {}));
    CleanupAtStartNeedsSilence(Next(m, Step(Stop, {})), pairings);
  }
}
