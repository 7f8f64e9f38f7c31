/** Broadcast keys and nonces: how long a key lives, and that no nonce is used for two notifications. */
module AdvertisingNonces {
  import opened Base
  import opened Cyclic
  import opened Advertising
  import A = AdvertisingProperties

  // ------------------------------------------------------------------ key lifetime

  lemma ExpirationMeansAge(expiration: u16, gsn: Gsn)
    requires expiration != 0
    ensures Age(expiration, gsn) == KEY_LIFETIME - 1 <==> gsn == expiration
  {
    DistanceCases(GSN_MAX, GeneratedAt(expiration), gsn);
  }

  lemma FreshKeyHasAgeZero(gsn: Gsn)
    ensures Age(ExpirationFor(gsn), gsn) == 0
  {
    assert GeneratedAt(ExpirationFor(gsn)) == gsn;
    DistanceZero(GSN_MAX, gsn, gsn);
  }

  lemma IncrementAges(expiration: u16, gsn: Gsn)
    requires expiration != 0 && expiration != gsn && Age(expiration, gsn) <= KEY_LIFETIME - 1
    ensures Age(expiration, Succ(GSN_MAX, gsn)) == Age(expiration, gsn) + 1 <= KEY_LIFETIME - 1
  {
    ExpirationMeansAge(expiration, gsn);
    DistanceSucc(GSN_MAX, GeneratedAt(expiration), gsn);
  }

  function IncrementedTimes(s: Store, k: nat): Store {
    if k == 0 then s else Incremented(IncrementedTimes(s, k - 1))
  }

  /**
    A key generated at any GSN survives exactly 32766 increments: it and its expiration GSN are
    unchanged up to there, including across the wrap from 65535 to 1, and gone from the 32767th on.
  */
  lemma {:induction false} KeyLifetime(s: Store, key: Key, newID: Option<DeviceID>, k: nat)
    ensures var t := IncrementedTimes(WithKey(s, key, newID), k);
            && t.gsn == Advance(GSN_MAX, s.gsn, k)
            && (k < KEY_LIFETIME ==>
                  t.key == key && t.expiration == ExpirationFor(s.gsn) && Age(t.expiration, t.gsn) == k)
            && (k >= KEY_LIFETIME ==> t.expiration == 0 && t.key == ZERO_KEY)
  {
    if k == 0 {
      FreshKeyHasAgeZero(s.gsn);
    } else {
      KeyLifetime(s, key, newID, k - 1);
      var t := IncrementedTimes(WithKey(s, key, newID), k - 1);
      if k < KEY_LIFETIME {
        ExpirationMeansAge(t.expiration, t.gsn);
        IncrementAges(t.expiration, t.gsn);
      } else if k == KEY_LIFETIME {
        ExpirationMeansAge(t.expiration, t.gsn);
      }
    }
  }

  // ------------------------------------------------------------------ the invariant is kept

  lemma EmissionKeeps(m: Machine)
    requires NonceInv(m) && Unexposed(m) && m.store.expiration != 0 && m.adv.event.iid != 0
    ensures NonceInv(m.(sent := m.sent + [CurrentPayload(m)]))
  {
    var n := m.(sent := m.sent + [CurrentPayload(m)]);
    assert CurrentPayload(n) == CurrentPayload(m);
    DistanceZero(GSN_MAX, m.store.gsn, m.store.gsn);
    assert !Ahead(m.store, CurrentPayload(m));
    forall p | p in n.sent
      ensures p in m.sent || p == CurrentPayload(m)
    {
    }
  }

  lemma UpdateKeeps(m: Machine, faults: Faults)
    requires NonceInv(m) && m.status == Alive
    ensures NonceInv(UpdateAdvertisingData(m, faults))
    ensures UpdateAdvertisingData(m, faults).store == m.store
    ensures UpdateAdvertisingData(m, faults).adv.event == m.adv.event
    ensures UpdateAdvertisingData(m, faults).adv.connected == m.adv.connected
  {
    if m.running && !m.adv.connected && m.adv.event.iid != 0 && m.store.expiration != 0 {
      EmissionKeeps(m);
    }
  }

  /** One increment leaves no notification of the stored key at or ahead of the new GSN. */
  lemma IncrementPasses(s: Store, p: Payload)
    requires !Ahead(s, p) && Incremented(s).expiration != 0
    ensures !Ahead(Incremented(s), p) && !(p.key == s.key && p.gsn == Incremented(s).gsn)
  {
    var next := Succ(GSN_MAX, s.gsn);
    DistanceFromSucc(GSN_MAX, s.gsn, p.gsn);
    DistanceFromSucc(GSN_MAX, s.gsn, s.expiration);
    DistanceZero(GSN_MAX, s.gsn, s.expiration);
    DistanceZero(GSN_MAX, next, p.gsn);
  }

  /** No notification was sent under the stored key with the stored GSN. */
  predicate NonceUnused(m: Machine) {
    m.store.expiration != 0 ==> forall p :: p in m.sent ==> !(p.key == m.store.key && p.gsn == m.store.gsn)
  }

  lemma IncrementKeeps(m: Machine, n: Machine)
    requires m.adv.event.iid == 0 && n.adv.event.iid == 0 && n.sent == m.sent && n.store == Incremented(m.store)
    ensures Unexposed(m) ==> Unexposed(n) && NonceUnused(n)
    ensures !m.store.stale && Young(m) ==> Young(n)
    ensures Young(m) && n.store.expiration != 0 ==> 1 <= Age(n.store.expiration, n.store.gsn) <= KEY_LIFETIME - 1
  {
    if n.store.expiration != 0 {
      forall p | p in m.sent && Unexposed(m)
        ensures !Ahead(n.store, p) && !(p.key == n.store.key && p.gsn == n.store.gsn)
      {
        IncrementPasses(m.store, p);
      }
      if Young(m) {
        IncrementAges(m.store.expiration, m.store.gsn);
      }
    }
  }

  lemma IncrementGsnKeeps(m: Machine, broadcast: bool, faults: Faults)
    requires NonceInv(m) && m.status == Alive && m.adv.event.iid == 0
    ensures var n := IncrementGsn(m, broadcast, faults);
            && NonceInv(n) && n.adv == m.adv && n.sent == m.sent && n.running == m.running
            && (n.status == Alive && (m.running || !m.store.stale) ==> NonceUnused(n))
            && (n.status == Alive && !n.store.stale && n.store.expiration != 0 ==>
                  1 <= Age(n.store.expiration, n.store.gsn))
  {
    var n := IncrementGsn(m, broadcast, faults);
    if n.status == Alive {
      IncrementKeeps(m, n);
    }
  }

  lemma ConnectKeeps(m: Machine, faults: Faults)
    requires NonceInv(m) && Enabled(m, Connect)
    ensures NonceInv(DidConnect(m, faults))
  {
    if m.status == Alive && GsnRead !in faults && GsnWrite !in faults {
      var m1 := m.(adv := m.adv.(connected := true, fastTimer := false, timer := false));
      UpdateKeeps(m1.(store := m1.store.(didIncrement := false), adv := m1.adv.(event := NO_EVENT)), faults);
    }
  }

  lemma DisconnectKeeps(m: Machine, faults: Faults)
    requires NonceInv(m) && Enabled(m, Disconnect)
    ensures NonceInv(DidDisconnect(m, faults))
  {
    if m.status == Alive && GsnRead !in faults && GsnWrite !in faults {
      UpdateKeeps(m.(adv := m.adv.(connected := false, fastTimer := FastTimerAllocation !in faults),
                     store := m.store.(didIncrement := false)), faults);
    }
  }

  lemma TimerKeeps(m: Machine, fast: bool, faults: Faults)
    requires NonceInv(m) && m.status == Alive
    ensures NonceInv(TimerExpired(m, fast, faults))
  {
    var m1 := m.(adv := if fast then m.adv.(fastTimer := false) else m.adv.(timer := false));
    if m1.adv.event.iid != 0 && !m1.adv.timer {
      UpdateKeeps(
        m1.(adv := m1.adv.(event := NO_EVENT, timer := EventTimerAllocation !in faults)), faults);
    } else {
      UpdateKeeps(m1, faults);
    }
  }

  /** An event is put on air under a nonce not used before. */
  lemma EventKeeps(m: Machine, timer: bool, e: BroadcastedEvent)
    requires NonceInv(m) && m.status == Alive && !m.adv.connected && m.adv.event.iid == 0
    requires m.running || !m.store.stale ==> NonceUnused(m)
    requires !m.store.stale && m.store.expiration != 0 ==> 1 <= Age(m.store.expiration, m.store.gsn)
    ensures NonceInv(m.(adv := m.adv.(timer := timer, event := e)))
  {
  }

  lemma OnAirKeeps(m: Machine, c: Change, faults: Faults)
    requires NonceInv(m) && m.status == Alive && !m.adv.connected
    requires m.adv.event.iid == 0 && c.interval.Some? && c.value.Some?
    ensures NonceInv(OnAir(m, c, faults))
  {
    var v := m.(adv := m.adv.(event := m.adv.event.(value := c.value.value)));
    IncrementGsnKeeps(v, true, faults);
    var m1 := IncrementGsn(v, true, faults);
    if m1.status == Alive {
      if EventTimerAllocation in faults {
        UpdateKeeps(m1, faults);
      } else {
        var e := BroadcastedEvent(c.iid, c.value.value, c.interval.value);
        StaleStays(v, true, faults);
        EventKeeps(m1, true, e);
        UpdateKeeps(m1.(adv := m1.adv.(timer := true, event := e)), faults);
      }
    }
  }

  lemma StaleStays(m: Machine, broadcast: bool, faults: Faults)
    ensures IncrementGsn(m, broadcast, faults).store.stale ==> m.store.stale
    ensures var n := IncrementGsn(m, broadcast, faults);
            n.status == Alive && m.store.stale && !n.store.stale ==> n.store.expiration == 0
  {
  }

  lemma BroadcastKeeps(m: Machine, c: Change, faults: Faults)
    requires NonceInv(m) && m.status == Alive && !m.adv.connected && c.interval.Some?
    ensures NonceInv(Broadcast(m, c, faults))
  {
    UpdateKeeps(m.(adv := Silenced(m.adv)), Silencing(faults));
    var m1 := UpdateAdvertisingData(m.(adv := Silenced(m.adv)), Silencing(faults));
    if m1.status == Alive {
      if c.value.None? {
        UpdateKeeps(m1, faults);
      } else {
        OnAirKeeps(m1, c, faults);
      }
    }
  }

  lemma CoalescedKeeps(m: Machine, faults: Faults)
    requires NonceInv(m) && m.status == Alive
    ensures NonceInv(CoalescedIncrement(m, faults))
    ensures CoalescedIncrement(m, faults).adv == m.adv
  {
    if GsnRead !in faults && !m.store.didIncrement && m.adv.event.iid == 0 {
      IncrementGsnKeeps(m, false, faults);
    }
  }

  lemma DisconnectedEventKeeps(m: Machine, faults: Faults)
    requires NonceInv(m) && m.status == Alive
    ensures NonceInv(DisconnectedEvent(m, faults))
  {
    CoalescedKeeps(m, faults);
    var m1 := CoalescedIncrement(m, faults);
    if m1.status == Alive && !m.store.didIncrement && !m1.adv.connected {
      UpdateKeeps(m1.(adv := m1.adv.(timer := EventTimerAllocation !in faults)), faults);
    }
  }

  lemma RaiseKeeps(m: Machine, c: Change, faults: Faults)
    requires NonceInv(m) && m.status == Alive
    ensures NonceInv(DidRaiseEvent(m, c, faults))
  {
    DisconnectedEventKeeps(m, faults);
    if !m.adv.connected && c.interval.Some? {
      BroadcastKeeps(m, c, faults);
    }
  }

  lemma GenerateKeyKeeps(m: Machine, key: Key, newID: Option<DeviceID>, faults: Faults)
    requires NonceInv(m) && Enabled(m, GenerateKey(key, newID))
    ensures NonceInv(DidGenerateKey(m, key, newID, faults))
  {
    FreshKeyHasAgeZero(m.store.gsn);
  }

  /** Without a stored key nothing can be repeated. */
  lemma NoKeyKeeps(m: Machine, s: Store)
    requires NonceInv(m) && s.expiration == 0
    ensures NonceInv(m.(store := s)) && Unexposed(m.(store := s)) && Young(m.(store := s))
  {
  }

  lemma StartKeeps(m: Machine, firmware: Firmware, pairings: Pairings, faults: Faults)
    requires NonceInv(m) && m.status == Alive
    requires Enabled(m, Start(firmware, pairings)) && SafeStart(m, Start(firmware, pairings))
    ensures NonceInv(DidStart(m, firmware, pairings, faults))
  {
    var m1 := FirmwareChecked(m.(running := true), firmware, faults);
    if m1.status == Alive && m1.running && !CleanupFails(pairings, faults) {
      var m2 := m1.(store := Cleaned(m1.store, pairings));
      if m2.store.expiration == 0 {
        NoKeyKeeps(m, m2.store);
      } else {
        assert m2 == m.(running := true) && KeepsKey(Start(firmware, pairings));
      }
      assert NonceInv(m2);
      UpdateKeeps(m2, faults);
    } else {
      StartFails(m, firmware, faults);
    }
  }

  lemma StartFails(m: Machine, firmware: Firmware, faults: Faults)
    requires NonceInv(m) && m.status == Alive
    ensures var n := FirmwareChecked(m.(running := true), firmware, faults);
            NonceInv(Fail(n, IoFailure)) && (n.status != Alive || !n.running ==> NonceInv(n))
  {
  }

  lemma NextKeeps(m: Machine, s: Step)
    requires NonceInv(m) && Enabled(m, s.event) && SafeStart(m, s.event)
    ensures NonceInv(Next(m, s))
  {
    match s.event
    case Start(firmware, pairings) => StartKeeps(m, firmware, pairings, s.faults);
    case Stop =>
    case Reboot =>
    case Refresh => UpdateKeeps(m, s.faults);
    case Connect => ConnectKeeps(m, s.faults);
    case Disconnect => DisconnectKeeps(m, s.faults);
    case EventTimerExpires => TimerKeeps(m, false, s.faults);
    case FastTimerExpires => TimerKeeps(m, true, s.faults);
    case Raise(c) => RaiseKeeps(m, c, s.faults);
    case NotificationSent => CoalescedKeeps(m, s.faults);
    case GenerateKey(key, newID) => GenerateKeyKeeps(m, key, newID, s.faults);
    case SetAdvertisingID(id) =>
    case RemovePairing(pairings) =>
      if pairings != AdminPaired {
        NoKeyKeeps(m, Cleaned(m.store, pairings));
      }
    case FactoryReset =>
      if ParametersRemove !in s.faults {
        NoKeyKeeps(m, DidFactoryReset(m, s.faults).store);
      }
  }

  predicate SafeRun(m: Machine, steps: seq<Step>)
    decreases |steps|
  {
    steps == [] || (SafeStart(m, steps[0].event) && SafeRun(Next(m, steps[0]), steps[1..]))
  }

  lemma {:induction false} RunKeeps(m: Machine, steps: seq<Step>)
    requires NonceInv(m) && Possible(m, steps) && SafeRun(m, steps)
    ensures NonceInv(Run(m, steps))
    decreases |steps|
  {
    if steps != [] {
      NextKeeps(m, steps[0]);
      RunKeeps(Next(m, steps[0]), steps[1..]);
    }
  }

  /** A key under which the GSN has not been reset is safe, so the flag is all a caller has to look at. */
  lemma {:induction false} FreshIsSafe(m: Machine, steps: seq<Step>)
    requires NonceInv(m) && Possible(m, steps) && FreshRun(m, steps)
    ensures SafeRun(m, steps)
    decreases |steps|
  {
    if steps != [] {
      NextKeeps(m, steps[0]);
      FreshIsSafe(Next(m, steps[0]), steps[1..]);
    }
  }

  /**
    In every run in which no start finds a key under which the GSN has been reset, and keeps it, two
    encrypted notifications produced under the same key with the same GSN, the nonce, are the same
    notification: same identifier, characteristic and value.
  */
  lemma NoncesNeverRepeat(steps: seq<Step>, p: Payload, q: Payload)
    requires Possible(INITIAL, steps) && FreshRun(INITIAL, steps)
    requires p in Run(INITIAL, steps).sent && q in Run(INITIAL, steps).sent
    requires p.key == q.key && p.gsn == q.gsn
    ensures p == q
  {
    FreshIsSafe(INITIAL, steps);
    RunKeeps(INITIAL, steps);
  }

  // ------------------------------------------------------------------ what one step sends

  /** At most one notification is sent, the current one under a valid key. */
  predicate SendsAtMostCurrent(m: Machine, n: Machine) {
    || n.sent == m.sent
    || (n.store.expiration != 0 && n.adv.event.iid != 0 && n.sent == m.sent + [CurrentPayload(n)])
  }

  lemma UpdateSendsAtMostOne(m: Machine, faults: Faults)
    ensures SendsAtMostCurrent(m, UpdateAdvertisingData(m, faults))
  {
  }

  lemma StartSendsAtMostOne(m: Machine, firmware: Firmware, pairings: Pairings, faults: Faults)
    ensures SendsAtMostCurrent(m, DidStart(m, firmware, pairings, faults))
  {
    var m1 := FirmwareChecked(m.(running := true), firmware, faults);
    assert m1.sent == m.sent;
    UpdateSendsAtMostOne(m1.(store := Cleaned(m1.store, pairings)), faults);
  }

  lemma RaiseSendsAtMostOne(m: Machine, c: Change, faults: Faults)
    ensures SendsAtMostCurrent(m, DidRaiseEvent(m, c, faults))
  {
    assert UpdateAdvertisingData(m.(adv := Silenced(m.adv)), Silencing(faults)).sent == m.sent;
  }

  lemma StepSendsAtMostOne(m: Machine, s: Step)
    ensures SendsAtMostCurrent(m, Next(m, s))
  {
    match s.event
    case Raise(c) => RaiseSendsAtMostOne(m, c, s.faults);
    case Start(firmware, pairings) => StartSendsAtMostOne(m, firmware, pairings, s.faults);
    case Refresh => UpdateSendsAtMostOne(m, s.faults);
    case Connect | Disconnect | EventTimerExpires | FastTimerExpires =>
    case _ =>
  }

  /** A running server has no key under which the GSN has been reset. */
  predicate Fresh(m: Machine) {
    m.status == Alive && m.running ==> !m.store.stale
  }

  lemma FreshKeeps(m: Machine, s: Step)
    requires Fresh(m) && Enabled(m, s.event) && FreshStart(m, s.event)
    ensures Fresh(Next(m, s))
  {
    match s.event
    case Raise(c) => RaiseKeepsRunning(m, c, s.faults);
    case Start(firmware, pairings) => StartKeepsFresh(m, firmware, pairings, s.faults);
    case _ =>
  }

  lemma StartKeepsFresh(m: Machine, firmware: Firmware, pairings: Pairings, faults: Faults)
    requires m.status == Alive && FreshStart(m, Start(firmware, pairings))
    ensures Fresh(DidStart(m, firmware, pairings, faults))
  {
  }

  /** Every notification a step sends uses a valid key and a GSN 1 to 32766 increments after it. */
  lemma SentWithinKeyLifetime(m: Machine, s: Step)
    requires NonceInv(m) && Fresh(m) && Enabled(m, s.event) && FreshStart(m, s.event)
    ensures var n := Next(m, s);
            && |m.sent| <= |n.sent| && m.sent == n.sent[..|m.sent|]
            && forall i :: |m.sent| <= i < |n.sent| ==>
                 && n.sent[i].key == n.store.key && n.store.expiration != 0
                 && 1 <= Age(n.store.expiration, n.sent[i].gsn) <= KEY_LIFETIME - 1
  {
    StepSendsAtMostOne(m, s);
    NextKeeps(m, s);
    if Next(m, s).sent != m.sent {
      SendingNeedsFresh(m, s);
    }
  }

  lemma StartNeedsFresh(m: Machine, firmware: Firmware, pairings: Pairings, faults: Faults)
    requires m.status == Alive && FreshStart(m, Start(firmware, pairings))
    requires DidStart(m, firmware, pairings, faults).sent != m.sent
    ensures !DidStart(m, firmware, pairings, faults).store.stale
  {
  }

  lemma RaiseNeedsFresh(m: Machine, c: Change, faults: Faults)
    requires Fresh(m) && m.status == Alive && DidRaiseEvent(m, c, faults).sent != m.sent
    ensures !DidRaiseEvent(m, c, faults).store.stale
  {
    RaiseKeepsRunning(m, c, faults);
  }

  lemma RaiseKeepsRunning(m: Machine, c: Change, faults: Faults)
    ensures var n := DidRaiseEvent(m, c, faults);
            (n.sent != m.sent ==> m.running) && (n.store.stale ==> m.store.stale) && n.running == m.running
  {
    var m1 := UpdateAdvertisingData(m.(adv := Silenced(m.adv)), Silencing(faults));
    assert m1.sent == m.sent && m1.running == m.running && m1.store == m.store;
  }

  lemma SendingNeedsFresh(m: Machine, s: Step)
    requires Fresh(m) && Enabled(m, s.event) && FreshStart(m, s.event) && Next(m, s).sent != m.sent
    ensures !Next(m, s).store.stale
  {
    match s.event
    case Start(firmware, pairings) => StartNeedsFresh(m, firmware, pairings, s.faults);
    case Raise(c) => RaiseNeedsFresh(m, c, s.faults);
    case _ =>
  }

  // ------------------------------------------------------------------ the guard is exact

  /**
    Reachable: with a key generated, a firmware update that fails after it has reset the GSN, followed by a
    start of the old firmware, makes the next broadcast use a nonce a second time.
  */
  lemma InterruptedUpdateRepeatsNonce(key: Key, value: Value8, other: Value8)
    requires value != other
    ensures Possible(INITIAL, A.OnAirSteps(key, value))
    ensures var raise := Raise(Change(true, true, 1, Some(1), Some(other)));
            var m1 := Next(Run(INITIAL, A.OnAirSteps(key, value)), Step(Reboot, {}));
            var m2 := Next(m1, Step(Start(Updated, AdminPaired), {ExpireRead}));
            var m3 := Next(m2, Step(Reboot, {}));
            var m4 := Next(m3, Step(Start(Unchanged, AdminPaired), {}));
            && Enabled(m1, Start(Updated, AdminPaired)) && Enabled(m2, Reboot)
            && Enabled(m3, Start(Unchanged, AdminPaired)) && !FreshStart(m3, Start(Unchanged, AdminPaired))
            && Enabled(m4, raise)
            && Next(m4, Step(raise, {})).sent == [Payload(key, 2, None, 1, value), Payload(key, 2, None, 1, other)]
  {
    A.OnAirReachable(key, value);
    var m := Run(INITIAL, A.OnAirSteps(key, value));
    var m3 := m.(store := Store(1, false, 32767, key, None, true), adv := ADV_ZERO, running := false);
    assert m3 == Next(Next(Next(m, Step(Reboot, {})), Step(Start(Updated, AdminPaired), {ExpireRead})),
                      Step(Reboot, {}));
    RestartedBroadcasts(m3, other);
  }

  /** So does a factory reset whose purge fails after it has removed the GSN but not the key. */
  lemma InterruptedResetRepeatsNonce(key: Key, value: Value8, other: Value8)
    requires value != other
    ensures Possible(INITIAL, A.OnAirSteps(key, value))
    ensures var raise := Raise(Change(true, true, 1, Some(1), Some(other)));
            var m1 := Next(Run(INITIAL, A.OnAirSteps(key, value)), Step(Reboot, {}));
            var m2 := Next(m1, Step(FactoryReset, {ParametersRemove}));
            var m3 := Next(m2, Step(Start(Unchanged, AdminPaired), {}));
            && Enabled(m1, FactoryReset) && Enabled(m2, Start(Unchanged, AdminPaired))
            && !FreshStart(m2, Start(Unchanged, AdminPaired)) && Enabled(m3, raise)
            && Next(m3, Step(raise, {})).sent == [Payload(key, 2, None, 1, value), Payload(key, 2, None, 1, other)]
  {
    A.OnAirReachable(key, value);
    var m := Run(INITIAL, A.OnAirSteps(key, value));
    var m2 := m.(store := Store(1, false, 32767, key, None, true), adv := ADV_ZERO, running := false);
    assert m2 == Next(Next(m, Step(Reboot, {})), Step(FactoryReset, {ParametersRemove}));
    RestartedBroadcasts(m2, other);
  }

  lemma RestartedBroadcasts(m: Machine, value: Value8)
    requires m.store == Store(1, false, 32767, m.store.key, None, true) && m.adv == ADV_ZERO && !m.running
    requires m.status == Alive
    ensures var raise := Raise(Change(true, true, 1, Some(1), Some(value)));
            var n := Next(m, Step(Start(Unchanged, AdminPaired), {}));
            && Enabled(n, raise)
            && Next(n, Step(raise, {})).sent == m.sent + [Payload(m.store.key, 2, None, 1, value)]
  {
    var n := Next(m, Step(Start(Unchanged, AdminPaired), {}));
    assert n == m.(running := true, adv := ADV_ZERO.(fastTimer := true, fastStarted := true));
  }

  // ------------------------------------------------------------------ which starts are safe

  function BroadcastChange(value: Value8): Change {
    Change(true, true, 1, Some(1), Some(value))
  }

  function Raises(value: Value8, k: nat): (steps: seq<Step>)
    ensures |steps| == k
  {
    if k == 0 then [] else [Step(Raise(BroadcastChange(value)), {})] + Raises(value, k - 1)
  }

  /** Within the lifetime of the key every raise uses the next nonce. */
  lemma {:induction false} RaisesReach(m: Machine, value: Value8, k: nat)
    requires RamInv(m) && m.status == Alive && m.running && !m.adv.connected && m.store.expiration != 0
    requires 1 <= k <= Distance(GSN_MAX, m.store.gsn, m.store.expiration)
    ensures Possible(m, Raises(value, k)) && SafeRun(m, Raises(value, k))
    ensures var n := Run(m, Raises(value, k));
            && (forall p :: p in m.sent ==> p in n.sent)
            && Payload(m.store.key, Advance(GSN_MAX, m.store.gsn, k), m.store.advertisingID, 1, value) in n.sent
    decreases k
  {
    var s := Step(Raise(BroadcastChange(value)), {});
    var n := Next(m, s);
    DistanceZero(GSN_MAX, m.store.gsn, m.store.expiration);
    A.BroadcastUsesNextGsn(m, BroadcastChange(value));
    assert Raises(value, k)[1..] == Raises(value, k - 1);
    assert Advance(GSN_MAX, m.store.gsn, 0) == m.store.gsn;
    assert Advance(GSN_MAX, m.store.gsn, 1) == n.store.gsn;
    if k > 1 {
      DistanceFromSucc(GSN_MAX, m.store.gsn, m.store.expiration);
      RaisesReach(n, value, k - 1);
      AdvanceAdds(GSN_MAX, m.store.gsn, 1, k - 1);
    } else {
      assert Raises(value, 0) == [];
    }
  }

  /** A start that keeps the key can be continued to a run that uses a nonce for two notifications. */
  ghost predicate CanRepeat(m: Machine) {
    var n := Next(m, Step(Start(Unchanged, AdminPaired), {}));
    exists steps :: Possible(n, steps) && SafeRun(n, steps) && !NoncesUnique(Run(n, steps).sent)
  }

  lemma AheadRepeats(m: Machine, q: Payload)
    requires RamInv(m) && m.status == Alive && Enabled(m, Start(Unchanged, AdminPaired))
    requires q in m.sent && Ahead(m.store, q)
    ensures CanRepeat(m)
  {
    var n := Next(m, Step(Start(Unchanged, AdminPaired), {}));
    A.StartKeeps(m, Unchanged, AdminPaired, {});
    assert n.store == m.store && n.status == Alive && n.running && !n.adv.connected;
    assert q in n.sent;
    var value: Value8 := if q.value == ZERO_VALUE then [1, 0, 0, 0, 0, 0, 0, 0] else ZERO_VALUE;
    var k := Distance(GSN_MAX, m.store.gsn, q.gsn);
    RaisesReach(n, value, k);
    AdvanceReaches(GSN_MAX, m.store.gsn, q.gsn);
    var p := Payload(m.store.key, q.gsn, m.store.advertisingID, 1, value);
    assert p in Run(n, Raises(value, k)).sent && q in Run(n, Raises(value, k)).sent && p != q;
  }

  lemma OnAirRepeats(m: Machine)
    requires RamInv(m) && m.status == Alive && Enabled(m, Start(Unchanged, AdminPaired)) && !OnAirUnique(m)
    ensures CanRepeat(m)
  {
    var n := Next(m, Step(Start(Unchanged, AdminPaired), {}));
    var q :| q in m.sent && q.key == m.store.key && q.gsn == m.store.gsn && q != CurrentPayload(m);
    assert n.sent == m.sent + [CurrentPayload(m)];
    assert Run(n, []) == n && Possible(n, []) && SafeRun(n, []);
    assert CurrentPayload(m) in n.sent && q in n.sent;
  }

  /**
    Exactly when some notification sent under the stored key has its GSN still to come, or in use for
    another event, a start that keeps the key can be continued so that a nonce repeats. With a key under
    which the GSN has not been reset that is never the case.
  */
  lemma StartRepeatsExactly(m: Machine)
    requires NonceInv(m) && RamInv(m) && m.status == Alive && Enabled(m, Start(Unchanged, AdminPaired))
    ensures CanRepeat(m) <==> !Unexposed(m)
    ensures !m.store.stale ==> !CanRepeat(m)
  {
    var s := Step(Start(Unchanged, AdminPaired), {});
    if Unexposed(m) {
      NextKeeps(m, s);
      forall steps | Possible(Next(m, s), steps) && SafeRun(Next(m, s), steps)
        ensures NoncesUnique(Run(Next(m, s), steps).sent)
      {
        RunKeeps(Next(m, s), steps);
      }
    } else if !OnAirUnique(m) {
      OnAirRepeats(m);
    } else {
      var q :| q in m.sent && Ahead(m.store, q);
      AheadRepeats(m, q);
    }
  }
}
