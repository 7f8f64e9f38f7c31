/** What the entry points of the advertising machine achieve when nothing fails on the way. */
module AdvertisingEffects {
  import opened Base
  import opened Cyclic
  import opened Advertising
  import A = AdvertisingProperties

  // ------------------------------------------------------------------ progress

  /** Only failing accesses stop the machine: without any, every guarded step leaves it alive. */
  lemma NothingElseStops(m: Machine, e: Event)
    requires Inv(m) && Enabled(m, e) && Guarded(m, e)
    ensures Next(m, Step(e, {})).status == Alive
  {
    A.NextKeeps(m, Step(e, {}));
    match e
    case Raise(c) => RaiseAccessesSucceed(m, c);
    case Start(firmware, pairings) => StartAccessesSucceed(m, firmware, pairings);
    case _ =>
  }

  lemma RaiseAccessesSucceed(m: Machine, c: Change)
    requires m.status == Alive
    ensures DidRaiseEvent(m, c, {}).status != IoFailure
  {
    assert Silencing({}) == {};
  }

  lemma StartAccessesSucceed(m: Machine, firmware: Firmware, pairings: Pairings)
    requires m.status == Alive
    ensures DidStart(m, firmware, pairings, {}).status != IoFailure
  {
  }

  // ------------------------------------------------------------------ events that are not broadcast

  /** A broadcast is possible: disconnected, with a key that has not reached its last GSN. */
  predicate CanBroadcast(m: Machine, c: Change) {
    c.supportsBroadcast && c.interval.Some? && !m.adv.connected
    && m.store.expiration != 0 && Age(m.store.expiration, m.store.gsn) != KEY_LIFETIME - 1
  }

  /** An event the controller learns of by the GSN alone. */
  predicate Coalesces(m: Machine, e: Event) {
    e.NotificationSent? || (e.Raise? && e.change.supportsDisconnected && !CanBroadcast(m, e.change))
  }

  lemma LastGsnIsExpiration(m: Machine)
    requires m.store.expiration != 0
    ensures Age(m.store.expiration, m.store.gsn) == KEY_LIFETIME - 1 <==> m.store.gsn == m.store.expiration
  {
    DistanceCases(GSN_MAX, GeneratedAt(m.store.expiration), m.store.gsn);
  }

  /**
    Such an event, sent to the connected controller or raised, moves the GSN to its successor, unless
    an event since the last connect or disconnect has done so; then nothing is stored.
  */
  lemma EventMovesGsn(m: Machine, s: Step)
    requires Enabled(m, s.event) && Coalesces(m, s.event) && m.status == Alive && Next(m, s).status == Alive
    ensures var n := Next(m, s);
            && n.store.didIncrement && n.broadcasts == m.broadcasts && n.adv.event == m.adv.event
            && (m.store.didIncrement ==> n == m)
            && (!m.store.didIncrement ==>
                  n.store.gsn == Succ(GSN_MAX, m.store.gsn) && n.coalesced == m.coalesced + 1)
  {
    if m.store.expiration != 0 {
      LastGsnIsExpiration(m);
    }
    if s.event.Raise? {
      RaisedMovesGsn(m, s.faults);
      assert DidRaiseEvent(m, s.event.change, s.faults) == DisconnectedEvent(m, s.faults);
    }
  }

  lemma RaisedMovesGsn(m: Machine, faults: Faults)
    requires m.status == Alive && DisconnectedEvent(m, faults).status == Alive
    ensures var n := DisconnectedEvent(m, faults);
            && n.store.didIncrement && n.broadcasts == m.broadcasts && n.adv.event == m.adv.event
            && (m.store.didIncrement ==> n == m)
            && (!m.store.didIncrement ==>
                  n.store.gsn == Succ(GSN_MAX, m.store.gsn) && n.coalesced == m.coalesced + 1)
  {
  }

  /** A connect and a disconnect start over; the GSN stays. */
  lemma ConnectionStartsOver(m: Machine, s: Step)
    requires Enabled(m, s.event) && (s.event.Connect? || s.event.Disconnect?) && Next(m, s).status == Alive
    ensures var n := Next(m, s);
            && !n.store.didIncrement && n.store == m.store.(didIncrement := false)
            && n.adv.connected == s.event.Connect? && n.adv.event.iid == 0 && n.sent == m.sent
  {
  }

  /** Some step is an event that is not broadcast and does not fail. */
  predicate SomeCoalesces(m: Machine, steps: seq<Step>)
    decreases |steps|
  {
    steps != []
    && (|| (m.status == Alive && Coalesces(m, steps[0].event) && Next(m, steps[0]).status == Alive)
        || SomeCoalesces(Next(m, steps[0]), steps[1..]))
  }

  predicate AllQuiet(steps: seq<Step>) {
    forall i :: 0 <= i < |steps| ==> A.Quiet(steps[i].event)
  }

  /** The flag is set as soon as such an event, or an increment for whatever reason, has happened. */
  lemma {:induction false} FlagRemembers(m: Machine, steps: seq<Step>)
    requires Possible(m, steps) && AllQuiet(steps)
    ensures var n := Run(m, steps);
            m.store.didIncrement || SomeCoalesces(m, steps) ==> n.store.didIncrement
    decreases |steps|
  {
    if steps != [] {
      var n := Next(m, steps[0]);
      A.QuietStep(m, steps[0]);
      if m.status == Alive && Coalesces(m, steps[0].event) && n.status == Alive {
        EventMovesGsn(m, steps[0]);
      }
      FlagRemembers(n, steps[1..]);
    }
  }

  /** Without an increment the flag stays clear. */
  lemma {:induction false} FlagNeedsIncrement(m: Machine, steps: seq<Step>)
    requires Possible(m, steps) && AllQuiet(steps) && !m.store.didIncrement
    ensures var n := Run(m, steps);
            n.store.didIncrement ==> m.broadcasts + m.coalesced < n.broadcasts + n.coalesced
    decreases |steps|
  {
    if steps != [] {
      var n := Next(m, steps[0]);
      A.QuietStep(m, steps[0]);
      if n.store.didIncrement {
        A.CoalescedAtMostOnce(n, steps[1..]);
      } else {
        FlagNeedsIncrement(n, steps[1..]);
        A.CoalescedAtMostOnce(n, steps[1..]);
      }
    }
  }

  /**
    From a connect or disconnect to the next, with at least one event that is not broadcast: if nothing
    has been broadcast either, all of them together have moved the GSN by exactly one.
  */
  lemma CoalescedExactlyOnce(m: Machine, steps: seq<Step>)
    requires Possible(m, steps) && AllQuiet(steps) && !m.store.didIncrement && SomeCoalesces(m, steps)
    ensures var n := Run(m, steps);
            && n.store.didIncrement && m.broadcasts + m.coalesced < n.broadcasts + n.coalesced
            && (n.broadcasts == m.broadcasts ==>
                  n.coalesced == m.coalesced + 1 && n.store.gsn == Succ(GSN_MAX, m.store.gsn))
  {
    var n := Run(m, steps);
    A.CoalescedAtMostOnce(m, steps);
    FlagRemembers(m, steps);
    FlagNeedsIncrement(m, steps);
    assert Advance(GSN_MAX, m.store.gsn, 0) == m.store.gsn;
    assert Advance(GSN_MAX, m.store.gsn, 1) == Succ(GSN_MAX, m.store.gsn);
  }

  /** A change that is neither announced nor broadcast leaves no trace; one without a value only silence. */
  lemma NothingToTell(m: Machine, c: Change)
    requires Inv(m) && Enabled(m, Raise(c)) && m.status == Alive
    requires if CanBroadcast(m, c) then c.value.None? else !c.supportsDisconnected
    ensures var n := Next(m, Step(Raise(c), {}));
            && n.status == Alive && n.store == m.store && n.sent == m.sent
            && (if CanBroadcast(m, c) then n.adv.event.iid == 0 && !n.adv.timer else n == m)
  {
    NothingElseStops(m, Raise(c));
    if m.store.expiration != 0 {
      LastGsnIsExpiration(m);
    }
    assert Silencing({}) == {};
  }

  // ------------------------------------------------------------------ timers and what is on air

  /** An event that moves the GSN is advertised fast for one period. */
  lemma EventArmsTimer(m: Machine, c: Change)
    requires Inv(m) && Enabled(m, Raise(c)) && Coalesces(m, Raise(c)) && m.status == Alive
    requires !m.adv.connected && !m.store.didIncrement
    ensures var n := Next(m, Step(Raise(c), {}));
            && n.status == Alive
            && n.adv == m.adv.(timer := true, fastTimer := n.adv.fastTimer, fastStarted := n.adv.fastStarted)
  {
    NothingElseStops(m, Raise(c));
    EventMovesGsn(m, Step(Raise(c), {}));
  }

  /** What the radio is told while an event is on air, and that nothing encrypted is sent otherwise. */
  lemma OnAirIsRepeated(m: Machine, e: Event)
    requires Inv(m) && Enabled(m, e) && m.status == Alive && m.running && !m.adv.connected
    requires e == Refresh || e == FastTimerExpires
    ensures var n := Next(m, Step(e, {}));
            && n.store == m.store && n.adv.event == m.adv.event && n.adv.timer == m.adv.timer
            && n.sent == m.sent + (if m.adv.event.iid != 0 then [CurrentPayload(m)] else [])
            && (e == FastTimerExpires ==> !n.adv.fastTimer)
  {
    NothingElseStops(m, e);
  }

  /** The end of its period ends a broadcast, silently, and starts another period of fast advertising. */
  lemma PeriodEnds(m: Machine)
    requires Inv(m) && Enabled(m, EventTimerExpires) && m.status == Alive
    ensures var n := Next(m, Step(EventTimerExpires, {}));
            && n.status == Alive && n.adv.event.iid == 0 && n.store == m.store && n.sent == m.sent
            && (n.adv.timer <==> m.adv.event.iid != 0)
  {
    NothingElseStops(m, EventTimerExpires);
  }

  /** After a disconnect, and after the first start, advertising is fast until a timer fires. */
  lemma FastAdvertising(m: Machine, e: Event)
    requires Inv(m) && Enabled(m, e) && Guarded(m, e) && m.status == Alive
    requires e == Disconnect || (e.Start? && e.firmware != Downgraded && !m.adv.fastStarted)
    ensures Next(m, Step(e, {})).adv.fastTimer && Next(m, Step(e, {})).adv.fastStarted
  {
    NothingElseStops(m, e);
  }

  /** A server that is stopped, or connected, advertises nothing encrypted, and does not even look. */
  lemma SilentWithoutAdvertising(m: Machine, s: Step)
    requires Inv(m) && Enabled(m, s.event) && (!m.running || m.adv.connected) && !s.event.Start?
    ensures Next(m, s).sent == m.sent
    ensures s.event == Refresh ==> Next(m, s) == m
  {
  }

  /** A stop ends advertising and nothing else; a reboot keeps the store and nothing else. */
  lemma StopAndReboot(m: Machine, faults: Faults)
    ensures var n := Next(m, Step(Stop, faults));
            !n.running && n.adv == m.adv && n.store == m.store && n.status == m.status
    ensures var n := Next(m, Step(Reboot, faults));
            !n.running && n.adv == ADV_ZERO && n.store == m.store && n.status == Alive
  {
  }

  // ------------------------------------------------------------------ accesses that fail

  /** The accesses without which a connect or disconnect cannot start over, and an event cannot be counted. */
  predicate CannotCount(m: Machine, s: Step) {
    match s.event
    case Connect | Disconnect => GsnRead in s.faults || GsnWrite in s.faults
    case NotificationSent =>
      GsnRead in s.faults || (!m.store.didIncrement && (IncrementRead in s.faults || GsnWrite in s.faults))
    case _ => false
  }

  /** They are fatal, and leave GSN and flag as they were. */
  lemma FailedCountIsFatal(m: Machine, s: Step)
    requires Inv(m) && Enabled(m, s.event) && CannotCount(m, s)
    ensures var n := Next(m, s);
            && n.status == IoFailure && n.sent == m.sent
            && n.store.gsn == m.store.gsn && n.store.didIncrement == m.store.didIncrement
  {
  }

  /** Failing to read or write the parameters is reported to the controller, and changes nothing. */
  lemma FailedParametersAreReported(m: Machine, s: Step)
    requires Enabled(m, s.event) && (s.event.GenerateKey? || s.event.SetAdvertisingID?)
    requires ParametersRead in s.faults || ParametersWrite in s.faults
    ensures Next(m, s) == m
  {
  }

  /** A start that cannot read the version, write it, or clean up ends before anything is advertised. */
  lemma FailedStartIsFatal(m: Machine, firmware: Firmware, pairings: Pairings, faults: Faults)
    requires Inv(m) && Enabled(m, Start(firmware, pairings)) && m.status == Alive && firmware != Downgraded
    requires || VersionRead in faults || PairingsRead in faults
             || (firmware != Unchanged && VersionWrite in faults)
             || (firmware == Updated && (NumberIncrement in faults || GsnRemove in faults))
             || (pairings != AdminPaired && ParametersRemove in faults)
    ensures var n := Next(m, Step(Start(firmware, pairings), faults)); n.status == IoFailure && n.sent == m.sent
  {
  }

  // ------------------------------------------------------------------ keys and identifiers

  /**
    A key generated, and an identifier given, in one connection are those under which the change after
    the disconnect is broadcast, with the GSN next to the one of the generation.
  */
  lemma GeneratedKeyIsUsed(m: Machine, key: Key, id: Option<DeviceID>, c: Change)
    requires Inv(m) && m.status == Alive && m.running && Enabled(m, GenerateKey(key, id)) && Enabled(m, Raise(c))
    requires c.supportsBroadcast && c.interval.Some? && c.value.Some?
    ensures var generated := Next(m, Step(GenerateKey(key, id), {}));
            var apart := Next(generated, Step(Disconnect, {}));
            var n := Next(apart, Step(Raise(c), {}));
            && Enabled(generated, Disconnect) && Enabled(apart, Raise(c)) && n.status == Alive
            && n.sent == m.sent + [Payload(key, Succ(GSN_MAX, m.store.gsn),
                                           if id.Some? then id else m.store.advertisingID, c.iid, c.value.value)]
  {
    var generated := Next(m, Step(GenerateKey(key, id), {}));
    A.NextKeeps(m, Step(GenerateKey(key, id), {}));
    var apart := Next(generated, Step(Disconnect, {}));
    A.NextKeeps(generated, Step(Disconnect, {}));
    NothingElseStops(generated, Disconnect);
    assert apart.store == WithKey(m.store, key, id).(didIncrement := false) && apart.sent == m.sent;
    assert ExpirationFor(m.store.gsn) != m.store.gsn;
    A.BroadcastUsesNextGsn(apart, c);
  }

  /** An identifier set on its own is used from then on, under the key that is there. */
  lemma IdentifierIsUsed(m: Machine, id: DeviceID, c: Change)
    requires Inv(m) && m.status == Alive && m.running && Enabled(m, SetAdvertisingID(id)) && Enabled(m, Raise(c))
    requires c.supportsBroadcast && c.interval.Some? && c.value.Some?
    requires m.store.expiration != 0 && m.store.expiration != m.store.gsn
    ensures var named := Next(m, Step(SetAdvertisingID(id), {}));
            var apart := Next(named, Step(Disconnect, {}));
            var n := Next(apart, Step(Raise(c), {}));
            n.sent == m.sent + [Payload(m.store.key, Succ(GSN_MAX, m.store.gsn), Some(id), c.iid, c.value.value)]
  {
    var named := Next(m, Step(SetAdvertisingID(id), {}));
    A.NextKeeps(m, Step(SetAdvertisingID(id), {}));
    var apart := Next(named, Step(Disconnect, {}));
    A.NextKeeps(named, Step(Disconnect, {}));
    NothingElseStops(named, Disconnect);
    A.BroadcastUsesNextGsn(apart, c);
  }

  // ------------------------------------------------------------------ starts

  /**
    What a start leaves in the store: after an update GSN 1 and no key, without an admin pairing no key
    and no identifier, otherwise what was there. Older firmware is not started.
  */
  lemma StartSettlesStore(m: Machine, firmware: Firmware, pairings: Pairings)
    requires Inv(m) && m.status == Alive
    requires Enabled(m, Start(firmware, pairings)) && Guarded(m, Start(firmware, pairings))
    ensures var n := Next(m, Step(Start(firmware, pairings), {}));
            && n.running == (firmware != Downgraded) && n.status == Alive
            && (firmware == Downgraded ==> n == m)
            && (firmware == Updated ==> n.store.gsn == 1 && !n.store.didIncrement && n.store.expiration == 0)
            && (firmware != Downgraded && pairings != AdminPaired ==>
                  n.store.expiration == 0 && n.store.key == ZERO_KEY && n.store.advertisingID.None?)
            && (firmware != Updated ==> n.store.gsn == m.store.gsn && n.store.didIncrement == m.store.didIncrement)
            && (pairings == AdminPaired ==> n.store.advertisingID == m.store.advertisingID)
            && (KeepsKey(Start(firmware, pairings)) ==> n.store == m.store)
  {
    NothingElseStops(m, Start(firmware, pairings));
  }

  /** The removal of the last admin pairing takes key and identifier away, a reset the GSN too. */
  lemma PurgesSettleStore(m: Machine, e: Event)
    requires Enabled(m, e) && ((e.RemovePairing? && e.pairings != AdminPaired) || e.FactoryReset?)
    ensures var n := Next(m, Step(e, {}));
            && n.store.expiration == 0 && n.store.key == ZERO_KEY && n.store.advertisingID.None?
            && n.adv == m.adv && n.sent == m.sent
            && (e.FactoryReset? ==> n.store.gsn == 1 && !n.store.didIncrement)
            && (e.RemovePairing? ==> n.store.gsn == m.store.gsn && n.store.didIncrement == m.store.didIncrement)
  {
  }
}
