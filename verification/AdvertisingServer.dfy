/**
  The advertising code itself: it reads, decodes, changes and rewrites records of the key-value
  store and updates the `ble.adv` fields one by one. Every method is proved to act on the decoded
  state exactly as the function of module `Advertising` with the same name.
*/
module AdvertisingServer {
  import opened Base
  import opened Cyclic
  import opened Advertising

  datatype StoreKey = GsnRecord | BroadcastParametersRecord

  datatype GsnState = GsnState(gsn: u16, didIncrement: bool)

  datatype Parameters = Parameters(expiration: u16, key: Key, hasAdvertisingID: bool, advertisingID: DeviceID)

  const DEFAULT_PARAMETERS := Parameters(0, ZERO_KEY, false, [0, 0, 0, 0, 0, 0])

  // ------------------------------------------------------------------ record formats

  function EncodeGsn(g: GsnState): (b: seq<byte>)
    ensures |b| == 3
  {
    WriteLittle16(g.gsn) + [if g.didIncrement then 1 else 0]
  }

  function DecodeGsn(b: seq<byte>): GsnState
    requires |b| == 3
  {
    GsnState(ReadLittle16(b), b[2] % 2 == 1)
  }

  function EncodeParameters(p: Parameters): (b: seq<byte>)
    ensures |b| == 41
  {
    WriteLittle16(p.expiration) + p.key + [if p.hasAdvertisingID then 1 else 0] + p.advertisingID
  }

  function DecodeParameters(b: seq<byte>): Parameters
    requires |b| == 41
  {
    Parameters(ReadLittle16(b), b[2..34], b[34] % 2 == 1, b[35..41])
  }

  lemma GsnRoundTrip(g: GsnState)
    ensures DecodeGsn(EncodeGsn(g)) == g
  {
    assert EncodeGsn(g)[..2] == WriteLittle16(g.gsn);
  }

  lemma ParametersRoundTrip(p: Parameters)
    ensures DecodeParameters(EncodeParameters(p)) == p
  {
    var b := EncodeParameters(p);
    assert b[..2] == WriteLittle16(p.expiration);
    assert b[2..34] == p.key;
    assert b[35..41] == p.advertisingID;
  }

  /** Records keep their numbers little endian, their flags in the lowest bit of a byte. */
  lemma RecordLayout(g: GsnState, p: Parameters)
    ensures IsLittleEndian(EncodeGsn(g)[..2], g.gsn) && (EncodeGsn(g)[2] % 2 == 1 <==> g.didIncrement)
    ensures var b := EncodeParameters(p);
            && IsLittleEndian(b[..2], p.expiration) && b[2..34] == p.key
            && (b[34] % 2 == 1 <==> p.hasAdvertisingID) && b[35..] == p.advertisingID
  {
    var b := EncodeParameters(p);
    assert b[..2] == WriteLittle16(p.expiration);
    assert b[2..34] == p.key;
    assert b[35..] == p.advertisingID;
  }

  /** The GSN on record; an absent record stands for GSN 1. */
  function StoredGsn(kvs: map<StoreKey, seq<byte>>): GsnState
    requires WellFormed(kvs)
  {
    if GsnRecord in kvs then DecodeGsn(kvs[GsnRecord]) else GsnState(1, false)
  }

  function StoredParameters(kvs: map<StoreKey, seq<byte>>): Parameters
    requires WellFormed(kvs)
  {
    if BroadcastParametersRecord in kvs then DecodeParameters(kvs[BroadcastParametersRecord])
    else DEFAULT_PARAMETERS
  }

  predicate WellFormed(kvs: map<StoreKey, seq<byte>>) {
    && (GsnRecord in kvs ==> |kvs[GsnRecord]| == 3 && DecodeGsn(kvs[GsnRecord]).gsn != 0)
    && (BroadcastParametersRecord in kvs ==> |kvs[BroadcastParametersRecord]| == 41)
  }

  function DecodeStore(kvs: map<StoreKey, seq<byte>>, stale: bool): Store
    requires WellFormed(kvs)
  {
    var g, p := StoredGsn(kvs), StoredParameters(kvs);
    Store(g.gsn, g.didIncrement, p.expiration, p.key,
          if p.hasAdvertisingID then Some(p.advertisingID) else None, stale)
  }

  class Server {
    var kvs: map<StoreKey, seq<byte>>
    var connected: bool
    var timer: bool
    var fastTimer: bool
    var fastStarted: bool
    var event: BroadcastedEvent
    var running: bool
    var status: Status
    ghost var stale: bool
    ghost var sent: seq<Payload>
    ghost var broadcasts: nat
    ghost var coalesced: nat

    ghost predicate Valid()
      reads this
    {
      WellFormed(kvs)
    }

    ghost function Model(): Machine
      requires Valid()
      reads this
    {
      Machine(DecodeStore(kvs, stale), Adv(connected, timer, fastTimer, fastStarted, event),
              running, status, sent, broadcasts, coalesced)
    }

    constructor ()
      ensures Valid() && Model() == INITIAL
    {
      kvs := map[];
      connected, timer, fastTimer, fastStarted := false, false, false, false;
      event := NO_EVENT;
      running, status := false, Alive;
      stale, sent, broadcasts, coalesced := false, [], 0, 0;
    }

    // ---------------------------------------------------------------- store access

    method GetGsn(fault: bool) returns (r: Result<GsnState>)
      requires Valid()
      ensures r == if fault then Err(Unknown) else Ok(StoredGsn(kvs))
    {
      if fault {
        return Err(Unknown);
      }
      var bytes: seq<byte> := [1, 0, 0];
      if GsnRecord in kvs {
        bytes := kvs[GsnRecord];
        if |bytes| != 3 {
          return Err(Unknown);
        }
      }
      return Ok(DecodeGsn(bytes));
    }

    method SaveGsn(g: GsnState, fault: bool) returns (ok: bool)
      requires Valid() && g.gsn != 0
      modifies this`kvs
      ensures Valid() && ok == !fault
      ensures DecodeStore(kvs, stale) ==
              var s := old(DecodeStore(kvs, stale));
              if ok then s.(gsn := g.gsn, didIncrement := g.didIncrement) else s
    {
      if fault {
        return false;
      }
      GsnRoundTrip(g);
      kvs := kvs[GsnRecord := EncodeGsn(g)];
      return true;
    }

    method GetParameters(fault: bool) returns (r: Result<Parameters>)
      requires Valid()
      ensures r == if fault then Err(Unknown) else Ok(StoredParameters(kvs))
    {
      if fault {
        return Err(Unknown);
      }
      if BroadcastParametersRecord !in kvs {
        return Ok(DEFAULT_PARAMETERS);
      }
      var bytes := kvs[BroadcastParametersRecord];
      if |bytes| != 41 {
        return Err(Unknown);
      }
      return Ok(DecodeParameters(bytes));
    }

    /** Without an advertising identifier the device ID is used; here only whether it can be read. */
    method GetAdvertisedParameters(faults: Faults) returns (r: Result<Parameters>)
      requires Valid()
      ensures r == if AdvertiseRead in faults || (!StoredParameters(kvs).hasAdvertisingID && DeviceIDRead in faults)
                   then Err(Unknown) else Ok(StoredParameters(kvs))
    {
      r := GetParameters(AdvertiseRead in faults);
      if r.Ok? && !r.value.hasAdvertisingID {
        if DeviceIDRead in faults {
          return Err(Unknown);
        }
      }
    }

    method SaveParameters(p: Parameters, fault: bool) returns (ok: bool)
      requires Valid()
      modifies this`kvs
      ensures Valid() && ok == !fault
      ensures ok ==> StoredParameters(kvs) == p && StoredGsn(kvs) == old(StoredGsn(kvs))
      ensures !ok ==> kvs == old(kvs)
    {
      if fault {
        return false;
      }
      ParametersRoundTrip(p);
      kvs := kvs[BroadcastParametersRecord := EncodeParameters(p)];
      return true;
    }

    method ExpireKey(faults: Faults) returns (ok: bool)
      requires Valid()
      modifies this`kvs, this`stale
      ensures Valid() && ok == !(ExpireRead in faults || ExpireWrite in faults)
      ensures DecodeStore(kvs, stale) ==
              if ok then Expired(old(DecodeStore(kvs, stale))) else old(DecodeStore(kvs, stale))
    {
      var r := GetParameters(ExpireRead in faults);
      if r.Err? {
        return false;
      }
      var p := r.value;
      p := p.(expiration := 0, key := ZERO_KEY);
      ok := SaveParameters(p, ExpireWrite in faults);
      if ok {
        stale := false;
      }
    }

    /** `newID` is the advertising identifier sent along with the request, if any. */
    method GenerateKey(derivedKey: Key, newID: Option<DeviceID>, faults: Faults) returns (ok: bool)
      requires Valid()
      modifies this`kvs, this`stale
      ensures Valid() && Model() == DidGenerateKey(old(Model()), derivedKey, newID, faults)
    {
      var r := GetParameters(ParametersRead in faults);
      if r.Err? {
        return false;
      }
      var p := r.value;
      var g := GetGsn(GsnRead in faults);
      if g.Err? {
        return false;
      }
      var e: nat := g.value.gsn + 32767 - 1;
      if e > UINT16_MAX {
        e := e - UINT16_MAX;
      }
      assert e != 0 && e <= UINT16_MAX;
      p := p.(expiration := e);
      if PairingRead in faults {
        return false;
      }
      p := p.(key := derivedKey);
      if newID.Some? {
        p := p.(hasAdvertisingID := true, advertisingID := newID.value);
      }
      ok := SaveParameters(p, ParametersWrite in faults);
      if ok {
        stale := false;
      }
    }

    method SetAdvertisingID(id: DeviceID, faults: Faults) returns (ok: bool)
      requires Valid()
      modifies this`kvs
      ensures Valid() && Model() == DidSetAdvertisingID(old(Model()), id, faults)
    {
      var r := GetParameters(ParametersRead in faults);
      if r.Err? {
        return false;
      }
      var p := r.value;
      p := p.(hasAdvertisingID := true, advertisingID := id);
      ok := SaveParameters(p, ParametersWrite in faults);
    }

    method ExpireKeyIfDue(gsn: u16, expiration: u16, faults: Faults) returns (ok: bool)
      requires Valid() && status == Alive
      requires gsn == Model().store.gsn && expiration == Model().store.expiration
      modifies this`kvs, this`stale
      ensures Valid() && ok == !(gsn == expiration && (ExpireRead in faults || ExpireWrite in faults))
      ensures DecodeStore(kvs, stale) ==
              var s := old(DecodeStore(kvs, stale));
              if gsn == expiration && ok then Expired(s) else s
    {
      ok := true;
      if gsn == expiration {
        ok := ExpireKey(faults);
      }
    }

    method SaveNextGsn(g: GsnState, fault: bool) returns (ok: bool)
      requires Valid() && g.gsn != 0
      modifies this`kvs
      ensures Valid() && ok == !fault
      ensures DecodeStore(kvs, stale) ==
              var s := old(DecodeStore(kvs, stale));
              if ok then s.(gsn := Succ(GSN_MAX, g.gsn), didIncrement := true) else s
    {
      var gsn := g;
      if gsn.gsn == UINT16_MAX {
        gsn := gsn.(gsn := 1);
      } else {
        gsn := gsn.(gsn := gsn.gsn + 1);
      }
      gsn := gsn.(didIncrement := true);
      ok := SaveGsn(gsn, fault);
    }

    /** The store after an increment that may fail half-way. */
    ghost function AfterIncrement(s: Store, faults: Faults): Store {
      var due := s.gsn == s.expiration;
      if due && (ExpireRead in faults || ExpireWrite in faults) then s
      else if GsnWrite in faults then (if due then Expired(s) else s)
      else Incremented(s)
    }

    method IncrementStored(gsn: GsnState, expiration: u16, faults: Faults) returns (ok: bool)
      requires Valid() && status == Alive
      requires gsn == StoredGsn(kvs) && expiration == StoredParameters(kvs).expiration
      modifies this`kvs, this`stale
      ensures Valid()
      ensures var s := old(DecodeStore(kvs, stale));
              && DecodeStore(kvs, stale) == AfterIncrement(s, faults)
              && ok == !(|| GsnWrite in faults
                         || (s.gsn == s.expiration && (ExpireRead in faults || ExpireWrite in faults)))
    {
      ok := ExpireKeyIfDue(gsn.gsn, expiration, faults);
      if ok {
        ok := SaveNextGsn(gsn, GsnWrite in faults);
      }
    }

    /** A failure is fatal in every caller, so it is recorded in `status` at once. */
    method IncrementGsn(ghost broadcast: bool, faults: Faults)
      requires Valid() && status == Alive
      modifies this`kvs, this`stale, this`status, this`broadcasts, this`coalesced
      ensures Valid() && Model() == Advertising.IncrementGsn(old(Model()), broadcast, faults)
    {
      var p := GetParameters(IncrementRead in faults);
      var g := GetGsn(IncrementRead in faults);
      if p.Err? || g.Err? {
        status := IoFailure;
        return;
      }
      var ok := IncrementStored(g.value, p.value.expiration, faults);
      if !ok {
        status := IoFailure;
        return;
      }
      if broadcast {
        broadcasts := broadcasts + 1;
      } else {
        coalesced := coalesced + 1;
      }
    }

    method ClearDidIncrement(faults: Faults)
      requires Valid() && status == Alive
      modifies this`kvs, this`status
      ensures Valid()
      ensures Model() == var m := old(Model());
                         if GsnRead in faults || GsnWrite in faults then Fail(m, IoFailure)
                         else m.(store := m.store.(didIncrement := false))
    {
      var g := GetGsn(GsnRead in faults);
      if g.Err? {
        status := IoFailure;
        return;
      }
      var gsn := g.value;
      gsn := gsn.(didIncrement := false);
      var saved := SaveGsn(gsn, GsnWrite in faults);
      if !saved {
        status := IoFailure;
      }
    }

    // ---------------------------------------------------------------- advertisement

    method DidStartAdvertising(faults: Faults)
      requires Valid() && status == Alive
      modifies this`fastStarted, this`fastTimer, this`status
      ensures Valid() && Model() == Advertising.DidStartAdvertising(old(Model()), faults)
    {
      if !fastStarted {
        if fastTimer {
          status := AssertionFailure;
          return;
        }
        fastStarted := true;
        if FastTimerAllocation !in faults {
          fastTimer := true;
        }
      }
    }

    method UpdateAdvertisingData(faults: Faults)
      requires Valid() && status == Alive
      modifies this`fastStarted, this`fastTimer, this`status, this`sent
      ensures Valid() && Model() == Advertising.UpdateAdvertisingData(old(Model()), faults)
    {
      if running {
        if connected {
          return;
        }
        if event.iid != 0 {
          var p := GetAdvertisedParameters(faults);
          if p.Err? {
            status := IoFailure;
            return;
          }
          if p.value.expiration == 0 {
            status := MissingKey;
            return;
          }
          var g := GetGsn(AdvertiseGsnRead in faults);
          if g.Err? {
            status := IoFailure;
            return;
          }
          if !(1 <= event.interval <= 3) {
            status := AssertionFailure;
            return;
          }
          sent := sent + [Payload(p.value.key, g.value.gsn,
                                  if p.value.hasAdvertisingID then Some(p.value.advertisingID) else None,
                                  event.iid, event.value)];
        } else {
          var g := GetGsn(AdvertiseGsnRead in faults);
          if g.Err? {
            status := IoFailure;
            return;
          }
        }
        DidStartAdvertising(faults);
      }
    }

    method DidConnect(faults: Faults)
      requires Valid() && status == Alive && !connected
      modifies this
      ensures Valid() && Model() == Advertising.DidConnect(old(Model()), faults)
    {
      connected := true;
      if fastTimer {
        fastTimer := false;
      }
      if timer {
        timer := false;
      }
      ClearDidIncrement(faults);
      if status != Alive {
        return;
      }
      event := NO_EVENT;
      UpdateAdvertisingData(faults);
    }

    method DidDisconnect(faults: Faults)
      requires Valid() && status == Alive && connected
      modifies this
      ensures Valid() && Model() == Advertising.DidDisconnect(old(Model()), faults)
    {
      connected := false;
      if !fastStarted || fastTimer || timer {
        status := AssertionFailure;
        return;
      }
      if FastTimerAllocation !in faults {
        fastTimer := true;
      }
      ClearDidIncrement(faults);
      if status != Alive {
        return;
      }
      if event.iid != 0 {
        status := AssertionFailure;
        return;
      }
      UpdateAdvertisingData(faults);
    }

    /** `fast` tells which of the two timers the platform reports. */
    method AdvertisingTimerExpired(fast: bool, faults: Faults)
      requires Valid() && status == Alive && (if fast then fastTimer else timer)
      modifies this
      ensures Valid() && Model() == TimerExpired(old(Model()), fast, faults)
    {
      if fast {
        fastTimer := false;
      } else {
        timer := false;
      }
      if connected {
        status := AssertionFailure;
        return;
      }
      if event.iid != 0 && !timer {
        event := NO_EVENT;
        if EventTimerAllocation !in faults {
          timer := true;
        }
      }
      UpdateAdvertisingData(faults);
    }

    // ---------------------------------------------------------------- events

    /** Counts the event and, if a timer is available, puts it on air. */
    method BeginBroadcast(c: Change, faults: Faults)
      requires Valid() && status == Alive && c.interval.Some? && c.value.Some? && !timer
      requires event == BroadcastedEvent(0, ZERO_VALUE, event.interval)
      modifies this
      ensures Valid()
      ensures Model() == OnAir(old(Model()), c, faults)
    {
      event := event.(value := c.value.value);
      IncrementGsn(true, faults);
      if status != Alive {
        return;
      }
      if EventTimerAllocation !in faults {
        timer := true;
        event := event.(interval := c.interval.value);
        event := event.(iid := c.iid);
      }
      UpdateAdvertisingData(faults);
    }

    method BroadcastEvent(c: Change, faults: Faults)
      requires Valid() && status == Alive && c.interval.Some?
      modifies this
      ensures Valid() && Model() == Broadcast(old(Model()), c, faults)
    {
      if timer {
        timer := false;
      }
      event := event.(iid := 0);
      event := event.(value := ZERO_VALUE);
      UpdateAdvertisingData(Silencing(faults));
      if status != Alive {
        return;
      }
      if c.value.Some? {
        BeginBroadcast(c, faults);
      } else {
        UpdateAdvertisingData(faults);
      }
    }

    method CoalesceIncrement(faults: Faults)
      requires Valid() && status == Alive
      modifies this
      ensures Valid() && Model() == CoalescedIncrement(old(Model()), faults)
    {
      var g := GetGsn(GsnRead in faults);
      if g.Err? {
        status := IoFailure;
        return;
      }
      if !g.value.didIncrement {
        if event.iid != 0 || timer {
          status := AssertionFailure;
          return;
        }
        IncrementGsn(false, faults);
      }
    }

    /** The increment for an event that is not broadcast; a fresh one is advertised while disconnected. */
    method RaiseDisconnectedEvent(faults: Faults)
      requires Valid() && status == Alive
      modifies this
      ensures Valid() && Model() == DisconnectedEvent(old(Model()), faults)
    {
      var before := GetGsn(GsnRead in faults);
      CoalesceIncrement(faults);
      if status != Alive {
        return;
      }
      if before.Ok? && !before.value.didIncrement && !connected {
        if EventTimerAllocation !in faults {
          timer := true;
        }
        UpdateAdvertisingData(faults);
      }
    }

    method DidRaiseEvent(c: Change, faults: Faults)
      requires Valid() && status == Alive
      modifies this
      ensures Valid() && Model() == Advertising.DidRaiseEvent(old(Model()), c, faults)
    {
      if c.supportsBroadcast {
        if !connected {
          var p := GetParameters(EventRead in faults);
          var g := GetGsn(EventRead in faults);
          if p.Err? || g.Err? {
            status := IoFailure;
            return;
          }
          if p.value.expiration != 0 && p.value.expiration != g.value.gsn {
            if ConfigurationRead in faults {
              status := IoFailure;
              return;
            }
            if c.interval.Some? {
              BroadcastEvent(c, faults);
              return;
            }
          }
        }
      }
      if c.supportsDisconnected {
        RaiseDisconnectedEvent(faults);
      }
    }

    method DidSendEventNotification(faults: Faults)
      requires Valid() && status == Alive && connected
      modifies this
      ensures Valid() && Model() == CoalescedIncrement(old(Model()), faults)
    {
      CoalesceIncrement(faults);
    }

    // ---------------------------------------------------------------- life cycle

    /** The post-update tasks; the configuration number itself is kept elsewhere. */
    method HandleFirmwareUpdate(faults: Faults) returns (ok: bool)
      requires Valid()
      modifies this`kvs, this`stale
      ensures Valid()
      ensures ok == !(NumberIncrement in faults || GsnRemove in faults || ExpireRead in faults || ExpireWrite in faults)
      ensures DecodeStore(kvs, stale) ==
              var s := old(DecodeStore(kvs, stale));
              if NumberIncrement in faults || GsnRemove in faults then s
              else
                var r := GsnReset(s);
                if ok then Expired(r) else r
    {
      if NumberIncrement in faults || GsnRemove in faults {
        return false;
      }
      kvs := kvs - {GsnRecord};
      stale := StoredParameters(kvs).expiration != 0;
      ok := ExpireKey(faults);
    }

    /** Tells whether the start goes on. */
    method CheckFirmware(firmware: Firmware, faults: Faults) returns (ok: bool)
      requires Valid() && status == Alive && running
      modifies this`kvs, this`stale, this`running, this`status
      ensures Valid() && Model() == FirmwareChecked(old(Model()), firmware, faults)
      ensures ok == (status == Alive && running)
    {
      ok := VersionRead !in faults;
      if ok && firmware == Downgraded {
        running := false;
        return false;
      }
      if ok && firmware == Updated {
        ok := HandleFirmwareUpdate(faults);
      }
      if ok && firmware != Unchanged {
        ok := VersionWrite !in faults;
      }
      if !ok {
        status := IoFailure;
      }
    }

    method CleanupPairings(pairings: Pairings, faults: Faults) returns (ok: bool)
      requires Valid()
      modifies this`kvs, this`stale
      ensures Valid() && ok == !CleanupFails(pairings, faults)
      ensures DecodeStore(kvs, stale) ==
              var s := old(DecodeStore(kvs, stale));
              if ok then Cleaned(s, pairings) else s
    {
      if PairingsRead in faults {
        return false;
      }
      if pairings != AdminPaired {
        if pairings != NoPairing {
          if PairingsPurge in faults {
            return false;
          }
        }
        if ParametersRemove in faults {
          return false;
        }
        kvs := kvs - {BroadcastParametersRecord};
        stale := false;
      }
      return true;
    }

    method Start(firmware: Firmware, pairings: Pairings, faults: Faults)
      requires Valid() && status == Alive && !running
      modifies this
      ensures Valid() && Model() == DidStart(old(Model()), firmware, pairings, faults)
    {
      running := true;
      var ok := CheckFirmware(firmware, faults);
      if !ok {
        return;
      }
      ok := CleanupPairings(pairings, faults);
      if !ok {
        status := IoFailure;
        return;
      }
      UpdateAdvertisingData(faults);
    }

    /** `pairings` is what remains. */
    method RemovePairing(pairings: Pairings, faults: Faults) returns (ok: bool)
      requires Valid()
      modifies this`kvs, this`stale
      ensures Valid() && Model() == DidRemovePairing(old(Model()), pairings, faults)
      ensures ok == !CleanupFails(pairings, faults)
    {
      ok := CleanupPairings(pairings, faults);
    }

    /**
      HAPRestoreFactorySettings, with the two records of the configuration that are modelled;
      `ConfigurationPurge` is a failure of the purge anywhere else.
    */
    method RestoreFactorySettings(faults: Faults) returns (ok: bool)
      requires Valid() && !running && !connected
      modifies this`kvs, this`stale
      ensures Valid() && Model() == DidFactoryReset(old(Model()), faults)
      ensures ok == !(GsnRemove in faults || ParametersRemove in faults || ConfigurationPurge in faults)
    {
      ok := ConfigurationPurge !in faults;
      if GsnRemove in faults {
        ok := false;
      } else {
        kvs := kvs - {GsnRecord};
        stale := StoredParameters(kvs).expiration != 0;
      }
      if ParametersRemove in faults {
        ok := false;
      } else {
        kvs := kvs - {BroadcastParametersRecord};
        stale := false;
      }
    }

    method Reboot()
      requires Valid()
      modifies this
      ensures Valid() && Model() == DidReboot(old(Model()))
    {
      connected, timer, fastTimer, fastStarted := false, false, false, false;
      event := NO_EVENT;
      running := false;
      status := Alive;
    }
  }
}
