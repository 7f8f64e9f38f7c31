/**
  The Bluetooth LE advertising machine: the stored Global State Number (GSN), the stored broadcast
  encryption key with its expiration GSN, the two advertising timers and the broadcasted event.

  This module is the machine on values: one function per entry point, and the properties of every
  run. `AdvertisingServer` holds the imperative code that is proved equal to these functions.
*/
module Advertising {
  import opened Base
  import opened Cyclic

  const GSN_MAX := UINT16_MAX

  /** Increments of the GSN after which a broadcast key has to be gone. */
  const KEY_LIFETIME := 32767

  type Key = k: seq<byte> | |k| == 32 witness ZEROS + ZEROS + ZEROS + ZEROS
  type DeviceID = d: seq<byte> | |d| == 6 witness [0, 0, 0, 0, 0, 0]
  type Value8 = v: seq<byte> | |v| == 8 witness ZEROS
  type Gsn = g: nat | 1 <= g <= GSN_MAX witness 1

  const ZEROS: seq<byte> := [0, 0, 0, 0, 0, 0, 0, 0]
  const ZERO_KEY: Key := ZEROS + ZEROS + ZEROS + ZEROS
  const ZERO_VALUE: Value8 := ZEROS

  /**
    What survives a reboot. `expiration` is 0 when there is no valid key. `stale` says that the GSN was
    reset while this key is stored.
  */
  datatype Store = Store(gsn: Gsn, didIncrement: bool, expiration: u16, key: Key,
                         advertisingID: Option<DeviceID>, stale: bool)

  /** `iid == 0` when no event is being broadcast. */
  datatype BroadcastedEvent = BroadcastedEvent(iid: u16, value: Value8, interval: byte)

  /** `server->ble.adv`: timers are reduced to whether they are armed. */
  datatype Adv = Adv(connected: bool, timer: bool, fastTimer: bool, fastStarted: bool,
                     event: BroadcastedEvent)

  const NO_EVENT := BroadcastedEvent(0, ZERO_VALUE, 0)
  const ADV_ZERO := Adv(false, false, false, false, NO_EVENT)

  /**
    `IoFailure`: a key-value store error was answered with HAPFatalError.
    `AssertionFailure`: a HAPAssert of the machine failed.
    `MissingKey`: an encrypted advertisement was due without a valid key.
  */
  datatype Status = Alive | IoFailure | AssertionFailure | MissingKey

  /**
    One encrypted notification: `gsn` is the nonce, `advertisingID` the additional data. Without an
    advertising identifier that is the device ID.
  */
  datatype Payload = Payload(key: Key, gsn: Gsn, advertisingID: Option<DeviceID>, iid: u16, value: Value8)

  /**
    `sent` records every encrypted notification handed to the radio, `broadcasts` and `coalesced`
    count GSN increments made for a broadcasted event and for any other event.
  */
  datatype Machine = Machine(store: Store, adv: Adv, running: bool, status: Status,
                             sent: seq<Payload>, broadcasts: nat, coalesced: nat)

  /** Call sites that can fail: key-value store accesses and timer allocations. */
  datatype Fault =
    | AdvertiseRead | DeviceIDRead | AdvertiseGsnRead | EventRead | ConfigurationRead
    | IncrementRead | ExpireRead | ExpireWrite | GsnRead | GsnWrite | GsnRemove
    | ParametersRead | PairingRead | ParametersWrite
    | VersionRead | NumberIncrement | VersionWrite | PairingsRead | PairingsPurge | ParametersRemove
    | SilenceGsnRead | ConfigurationPurge
    | EventTimerAllocation | FastTimerAllocation

  type Faults = set<Fault>

  /**
    A characteristic change. `interval` is the stored broadcast configuration (None: disabled),
    `value` what the read handler returns (None: it fails or the format cannot be broadcast).
  */
  datatype Change = Change(supportsBroadcast: bool, supportsDisconnected: bool, iid: u16,
                           interval: Option<byte>, value: Option<Value8>)

  /** How the firmware that starts compares with the version on record. */
  datatype Firmware = Unchanged | FirstStart | Updated | Downgraded

  /** What the pairing records hold. */
  datatype Pairings = NoPairing | NoAdmin | AdminPaired

  /** `Start` meets the stored `pairings`; `RemovePairing` leaves them. */
  datatype Event =
    | Start(firmware: Firmware, pairings: Pairings)
    | Stop
    | Reboot
    | Refresh
    | Connect
    | Disconnect
    | EventTimerExpires
    | FastTimerExpires
    | Raise(change: Change)
    | NotificationSent
    | GenerateKey(key: Key, newID: Option<DeviceID>)
    | SetAdvertisingID(id: DeviceID)
    | RemovePairing(pairings: Pairings)
    | FactoryReset

  const INITIAL := Machine(Store(1, false, 0, ZERO_KEY, None, false), ADV_ZERO, false, Alive, [], 0, 0)

  // ------------------------------------------------------------------ stored state

  function ExpirationFor(gsn: Gsn): (e: u16)
    ensures 1 <= e <= GSN_MAX
  {
    var e := gsn + KEY_LIFETIME - 1;
    if e > GSN_MAX then e - GSN_MAX else e
  }

  function WithKey(s: Store, key: Key, newID: Option<DeviceID>): Store {
    s.(expiration := ExpirationFor(s.gsn), key := key, stale := false,
       advertisingID := if newID.Some? then newID else s.advertisingID)
  }

  function Expired(s: Store): Store {
    s.(expiration := 0, key := ZERO_KEY, stale := false)
  }

  /** One successful GSN increment, which first expires a key that has reached its last GSN. */
  function Incremented(s: Store): Store {
    var s1 := if s.gsn == s.expiration then Expired(s) else s;
    s1.(gsn := Succ(GSN_MAX, s.gsn), didIncrement := true)
  }

  // ------------------------------------------------------------------ entry points

  function Fail(m: Machine, status: Status): Machine {
    m.(status := status)
  }

  /** The increment with its failing call sites; `broadcast` says on whose behalf it is made. */
  function IncrementGsn(m: Machine, broadcast: bool, faults: Faults): Machine {
    if IncrementRead in faults then Fail(m, IoFailure)
    else
      var due := m.store.gsn == m.store.expiration;
      if due && (ExpireRead in faults || ExpireWrite in faults) then Fail(m, IoFailure)
      else if GsnWrite in faults then
        Fail(if due then m.(store := Expired(m.store)) else m, IoFailure)
      else
        m.(store := Incremented(m.store),
           broadcasts := if broadcast then m.broadcasts + 1 else m.broadcasts,
           coalesced := if broadcast then m.coalesced else m.coalesced + 1)
  }

  function CurrentPayload(m: Machine): Payload {
    Payload(m.store.key, m.store.gsn, m.store.advertisingID, m.adv.event.iid, m.adv.event.value)
  }

  function DidStartAdvertising(m: Machine, faults: Faults): Machine {
    if m.adv.fastStarted then m
    else if m.adv.fastTimer then Fail(m, AssertionFailure)
    else m.(adv := m.adv.(fastStarted := true, fastTimer := FastTimerAllocation !in faults))
  }

  /** Chooses the advertisement format and hands the advertisement to the radio. */
  function UpdateAdvertisingData(m: Machine, faults: Faults): Machine {
    if !m.running || m.adv.connected then m
    else if m.adv.event.iid == 0 then
      if AdvertiseGsnRead in faults then Fail(m, IoFailure) else DidStartAdvertising(m, faults)
    else if AdvertiseRead in faults || (m.store.advertisingID.None? && DeviceIDRead in faults) then Fail(m, IoFailure)
    else if m.store.expiration == 0 then Fail(m, MissingKey)
    else if AdvertiseGsnRead in faults then Fail(m, IoFailure)
    else if !(1 <= m.adv.event.interval <= 3) then Fail(m, AssertionFailure)
    else DidStartAdvertising(m.(sent := m.sent + [CurrentPayload(m)]), faults)
  }

  function DidConnect(m: Machine, faults: Faults): Machine {
    var m1 := m.(adv := m.adv.(connected := true, fastTimer := false, timer := false));
    if GsnRead in faults || GsnWrite in faults then Fail(m1, IoFailure)
    else
      UpdateAdvertisingData(
        m1.(store := m1.store.(didIncrement := false), adv := m1.adv.(event := NO_EVENT)), faults)
  }

  function DidDisconnect(m: Machine, faults: Faults): Machine {
    var m1 := m.(adv := m.adv.(connected := false));
    if !m1.adv.fastStarted || m1.adv.fastTimer || m1.adv.timer then Fail(m1, AssertionFailure)
    else
      var m2 := m1.(adv := m1.adv.(fastTimer := FastTimerAllocation !in faults));
      if GsnRead in faults || GsnWrite in faults then Fail(m2, IoFailure)
      else
        var m3 := m2.(store := m2.store.(didIncrement := false));
        if m3.adv.event.iid != 0 then Fail(m3, AssertionFailure)
        else UpdateAdvertisingData(m3, faults)
  }

  function TimerExpired(m: Machine, fast: bool, faults: Faults): Machine {
    var m1 := m.(adv := if fast then m.adv.(fastTimer := false) else m.adv.(timer := false));
    if m1.adv.connected then Fail(m1, AssertionFailure)
    else if m1.adv.event.iid != 0 && !m1.adv.timer then
      UpdateAdvertisingData(
        m1.(adv := m1.adv.(event := NO_EVENT, timer := EventTimerAllocation !in faults)), faults)
    else UpdateAdvertisingData(m1, faults)
  }

  /** A broadcastable event whose value could be read: it is counted and, given a timer, put on air. */
  function OnAir(m: Machine, c: Change, faults: Faults): Machine
    requires c.interval.Some? && c.value.Some?
  {
    var m1 := IncrementGsn(m.(adv := m.adv.(event := m.adv.event.(value := c.value.value))), true, faults);
    if m1.status != Alive then m1
    else if EventTimerAllocation in faults then UpdateAdvertisingData(m1, faults)
    else
      UpdateAdvertisingData(
        m1.(adv := m1.adv.(timer := true,
                           event := BroadcastedEvent(c.iid, c.value.value, c.interval.value))), faults)
  }

  /** The current broadcast, if any, is cancelled. */
  function Silenced(adv: Adv): Adv {
    adv.(timer := false, event := BroadcastedEvent(0, ZERO_VALUE, adv.event.interval))
  }

  /** The regular advertisement in between reads the GSN on its own. */
  function Silencing(faults: Faults): Faults {
    faults - {AdvertiseGsnRead} + if SilenceGsnRead in faults then {AdvertiseGsnRead} else {}
  }

  /** The broadcast branch of a raised event, once the event is known to be broadcast. */
  function Broadcast(m: Machine, c: Change, faults: Faults): Machine
    requires c.interval.Some?
  {
    var m1 := UpdateAdvertisingData(m.(adv := Silenced(m.adv)), Silencing(faults));
    if m1.status != Alive then m1
    else if c.value.None? then UpdateAdvertisingData(m1, faults)
    else OnAir(m1, c, faults)
  }

  /** The increment shared by disconnected and connected events: at most one until reset. */
  function CoalescedIncrement(m: Machine, faults: Faults): Machine {
    if GsnRead in faults then Fail(m, IoFailure)
    else if m.store.didIncrement then m
    else if m.adv.event.iid != 0 || m.adv.timer then Fail(m, AssertionFailure)
    else IncrementGsn(m, false, faults)
  }

  function DisconnectedEvent(m: Machine, faults: Faults): Machine {
    var m1 := CoalescedIncrement(m, faults);
    if m1.status != Alive || m.store.didIncrement || m1.adv.connected then m1
    else
      UpdateAdvertisingData(
        m1.(adv := m1.adv.(timer := EventTimerAllocation !in faults)), faults)
  }

  function DidRaiseEvent(m: Machine, c: Change, faults: Faults): Machine {
    if c.supportsBroadcast && !m.adv.connected && EventRead in faults then Fail(m, IoFailure)
    else if c.supportsBroadcast && !m.adv.connected
            && m.store.expiration != 0 && m.store.expiration != m.store.gsn
            && ConfigurationRead in faults then Fail(m, IoFailure)
    else if c.supportsBroadcast && !m.adv.connected
            && m.store.expiration != 0 && m.store.expiration != m.store.gsn
            && c.interval.Some? then Broadcast(m, c, faults)
    else if c.supportsDisconnected then DisconnectedEvent(m, faults)
    else m
  }

  /** Key generation and the advertising identifier: failures are reported, not fatal. */
  function DidGenerateKey(m: Machine, key: Key, newID: Option<DeviceID>, faults: Faults): Machine {
    if ParametersRead in faults || GsnRead in faults || PairingRead in faults || ParametersWrite in faults then m
    else m.(store := WithKey(m.store, key, newID))
  }

  function DidSetAdvertisingID(m: Machine, id: DeviceID, faults: Faults): Machine {
    if ParametersRead in faults || ParametersWrite in faults then m
    else m.(store := m.store.(advertisingID := Some(id)))
  }

  /** After a firmware update the GSN is removed, then the key expired, then the version recorded. */
  function FirmwareUpdated(m: Machine, faults: Faults): Machine {
    if NumberIncrement in faults || GsnRemove in faults then Fail(m, IoFailure)
    else
      var m1 := m.(store := GsnReset(m.store));
      if ExpireRead in faults || ExpireWrite in faults then Fail(m1, IoFailure)
      else
        var m2 := m1.(store := Expired(m1.store));
        if VersionWrite in faults then Fail(m2, IoFailure) else m2
  }

  /** A server is not started with older firmware. */
  function FirmwareChecked(m: Machine, firmware: Firmware, faults: Faults): Machine {
    if VersionRead in faults then Fail(m, IoFailure)
    else match firmware
      case Unchanged => m
      case FirstStart => if VersionWrite in faults then Fail(m, IoFailure) else m
      case Updated => FirmwareUpdated(m, faults)
      case Downgraded => m.(running := false)
  }

  predicate CleanupFails(pairings: Pairings, faults: Faults) {
    || PairingsRead in faults
    || (pairings == NoAdmin && PairingsPurge in faults)
    || (pairings != AdminPaired && ParametersRemove in faults)
  }

  /** Without an admin pairing the broadcast parameters go: expiration, key and advertising identifier. */
  function Cleaned(s: Store, pairings: Pairings): Store {
    if pairings == AdminPaired then s else s.(expiration := 0, key := ZERO_KEY, advertisingID := None, stale := false)
  }

  function DidStart(m: Machine, firmware: Firmware, pairings: Pairings, faults: Faults): Machine {
    var m1 := FirmwareChecked(m.(running := true), firmware, faults);
    if m1.status != Alive || !m1.running then m1
    else if CleanupFails(pairings, faults) then Fail(m1, IoFailure)
    else UpdateAdvertisingData(m1.(store := Cleaned(m1.store, pairings)), faults)
  }

  /** A pairing is removed at run time, over either transport: a failing cleanup is only reported. */
  function DidRemovePairing(m: Machine, pairings: Pairings, faults: Faults): Machine {
    if CleanupFails(pairings, faults) then m
    else m.(store := Cleaned(m.store, pairings))
  }

  /** The GSN starts over at 1; any key that is stored has been used with later ones. */
  function GsnReset(s: Store): Store {
    s.(gsn := 1, didIncrement := false, stale := s.expiration != 0)
  }

  /**
    HAPRestoreFactorySettings empties the store of a stopped server; RAM stays. The records are
    removed one by one, so that a failing purge can leave any of them behind.
  */
  function DidFactoryReset(m: Machine, faults: Faults): Machine {
    var s := if GsnRemove in faults then m.store else GsnReset(m.store);
    m.(store := if ParametersRemove in faults then s else Cleaned(s, NoPairing))
  }

  /** A reboot keeps the store; RAM is cleared. */
  function DidReboot(m: Machine): Machine {
    m.(adv := ADV_ZERO, running := false, status := Alive)
  }

  // ------------------------------------------------------------------ runs

  datatype Step = Step(event: Event, faults: Faults)

  /**
    What the surrounding code guarantees. A central connects only to a running server; key
    generation and the advertising identifier need a secured session, hence a connection; the
    derived key comes from that session's secret, under which nothing has been broadcast yet.
  */
  predicate Enabled(m: Machine, e: Event) {
    if m.status != Alive then e.Reboot?
    else match e
      case Start(_, _) => !m.running && !m.adv.connected
      case Stop => m.running
      case Reboot => true
      case Refresh => true
      case Connect => m.running && !m.adv.connected
      case Disconnect => m.adv.connected
      case EventTimerExpires => m.adv.timer
      case FastTimerExpires => m.adv.fastTimer
      case Raise(c) => c.iid != 0 && (c.interval.Some? ==> 1 <= c.interval.value <= 3)
      case NotificationSent => m.adv.connected
      case GenerateKey(key, _) => m.adv.connected && forall p :: p in m.sent ==> p.key != key
      case SetAdvertisingID(_) => m.adv.connected
      case RemovePairing(_) => m.running
      case FactoryReset => !m.running && !m.adv.connected
  }

  predicate UpdatesFirmware(e: Event) {
    e.Start? && e.firmware == Updated
  }

  /** The event purges the broadcast parameters. */
  predicate Purges(e: Event) {
    || (e.Start? && e.firmware != Downgraded && e.pairings != AdminPaired)
    || (e.RemovePairing? && e.pairings != AdminPaired)
  }

  /**
    For the assertions: what resets the GSN must not find the event timer of an earlier server start
    still armed, and the broadcast parameters must not be purged while an event is on air.
  */
  predicate Guarded(m: Machine, e: Event) {
    && (UpdatesFirmware(e) || e.FactoryReset? ==> !m.adv.timer)
    && (Purges(e) ==> m.adv.event.iid == 0)
  }

  /** A start that neither updates the firmware nor purges the broadcast parameters. */
  predicate KeepsKey(e: Event) {
    e.Start? && (e.firmware == Unchanged || e.firmware == FirstStart) && e.pairings == AdminPaired
  }

  /** For the nonces: such a start must not find a key under which the GSN has been reset. */
  predicate FreshStart(m: Machine, e: Event) {
    KeepsKey(e) ==> !m.store.stale
  }

  function Next(m: Machine, s: Step): Machine {
    match s.event
    case Start(firmware, pairings) => DidStart(m, firmware, pairings, s.faults)
    case Stop => m.(running := false)
    case Reboot => DidReboot(m)
    case Refresh => UpdateAdvertisingData(m, s.faults)
    case Connect => DidConnect(m, s.faults)
    case Disconnect => DidDisconnect(m, s.faults)
    case EventTimerExpires => TimerExpired(m, false, s.faults)
    case FastTimerExpires => TimerExpired(m, true, s.faults)
    case Raise(c) => DidRaiseEvent(m, c, s.faults)
    case NotificationSent => CoalescedIncrement(m, s.faults)
    case GenerateKey(key, newID) => DidGenerateKey(m, key, newID, s.faults)
    case SetAdvertisingID(id) => DidSetAdvertisingID(m, id, s.faults)
    case RemovePairing(pairings) => DidRemovePairing(m, pairings, s.faults)
    case FactoryReset => DidFactoryReset(m, s.faults)
  }

  function Run(m: Machine, steps: seq<Step>): Machine
    decreases |steps|
  {
    if steps == [] then m else Run(Next(m, steps[0]), steps[1..])
  }

  predicate Possible(m: Machine, steps: seq<Step>)
    decreases |steps|
  {
    steps == [] || (Enabled(m, steps[0].event) && Possible(Next(m, steps[0]), steps[1..]))
  }

  predicate GuardedRun(m: Machine, steps: seq<Step>)
    decreases |steps|
  {
    steps == [] || (Guarded(m, steps[0].event) && GuardedRun(Next(m, steps[0]), steps[1..]))
  }

  predicate FreshRun(m: Machine, steps: seq<Step>)
    decreases |steps|
  {
    steps == [] || (FreshStart(m, steps[0].event) && FreshRun(Next(m, steps[0]), steps[1..]))
  }

  // ------------------------------------------------------------------ invariants

  /** GSN increments since the key with this expiration GSN was generated. */
  function Age(expiration: u16, gsn: Gsn): (a: nat)
    requires expiration != 0
    ensures a < GSN_MAX
  {
    Distance(GSN_MAX, GeneratedAt(expiration), gsn)
  }

  function GeneratedAt(expiration: u16): (g: Gsn)
    requires expiration != 0
    ensures ExpirationFor(g) == expiration
  {
    if expiration >= KEY_LIFETIME then expiration - (KEY_LIFETIME - 1)
    else expiration + GSN_MAX - (KEY_LIFETIME - 1)
  }

  predicate RamInv(m: Machine) {
    && (m.adv.connected ==> !m.adv.timer && !m.adv.fastTimer && m.adv.event.iid == 0)
    && (m.adv.event.iid != 0 ==>
          m.adv.timer && m.store.expiration != 0 && m.store.didIncrement && 1 <= m.adv.event.interval <= 3)
    && (m.adv.timer ==> m.store.didIncrement)
    && (m.running || m.adv.connected || m.adv.fastTimer ==> m.adv.fastStarted)
  }

  /** What keeps the assertions of the machine: nothing but store failures stops it. */
  predicate Inv(m: Machine) {
    (m.status == Alive || m.status == IoFailure) && (m.status == Alive ==> RamInv(m))
  }

  predicate NoncesUnique(sent: seq<Payload>) {
    forall p, q :: p in sent && q in sent && p.key == q.key && p.gsn == q.gsn ==> p == q
  }

  /** The GSN of `p` is still to come in the lifetime of its key. */
  predicate Ahead(s: Store, p: Payload) {
    && s.expiration != 0 && p.key == s.key
    && 1 <= Distance(GSN_MAX, s.gsn, p.gsn) <= Distance(GSN_MAX, s.gsn, s.expiration)
  }

  /** An event that is on air is the only one sent under its nonce. */
  predicate OnAirUnique(m: Machine) {
    m.store.expiration != 0 && m.adv.event.iid != 0 ==> forall p :: p in m.sent ==>
      p.key == m.store.key && p.gsn == m.store.gsn ==> p == CurrentPayload(m)
  }

  /** No nonce of the stored key that is still to be used, or is in use, has been used for something else. */
  predicate Unexposed(m: Machine) {
    (forall p :: p in m.sent ==> !Ahead(m.store, p)) && OnAirUnique(m)
  }

  /** The stored key is in its lifetime, and older than no increment while an event is on air. */
  predicate Young(m: Machine) {
    m.store.expiration != 0 ==>
      && Age(m.store.expiration, m.store.gsn) <= KEY_LIFETIME - 1
      && (m.adv.event.iid != 0 ==> 1 <= Age(m.store.expiration, m.store.gsn))
  }

  /** What keeps the nonces, whatever fails, asserts or finds no key. */
  predicate NonceInv(m: Machine) {
    && NoncesUnique(m.sent)
    && (m.status == Alive && m.adv.connected ==> m.adv.event.iid == 0)
    && (m.status == Alive && m.running ==> Unexposed(m))
    && (!m.store.stale ==> Unexposed(m) && Young(m))
  }

  /** The exact form of `FreshStart`. */
  predicate SafeStart(m: Machine, e: Event) {
    KeepsKey(e) ==> Unexposed(m)
  }
}
