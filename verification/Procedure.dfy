/**
  HAP-BLE procedures (section 7.3.5 of the HomeKit Accessory Protocol Specification R14): how a
  request that has been collected by the transaction is dispatched, in particular the two-step
  timed write, in which the first request is only cached and a second one executes it.

  This module is the machine on values with its run properties; `ProcedureObject` is the code.
*/
module Procedure {
  import opened Base
  import T = Transaction

  // Opcodes.
  const CHARACTERISTIC_WRITE: byte := 0x02
  const CHARACTERISTIC_READ: byte := 0x03
  const CHARACTERISTIC_TIMED_WRITE: byte := 0x04
  const CHARACTERISTIC_EXECUTE_WRITE: byte := 0x05
  const SERVICE_SIGNATURE_READ: byte := 0x06
  const PROTOCOL_CONFIGURATION: byte := 0x08

  // Status codes.
  const SUCCESS: byte := 0x00
  const UNSUPPORTED_PDU: byte := 0x01
  const INSUFFICIENT_AUTHORIZATION: byte := 0x03
  const INVALID_INSTANCE_ID: byte := 0x04
  const INSUFFICIENT_AUTHENTICATION: byte := 0x05
  const INVALID_REQUEST: byte := 0x06

  const MAX_VALUE_BYTES := 64000
  const TAG_BYTES := 16

  predicate IsValidOpcode(opcode: byte) {
    1 <= opcode <= 8 || 0x10 <= opcode <= 0x12
  }

  predicate IsServiceOperation(opcode: byte) {
    opcode == SERVICE_SIGNATURE_READ || opcode == PROTOCOL_CONFIGURATION
  }

  /** The attached characteristic, with the instance ID of its service. */
  datatype Characteristic = Characteristic(
    iid: u16, serviceIID: u16, requiresTimedWrite: bool, isIdentify: bool,
    writable: bool, writableWithoutSecurity: bool, readable: bool, readableWithoutSecurity: bool,
    writeNeedsAdmin: bool, readNeedsAdmin: bool, supportsWriteResponse: bool, supportsAuthorizationData: bool,
    dropsSecuritySession: bool)

  datatype Session = Session(secured: bool, isTransient: bool, isAdmin: bool, serverIsPaired: bool,
                             terminal: bool, terminalSoon: bool)

  /**
    A write request body as the TLV reader understands it. `needed` is the free space behind the
    request without which a copy leaves the buffer when the value and all that goes along is moved
    there before the handler runs.
  */
  datatype WriteParameters = WriteParameters(value: seq<byte>, ttl: byte, returnResponse: bool, needed: nat)

  type Parser = seq<byte> -> Option<WriteParameters>

  /**
    What the application and the serializers do during one GATT read: whether the value has the
    right format, the write handler's verdict, the read handler's body (None: it fails), the answer
    to the operations not modelled in detail, and the scratch bytes all of this leaves behind.
  */
  datatype Application = Application(formatOk: bool, writeError: Option<Error>, readBody: Option<nat>,
                                     otherStatus: byte, otherBody: Option<nat>, scratchAfter: seq<byte>)

  /** `CacheWrite` when a timed write is cached, `CallHandler` when the write handler runs. */
  datatype Observation =
    | CacheWrite(body: seq<byte>, start: nat)
    | CallHandler(requiresTimedWrite: bool, opcode: byte, body: seq<byte>, value: seq<byte>, now: nat)

  /**
    `cached` is the length of the pending timed write's body at the start of `scratch`. After `lost`
    nothing is known any more: a value or its authorization data was moved out of the buffer.
  */
  datatype Proc = Proc(characteristic: Characteristic, tx: T.Tx, scratch: seq<byte>, timer: bool,
                       pending: bool, cached: nat, startTime: nat, startedSecured: bool, lost: bool,
                       log: seq<Observation>)

  function Attach(c: Characteristic, scratch: seq<byte>, log: seq<Observation>): Proc {
    Proc(c, T.Create(Some(scratch)), scratch, false, false, 0, 0, false, false, log)
  }

  function Reset(p: Proc): Proc {
    Attach(p.characteristic, p.scratch, p.log)
  }

  // ------------------------------------------------------------------ writing to the characteristic

  /** Timed writes expire `ttl` units of 100 ms after their start; the subtraction is guarded. */
  predicate HasExpired(start: nat, ttl: byte, now: nat) {
    now >= ttl * 100 && now - ttl * 100 > start
  }

  datatype WriteResult = Rejected(error: Error) | Misplaced | Expired | Written(returnResponse: bool)

  /**
    Parses a write request, moves its value into the `room` behind it, and calls the handler, unless
    the timed write is invalid or expired. The space is not checked.
  */
  function ParseAndWrite(parse: Parser, body: seq<byte>, room: nat, start: Option<nat>, now: nat,
                         app: Application): WriteResult {
    var w := parse(body);
    if w.None? then Rejected(InvalidData)
    else if w.value.needed > room then Misplaced
    else WriteValue(w.value, start, now, app)
  }

  function WriteValue(w: WriteParameters, start: Option<nat>, now: nat, app: Application): WriteResult {
    if start.Some? && w.ttl == 0 then Rejected(InvalidData)
    else if start.Some? && HasExpired(start.value, w.ttl, now) then Expired
    else if |w.value| > MAX_VALUE_BYTES || !app.formatOk then Rejected(InvalidData)
    else if app.writeError.Some? then Rejected(app.writeError.value)
    else Written(w.returnResponse)
  }

  /** Whether `ParseAndWrite` gets as far as the handler. */
  predicate CallsHandler(parse: Parser, body: seq<byte>, room: nat, start: Option<nat>, now: nat, app: Application) {
    var w := parse(body);
    w.Some? && w.value.needed <= room && Deliverable(w.value, start, now, app)
  }

  predicate Deliverable(w: WriteParameters, start: Option<nat>, now: nat, app: Application) {
    && (start.Some? ==> w.ttl != 0 && !HasExpired(start.value, w.ttl, now))
    && |w.value| <= MAX_VALUE_BYTES && app.formatOk
  }

  /** The status that refuses a write, if any, in the order of the checks. */
  function RefuseWrite(c: Characteristic, s: Session, opcode: byte): Option<byte> {
    var plain := if c.isIdentify then !s.serverIsPaired else c.writableWithoutSecurity;
    if s.isTransient then Some(UNSUPPORTED_PDU)
    else if !s.secured && !plain then
      Some(if c.writable then INSUFFICIENT_AUTHENTICATION else UNSUPPORTED_PDU)
    else if s.secured && !c.writable then Some(UNSUPPORTED_PDU)
    else if c.writeNeedsAdmin && !s.isAdmin then Some(INSUFFICIENT_AUTHENTICATION)
    else if opcode != CHARACTERISTIC_EXECUTE_WRITE && c.requiresTimedWrite then Some(INVALID_REQUEST)
    else None
  }

  function RefuseRead(c: Characteristic, s: Session): Option<byte> {
    if s.isTransient then Some(UNSUPPORTED_PDU)
    else if !s.secured && !c.readableWithoutSecurity then
      Some(if c.readable then INSUFFICIENT_AUTHENTICATION else UNSUPPORTED_PDU)
    else if s.secured && !c.readable then Some(UNSUPPORTED_PDU)
    else if c.readNeedsAdmin && !s.isAdmin then Some(INSUFFICIENT_AUTHENTICATION)
    else None
  }

  // ------------------------------------------------------------------ dispatch

  /** What the environment supplies to one GATT read. */
  datatype ReadInput = ReadInput(maxBytes: nat, session: Session, now: nat, app: Application, encryptOk: bool)

  /** The scratch buffer keeps its size; bodies are written at its start. */
  predicate Fits(p: Proc, i: ReadInput) {
    && |i.app.scratchAfter| == |p.scratch|
    && (i.app.readBody.Some? ==> i.app.readBody.value <= T.Min(|p.scratch|, UINT16_MAX))
    && (i.app.otherBody.Some? ==> i.app.otherBody.value <= T.Min(|p.scratch|, UINT16_MAX))
  }

  predicate WellFormed(p: Proc) {
    && T.Valid(p.tx) && p.cached <= |p.scratch|
    && (p.tx.buffer.Some? ==> |p.tx.buffer.value| == |p.scratch|)
  }

  /** No body buffer while a cached request must not be overwritten and none is being answered. */
  predicate Protected(tx: T.Tx) {
    tx.state.WaitingForInitialRead? || tx.state.WritingResponse? || tx.buffer.None?
  }

  predicate CachedOnLog(p: Proc) {
    p.cached <= |p.scratch| && p.log != []
    && p.log[|p.log| - 1] == CacheWrite(p.scratch[..p.cached], p.startTime)
  }

  predicate Inv(p: Proc) {
    && WellFormed(p)
    && (p.tx.buffer.Some? ==> p.tx.buffer.value == p.scratch)
    && (!p.tx.state.WaitingForInitialWrite? || p.pending ==> p.timer)
    && (!p.pending && (p.tx.state.WaitingForInitialWrite? || p.tx.state.ReadingRequest?) ==> p.tx.buffer.Some?)
    && (p.pending ==> Protected(p.tx) && CachedOnLog(p))
  }

  /** Nothing but the answer has changed. */
  predicate SameProcedure(p: Proc, r: Proc) {
    && r.characteristic == p.characteristic && r.timer == p.timer && r.pending == p.pending && r.lost == p.lost
    && r.startedSecured == p.startedSecured && r.log == p.log && |r.scratch| == |p.scratch|
  }

  /** The procedure goes on as it was started. */
  predicate SameStart(p: Proc, r: Proc) {
    r.timer == p.timer && r.startedSecured == p.startedSecured && |r.scratch| == |p.scratch|
  }

  function Respond(p: Proc, status: byte, body: Option<nat>): (r: Proc)
    requires WellFormed(p) && p.tx.state.HandlingRequest?
    requires body.Some? ==> body.value <= T.Min(|p.scratch|, UINT16_MAX)
    ensures WellFormed(r) && SameProcedure(p, r)
  {
    p.(tx := T.SetResponse(p.tx, status, if body.None? then None else Some(p.scratch[..body.value])))
  }

  /** The scratch buffer is overwritten; the transaction still refers to it if it did before. */
  function Scribble(p: Proc, scratch: seq<byte>): Proc {
    p.(scratch := scratch, tx := p.tx.(buffer := if p.tx.buffer.None? then None else Some(scratch)))
  }

  function DispatchRead(p: Proc, i: ReadInput, returnResponse: bool): (r: (Proc, T.Outcome))
    requires WellFormed(p) && p.tx.state.HandlingRequest? && Fits(p, i)
    ensures WellFormed(r.0) && SameProcedure(p, r.0)
  {
    if p.pending then (p, T.Failed(InvalidState))
    else
      var refusal := RefuseRead(p.characteristic, i.session);
      if refusal.Some? then (Respond(p, refusal.value, None), T.Done)
      else
        var q := Scribble(p, i.app.scratchAfter);
        if i.app.readBody.None? then (Respond(q, INVALID_REQUEST, None), T.Done)
        else (Respond(q, SUCCESS, if returnResponse then i.app.readBody else None), T.Done)
  }

  function WriteStatus(e: Error): byte {
    if e == NotAuthorized then INSUFFICIENT_AUTHORIZATION else INVALID_REQUEST
  }

  /** The call of the write handler, if it is called. */
  function Handled(parse: Parser, c: Characteristic, opcode: byte, body: seq<byte>, room: nat, start: Option<nat>,
                   now: nat, app: Application): seq<Observation>
  {
    if CallsHandler(parse, body, room, start, now, app) then
      [CallHandler(c.requiresTimedWrite, opcode, body, parse(body).value.value, now)]
    else []
  }

  /** What parsing and the handler leave behind. */
  function Wrote(parse: Parser, p: Proc, i: ReadInput, opcode: byte, body: seq<byte>, start: Option<nat>): (q: Proc)
    requires WellFormed(p) && Fits(p, i) && |body| <= |p.scratch|
    ensures WellFormed(q) && SameStart(p, q)
  {
    Scribble(p, i.app.scratchAfter).(
      log := p.log + Handled(parse, p.characteristic, opcode, body, |p.scratch| - |body|, start, i.now, i.app))
  }

  /** The read handler follows where the characteristic or the controller asks for a response. */
  function AnswerWrite(p: Proc, i: ReadInput, w: WriteResult): (r: (Proc, T.Outcome))
    requires WellFormed(p) && p.tx.state.HandlingRequest? && Fits(p, i)
    ensures WellFormed(r.0) && SameProcedure(p.(lost := r.0.lost), r.0) && (r.0.lost <==> p.lost || w == Misplaced)
  {
    match w
    case Misplaced => (p.(lost := true), T.Undetermined)
    case Rejected(e) => (Respond(p, WriteStatus(e), None), T.Done)
    case Expired => (Respond(p, UNSUPPORTED_PDU, None), T.Done)
    case Written(returnResponse) =>
      if !returnResponse && !p.characteristic.supportsWriteResponse then (Respond(p, SUCCESS, None), T.Done)
      else DispatchRead(p, i, returnResponse)
  }

  /** `body` is the body at the start of the scratch buffer, `start` the time of the timed write being executed. */
  function DispatchWrite(parse: Parser, p: Proc, i: ReadInput, opcode: byte, body: seq<byte>, start: Option<nat>)
    : (r: (Proc, T.Outcome))
    requires WellFormed(p) && p.tx.state.HandlingRequest? && Fits(p, i) && |body| <= |p.scratch|
    ensures WellFormed(r.0) && SameStart(p, r.0)
  {
    if p.pending then (p, T.Failed(InvalidState))
    else
      var refusal := RefuseWrite(p.characteristic, i.session, opcode);
      if refusal.Some? then (Respond(p, refusal.value, None), T.Done)
      else
        AnswerWrite(Wrote(parse, p, i, opcode, body, start), i,
                    ParseAndWrite(parse, body, |p.scratch| - |body|, start, i.now, i.app))
  }

  /** The operations of one transaction that a pending timed write merely excludes. */
  function DispatchOther(p: Proc, i: ReadInput): (r: (Proc, T.Outcome))
    requires WellFormed(p) && p.tx.state.HandlingRequest? && Fits(p, i)
    ensures WellFormed(r.0) && SameProcedure(p, r.0)
  {
    if p.pending then (p, T.Failed(InvalidState))
    else (Respond(Scribble(p, i.app.scratchAfter), i.app.otherStatus, i.app.otherBody), T.Done)
  }

  function DispatchTimedWrite(p: Proc, i: ReadInput, body: seq<byte>): (r: (Proc, T.Outcome))
    requires WellFormed(p) && p.tx.state.HandlingRequest? && |body| <= |p.scratch|
    ensures WellFormed(r.0) && SameStart(p, r.0)
  {
    if p.pending then (p, T.Failed(InvalidState))
    else if i.session.isTransient then (Respond(p, UNSUPPORTED_PDU, None), T.Done)
    else
      (Respond(p.(pending := true, cached := |body|, startTime := i.now, log := p.log + [CacheWrite(body, i.now)]),
               SUCCESS, None), T.Done)
  }

  function DispatchExecuteWrite(parse: Parser, p: Proc, i: ReadInput): (r: (Proc, T.Outcome))
    requires WellFormed(p) && p.tx.state.HandlingRequest? && Fits(p, i)
    ensures WellFormed(r.0) && SameStart(p, r.0)
  {
    if !p.pending then (p, T.Failed(InvalidState))
    else if i.session.isTransient then (p, T.AssertionFailed)
    else
      DispatchWrite(parse, p.(pending := false), i, CHARACTERISTIC_EXECUTE_WRITE,
                    p.scratch[..p.cached], Some(p.startTime))
  }

  function Dispatch(parse: Parser, p: Proc, i: ReadInput, opcode: byte, body: seq<byte>): (r: (Proc, T.Outcome))
    requires WellFormed(p) && p.tx.state.HandlingRequest? && Fits(p, i) && |body| <= |p.scratch|
    ensures WellFormed(r.0) && SameStart(p, r.0)
  {
    if opcode == CHARACTERISTIC_TIMED_WRITE then DispatchTimedWrite(p, i, body)
    else if opcode == CHARACTERISTIC_EXECUTE_WRITE then DispatchExecuteWrite(parse, p, i)
    else if opcode == CHARACTERISTIC_WRITE then DispatchWrite(parse, p, i, CHARACTERISTIC_WRITE, body, None)
    else if opcode == CHARACTERISTIC_READ then DispatchRead(p, i, true)
    else DispatchOther(p, i)
  }

  function ProcessTransaction(parse: Parser, p: Proc, i: ReadInput): (r: (Proc, T.Outcome))
    requires WellFormed(p) && T.IsRequestAvailable(p.tx) && Fits(p, i)
    ensures WellFormed(r.0) && SameStart(p, r.0)
  {
    var (tx, request) := T.GetRequest(p.tx);
    var q := p.(tx := tx);
    if request.Err? then (Respond(q, INVALID_REQUEST, None), T.Done)
    else if !IsValidOpcode(tx.opcode) then (Respond(q, UNSUPPORTED_PDU, None), T.Done)
    else if tx.opcode != SERVICE_SIGNATURE_READ
            && tx.iid != (if IsServiceOperation(tx.opcode) then p.characteristic.serviceIID else p.characteristic.iid)
    then (Respond(q, INVALID_INSTANCE_ID, None), T.Done)
    else Dispatch(parse, q, i, tx.opcode, request.value)
  }

  /** A pending timed write keeps the scratch buffer from being reused for the next request. */
  function CompleteTransaction(p: Proc): Proc {
    if p.pending then p.(tx := T.Create(None))
    else p.(timer := false, tx := T.Create(Some(p.scratch)))
  }

  // ------------------------------------------------------------------ GATT entry points

  /** `plaintext` is the decrypted fragment (None: decryption fails). */
  datatype WriteInput = WriteInput(bytes: seq<byte>, plaintext: Option<seq<byte>>, session: Session,
                                   timerAvailable: bool)

  function SyncScratch(p: Proc, tx: T.Tx): Proc {
    p.(tx := tx, scratch := if tx.buffer.Some? then tx.buffer.value else p.scratch)
  }

  function HandleGattWrite(p: Proc, i: WriteInput): (r: (Proc, T.Outcome))
    requires WellFormed(p)
    ensures WellFormed(r.0)
  {
    if i.session.terminal then (p, T.Failed(InvalidState))
    else if !p.timer && i.session.terminalSoon then (p, T.Failed(InvalidState))
    else
      var drops := !p.timer && i.session.secured && p.characteristic.dropsSecuritySession;
      var p1 := if drops then Reset(p) else p;
      var p2 := if p.timer then p1 else p1.(startedSecured := i.session.secured && !drops);
      if !p.timer && !i.timerAvailable then (p2, T.Failed(OutOfResources))
      else
        var p3 := p2.(timer := true);
        if p3.startedSecured && (|i.bytes| < TAG_BYTES || i.plaintext.None?) then (p3, T.Failed(InvalidData))
        else
          var (tx, outcome) := T.HandleWrite(p3.tx, if p3.startedSecured then i.plaintext.value else i.bytes);
          (SyncScratch(p3, tx), outcome)
  }

  /**
    The next response fragment; after the last one the transaction is complete. Unless a timed write
    is pending, an assertion demands that the timer still runs then.
  */
  function SendFragment(p: Proc, i: ReadInput, maxBytes: nat): (r: (Proc, T.ReadOutcome))
    requires WellFormed(p)
    ensures WellFormed(r.0) && SameProcedure(p.(timer := r.0.timer), r.0)
  {
    var (tx, fragment) := T.HandleRead(p.tx, maxBytes);
    var q := p.(tx := tx);
    if !fragment.Frame? then (q, fragment)
    else if q.startedSecured && !i.encryptOk then (q, T.ReadFailed(InvalidState))
    else if fragment.isFinal && !q.pending && !q.timer then (q, T.ReadAsserts)
    else (if fragment.isFinal then CompleteTransaction(q) else q, fragment)
  }

  /** What fits into a fragment besides its tag. */
  function ReadCapacity(p: Proc, i: ReadInput): nat
    requires p.startedSecured ==> i.maxBytes >= TAG_BYTES
  {
    if p.startedSecured then i.maxBytes - TAG_BYTES else i.maxBytes
  }

  /** Processes a request that has arrived completely. */
  function Processed(parse: Parser, p: Proc, i: ReadInput): (r: (Proc, T.Outcome))
    requires WellFormed(p) && Fits(p, i)
    ensures WellFormed(r.0) && SameStart(p, r.0)
  {
    if T.IsRequestAvailable(p.tx) then ProcessTransaction(parse, p, i) else (p, T.Done)
  }

  function FinishRead(d: (Proc, T.Outcome), i: ReadInput, maxBytes: nat): (r: (Proc, T.ReadOutcome))
    requires WellFormed(d.0)
    ensures WellFormed(r.0) && SameProcedure(d.0.(timer := r.0.timer), r.0)
  {
    match d.1
    case Failed(e) => (d.0, T.ReadFailed(e))
    case AssertionFailed => (d.0, T.ReadAsserts)
    case Undetermined => (d.0, T.ReadUndetermined)
    case Done => SendFragment(d.0, i, maxBytes)
  }

  function HandleGattRead(parse: Parser, p: Proc, i: ReadInput): (r: (Proc, T.ReadOutcome))
    requires WellFormed(p) && Fits(p, i)
    ensures WellFormed(r.0) && |r.0.scratch| == |p.scratch|
  {
    if i.session.terminal then (p, T.ReadFailed(InvalidState))
    else if p.startedSecured && i.maxBytes < TAG_BYTES then (p, T.ReadFailed(OutOfResources))
    else FinishRead(Processed(parse, p, i), i, ReadCapacity(p, i))
  }

  // ------------------------------------------------------------------ runs

  /** A step of the peripheral: `AttachTo` moves the procedure to another characteristic. */
  datatype Step = GattWrite(w: WriteInput) | GattRead(r: ReadInput) | TimerExpires
                | AttachTo(c: Characteristic, scratch: seq<byte>)

  predicate Enabled(p: Proc, s: Step) {
    && !p.lost
    && match s
       case GattWrite(_) => true
       case GattRead(i) => Fits(p, i)
       case TimerExpires => p.timer
       case AttachTo(_, _) => true
  }

  function Next(parse: Parser, p: Proc, s: Step): (r: Proc)
    requires WellFormed(p) && Enabled(p, s)
    ensures WellFormed(r)
  {
    match s
    case GattWrite(w) => HandleGattWrite(p, w).0
    case GattRead(i) => HandleGattRead(parse, p, i).0
    case TimerExpires => Reset(p)
    case AttachTo(c, scratch) => Attach(c, scratch, p.log)
  }

  function Run(parse: Parser, p: Proc, steps: seq<Step>): Proc
    requires WellFormed(p) && Possible(parse, p, steps)
    decreases |steps|
  {
    if steps == [] then p else Run(parse, Next(parse, p, steps[0]), steps[1..])
  }

  predicate Possible(parse: Parser, p: Proc, steps: seq<Step>)
    requires WellFormed(p)
    decreases |steps|
  {
    steps == [] || (Enabled(p, steps[0]) && Possible(parse, Next(parse, p, steps[0]), steps[1..]))
  }

  /**
    The order on the application's write handler: for a characteristic that requires timed writes
    it runs only for an execute write; an execute write runs it on exactly the body cached by the
    timed write immediately before (so at most once per timed write), within its time to live.
  */
  predicate WellTimed(parse: Parser, log: seq<Observation>) {
    forall i :: 0 <= i < |log| && log[i].CallHandler? ==> WellTimedAt(parse, log, i)
  }

  predicate WellTimedAt(parse: Parser, log: seq<Observation>, i: nat)
    requires i < |log| && log[i].CallHandler?
  {
    && (log[i].requiresTimedWrite ==> log[i].opcode == CHARACTERISTIC_EXECUTE_WRITE)
    && (log[i].opcode == CHARACTERISTIC_EXECUTE_WRITE ==> i > 0 && Executes(parse, log[i - 1], log[i]))
  }

  predicate Executes(parse: Parser, c: Observation, e: Observation)
    requires e.CallHandler?
  {
    && c.CacheWrite? && c.body == e.body
    && parse(e.body).Some? && parse(e.body).value.value == e.value && parse(e.body).value.ttl != 0
    && e.now <= c.start + 100 * parse(e.body).value.ttl
  }
}
