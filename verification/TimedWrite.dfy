/**
  A timed write from beginning to end, from the first fragment to the answer of the execute write.
  Together with the order proved for every run this says exactly when a timed write reaches the
  application, in terms of the request it contains and of the room its value needs.
*/
module TimedWrite {
  import opened Base
  import opened Pdu
  import opened Procedure
  import T = Transaction
  import W = WriteRequest

  const TAG: seq<byte> := [0, 0, 0, 0, 0, 0, 0, 0, 0, 0, 0, 0, 0, 0, 0, 0]

  /** A frame as it arrives, with its authentication tag in a secured session. */
  function WriteOf(frame: seq<byte>, s: Session): WriteInput {
    WriteInput(if s.secured then frame + TAG else frame, Some(frame), s, true)
  }

  function WriteAll(p: Proc, frames: seq<seq<byte>>, s: Session): (r: (Proc, T.Outcome))
    requires WellFormed(p)
    ensures WellFormed(r.0)
    decreases |frames|
  {
    if frames == [] then (p, T.Done)
    else
      var r := HandleGattWrite(p, WriteOf(frames[0], s));
      if r.1 != T.Done then r else WriteAll(r.0, frames[1..], s)
  }

  /** A session in which the controller may go on, and nothing is invalidated on the way. */
  predicate Continues(p: Proc, s: Session) {
    !s.terminal && !s.terminalSoon && !s.isTransient && !(s.secured && p.characteristic.dropsSecuritySession)
  }

  /** Once started, a procedure collects what its transaction collects. */
  lemma {:induction false} ProcedureCollects(p: Proc, frames: seq<seq<byte>>, s: Session)
    requires WellFormed(p) && p.timer && Continues(p, s) && p.startedSecured == s.secured
    requires p.tx.buffer.Some? ==> p.tx.buffer.value == p.scratch
    requires T.WriteAll(p.tx, frames).1 == T.Done
    ensures WriteAll(p, frames, s) == (SyncScratch(p, T.WriteAll(p.tx, frames).0), T.Done)
    decreases |frames|
  {
    if frames != [] {
      var w := T.HandleWrite(p.tx, frames[0]);
      assert HandleGattWrite(p, WriteOf(frames[0], s)) == (SyncScratch(p, w.0), T.Done);
      WriteAllKeepsBuffer(w.0, frames[1..]);
      ProcedureCollects(SyncScratch(p, w.0), frames[1..], s);
    }
  }

  /** The first write starts the procedure. */
  lemma FirstWriteStarts(p: Proc, frames: seq<seq<byte>>, s: Session)
    requires WellFormed(p) && !p.timer && Continues(p, s) && frames != []
    ensures WriteAll(p, frames, s) == WriteAll(p.(timer := true, startedSecured := s.secured), frames, s)
  {
    var q := p.(timer := true, startedSecured := s.secured);
    assert HandleGattWrite(p, WriteOf(frames[0], s)) == HandleGattWrite(q, WriteOf(frames[0], s));
  }

  /** A request in any fragmentation. */
  function Frames(opcode: byte, tid: byte, iid: u16, first: seq<byte>, pieces: seq<seq<byte>>): (f: seq<seq<byte>>)
    requires |first + T.Concat(pieces)| <= UINT16_MAX
    ensures f != []
  {
    var total: u16 := |first + T.Concat(pieces)|;
    [T.FirstFrame(opcode, tid, iid, total, first)] + T.ContinuationFrames(tid, total, pieces)
  }

  /** A procedure that holds a complete request with the body at the start of its scratch buffer. */
  predicate HoldsRequest(p: Proc, opcode: byte, tid: byte, iid: u16, body: seq<byte>) {
    && WellFormed(p) && T.IsRequestAvailable(p.tx)
    && p.tx.opcode == opcode && p.tx.tid == tid && p.tx.iid == iid
    && T.GetRequest(p.tx).1 == Ok(body)
  }

  lemma RequestCollected(p: Proc, s: Session, opcode: byte, tid: byte, iid: u16, first: seq<byte>,
                         pieces: seq<seq<byte>>)
    requires p == Attach(p.characteristic, p.scratch, p.log) && Continues(p, s)
    requires |first + T.Concat(pieces)| <= T.Min(|p.scratch|, UINT16_MAX)
    ensures var body := first + T.Concat(pieces);
            var (q, outcome) := WriteAll(p, Frames(opcode, tid, iid, first, pieces), s);
            && outcome == T.Done && HoldsRequest(q, opcode, tid, iid, body)
            && q == p.(timer := true, startedSecured := s.secured, tx := q.tx, scratch := q.scratch)
            && q.tx.buffer == Some(q.scratch) && |q.scratch| == |p.scratch| && body <= q.scratch
  {
    var body := first + T.Concat(pieces);
    var frames := Frames(opcode, tid, iid, first, pieces);
    var started := p.(timer := true, startedSecured := s.secured);
    T.RequestReassembles(Some(p.scratch), opcode, tid, iid, first, pieces);
    FirstWriteStarts(p, frames, s);
    ProcedureCollects(started, frames, s);
    WriteAllKeepsBuffer(p.tx, frames);
    var tx := T.WriteAll(p.tx, frames).0;
    assert T.GetRequest(tx).1 == Ok(body);
    assert body == tx.buffer.value[..tx.total];
  }

  lemma {:induction false} WriteAllKeepsBuffer(t: T.Tx, frames: seq<seq<byte>>)
    requires T.Valid(t)
    ensures T.WriteAll(t, frames).0.buffer.Some? == t.buffer.Some?
    ensures T.Capacity(T.WriteAll(t, frames).0) == T.Capacity(t)
    decreases |frames|
  {
    if frames != [] && T.HandleWrite(t, frames[0]).1 == T.Done {
      WriteAllKeepsBuffer(T.HandleWrite(t, frames[0]).0, frames[1..]);
    }
  }

  /** Room for a response header with the length of a body, and for the tag. */
  predicate Roomy(p: Proc, i: ReadInput) {
    !i.session.terminal && i.encryptOk && i.maxBytes >= 5 + TAG_BYTES && Fits(p, i)
  }

  /** Answering a timed write caches its body and frees the transaction for the next request. */
  lemma TimedWriteCached(parse: Parser, p: Proc, i: ReadInput, tid: byte, body: seq<byte>)
    requires HoldsRequest(p, CHARACTERISTIC_TIMED_WRITE, tid, p.characteristic.iid, body)
    requires !p.pending && Roomy(p, i) && !i.session.isTransient && |body| <= |p.scratch|
    ensures var (q, r) := HandleGattRead(parse, p, i);
            && r == T.Frame(Encode(ResponsePDU(tid, SUCCESS, NO_BODY)), true)
            && q == p.(tx := T.Create(None), pending := true, cached := |body|, startTime := i.now,
                       log := p.log + [CacheWrite(body, i.now)])
  {
    var (tx, request) := T.GetRequest(p.tx);
    var maxBytes := if p.startedSecured then i.maxBytes - TAG_BYTES else i.maxBytes;
    var q := p.(tx := tx);
    var (d, outcome) := DispatchTimedWrite(q, i, body);
    assert ProcessTransaction(parse, p, i) == (d, T.Done);
    EmptyResponse(d.tx, maxBytes);
    assert d.tx.tid == tid && d.tx.status == SUCCESS;
  }

  /** A response without body is a single, final fragment. */
  lemma EmptyResponse(t: T.Tx, maxBytes: nat)
    requires T.Valid(t) && t.state.WaitingForInitialRead? && t.response.None? && maxBytes >= 3
    ensures T.HandleRead(t, maxBytes)
            == (t.(state := T.WritingResponse), T.Frame(Encode(ResponsePDU(t.tid, t.status, NO_BODY)), true))
  {
    assert |Encode(ResponsePDU(t.tid, t.status, NO_BODY))| == 3;
  }

  function ExecuteFrame(tid: byte, iid: u16): seq<byte> {
    Encode(RequestPDU(CHARACTERISTIC_EXECUTE_WRITE, tid, iid, NO_BODY))
  }

  /** While a timed write is pending, an execute write without body is collected without a buffer. */
  lemma ExecuteCollected(p: Proc, s: Session, tid: byte)
    requires WellFormed(p) && p.timer && p.tx == T.Create(None) && Continues(p, s) && p.startedSecured == s.secured
    ensures var (q, outcome) := HandleGattWrite(p, WriteOf(ExecuteFrame(tid, p.characteristic.iid), s));
            && outcome == T.Done && q == p.(tx := q.tx)
            && HoldsRequest(q, CHARACTERISTIC_EXECUTE_WRITE, tid, p.characteristic.iid, [])
  {
    FirstRoundTrip(RequestPDU(CHARACTERISTIC_EXECUTE_WRITE, tid, p.characteristic.iid, NO_BODY));
  }

  // ------------------------------------------------------------------ what the handler needs

  /** The parser of a procedure reads `body` as `r`. */
  predicate Reads(parse: Parser, body: seq<byte>, r: Result<W.Request>) {
    parse(body) == W.Parameters(r)
  }

  /** The request is well-formed, has room behind it, and its value is acceptable. */
  predicate Usable(r: Result<W.Request>, room: nat, app: Application) {
    r.Ok? && W.NeededBytes(r.value) <= room && |r.value.value| <= MAX_VALUE_BYTES && app.formatOk
  }

  /** A timed write needs a time to live, and has to be executed within it. */
  predicate InTime(r: Result<W.Request>, start: Option<nat>, now: nat) {
    r.Ok? && (start.Some? ==> r.value.ttl != 0 && now <= start.value + 100 * r.value.ttl)
  }

  /** One of the moves leaves the buffer. */
  predicate NoRoom(r: Result<W.Request>, room: nat) {
    r.Ok? && W.NeededBytes(r.value) > room
  }

  /** The call of the write handler, if it is called. */
  function Call(c: Characteristic, opcode: byte, body: seq<byte>, r: Result<W.Request>, room: nat, start: Option<nat>,
                i: ReadInput): seq<Observation>
  {
    if Usable(r, room, i.app) && InTime(r, start, i.now) then
      [CallHandler(c.requiresTimedWrite, opcode, body, r.value.value, i.now)]
    else []
  }

  lemma HandlerCalled(parse: Parser, c: Characteristic, opcode: byte, body: seq<byte>, r: Result<W.Request>, room: nat,
                      start: Option<nat>, i: ReadInput)
    requires Reads(parse, body, r)
    ensures Handled(parse, c, opcode, body, room, start, i.now, i.app) == Call(c, opcode, body, r, room, start, i)
    ensures ParseAndWrite(parse, body, room, start, i.now, i.app) == ResultFor(r, room, start, i)
  {
  }

  /** The result of a write, read off the request. */
  function ResultFor(r: Result<W.Request>, room: nat, start: Option<nat>, i: ReadInput): WriteResult {
    if NoRoom(r, room) then Misplaced
    else if r.Ok? && start.Some? && r.value.ttl != 0 && !InTime(r, start, i.now) then Expired
    else if !Usable(r, room, i.app) || !InTime(r, start, i.now) then Rejected(InvalidData)
    else if i.app.writeError.Some? then Rejected(i.app.writeError.value)
    else Written(r.value.returnResponse)
  }

  // ------------------------------------------------------------------ the answer

  /** What the controller is told: a status alone, or with the first part of a body of `numBytes`. */
  datatype Answer = Nothing | Status(status: byte) | Value(numBytes: nat)

  function AnswerTo(c: Characteristic, i: ReadInput, w: WriteResult): Answer {
    match w
    case Misplaced => Nothing
    case Rejected(e) => Status(if e == NotAuthorized then INSUFFICIENT_AUTHORIZATION else INVALID_REQUEST)
    case Expired => Status(UNSUPPORTED_PDU)
    case Written(returnResponse) =>
      if !returnResponse && !c.supportsWriteResponse then Status(SUCCESS)
      else if RefuseRead(c, i.session).Some? then Status(RefuseRead(c, i.session).value)
      else if i.app.readBody.None? then Status(INVALID_REQUEST)
      else if returnResponse then Value(i.app.readBody.value)
      else Status(SUCCESS)
  }

  /** The frame the controller reads; `value` is what the read handler has left in the scratch buffer. */
  predicate Answers(r: T.ReadOutcome, tid: byte, a: Answer, value: seq<byte>) {
    match a
    case Nothing => r == T.ReadUndetermined
    case Status(status) => r == T.Frame(Encode(ResponsePDU(tid, status, NO_BODY)), true)
    case Value(n) => r.Frame? && n <= |value| && CarriesValue(ParseFirst(r.bytes), tid, value[..n], r.isFinal)
  }

  predicate CarriesValue(p: Result<PDU>, tid: byte, value: seq<byte>, isFinal: bool) {
    && p.Ok? && p.value.ResponsePDU? && p.value.tid == tid && p.value.status == SUCCESS
    && p.value.body.total == |value| && p.value.body.bytes.Some? && p.value.body.bytes.value <= value
    && (isFinal <==> p.value.body.bytes.value == value)
  }

  /** The first fragment of a response with a body. */
  lemma ValueResponse(t: T.Tx, maxBytes: nat)
    requires T.Valid(t) && t.state.WaitingForInitialRead? && t.response.Some? && t.status == SUCCESS && maxBytes >= 5
    ensures var r := T.HandleRead(t, maxBytes).1;
            r.Frame? && CarriesValue(ParseFirst(r.bytes), t.tid, t.response.value, r.isFinal)
  {
    var total: u16 := |t.response.value|;
    var n := T.Min(maxBytes - (3 + if total > 0 then 2 else 0), total);
    var p := ResponsePDU(t.tid, SUCCESS, Body(total, Some(t.response.value[..n])));
    assert |Encode(p)| == 5 + n;
    FirstRoundTrip(p);
    assert T.HandleRead(t, maxBytes).1 == T.Frame(Encode(p), n == total);
  }

  /** A procedure ready for the next request. */
  predicate Idle(p: Proc) {
    p == Attach(p.characteristic, p.scratch, p.log).(
           cached := p.cached, startTime := p.startTime, startedSecured := p.startedSecured)
  }

  lemma StatusSent(p: Proc, i: ReadInput, maxBytes: nat, status: byte)
    requires WellFormed(p) && p.tx.state.HandlingRequest? && p.timer && !p.pending && !p.lost && i.encryptOk
    requires maxBytes >= 5
    ensures var (q, r) := FinishRead((Respond(p, status, None), T.Done), i, maxBytes);
            r == T.Frame(Encode(ResponsePDU(p.tx.tid, status, NO_BODY)), true) && Idle(q)
  {
    EmptyResponse(Respond(p, status, None).tx, maxBytes);
  }

  lemma ValueSent(p: Proc, i: ReadInput, maxBytes: nat, n: nat)
    requires WellFormed(p) && p.tx.state.HandlingRequest? && p.timer && !p.pending && !p.lost && i.encryptOk
    requires maxBytes >= 5
    requires n <= T.Min(|p.scratch|, UINT16_MAX)
    ensures var (q, r) := FinishRead((Respond(p, SUCCESS, Some(n)), T.Done), i, maxBytes);
            && r.Frame? && CarriesValue(ParseFirst(r.bytes), p.tx.tid, p.scratch[..n], r.isFinal)
            && (r.isFinal ==> Idle(q))
  {
    ValueResponse(Respond(p, SUCCESS, Some(n)).tx, maxBytes);
  }

  /** The result of a write, as the controller learns it. */
  lemma WriteAnswered(p: Proc, i: ReadInput, maxBytes: nat, w: WriteResult)
    requires WellFormed(p) && p.tx.state.HandlingRequest? && p.timer && !p.pending && !p.lost && i.encryptOk
    requires maxBytes >= 5
    requires Fits(p, i)
    ensures var (q, r) := FinishRead(AnswerWrite(p, i, w), i, maxBytes);
            && Answers(r, p.tx.tid, AnswerTo(p.characteristic, i, w), i.app.scratchAfter)
            && q.log == p.log && q.lost == (w == Misplaced) && (r.Frame? && r.isFinal ==> Idle(q))
  {
    match w
    case Misplaced =>
    case Rejected(e) => StatusSent(p, i, maxBytes, WriteStatus(e));
    case Expired => StatusSent(p, i, maxBytes, UNSUPPORTED_PDU);
    case Written(returnResponse) =>
      if !returnResponse && !p.characteristic.supportsWriteResponse {
        StatusSent(p, i, maxBytes, SUCCESS);
      } else {
        ReadAnswered(p, i, maxBytes, returnResponse);
      }
  }

  lemma ReadAnswered(p: Proc, i: ReadInput, maxBytes: nat, returnResponse: bool)
    requires WellFormed(p) && p.tx.state.HandlingRequest? && p.timer && !p.pending && !p.lost && i.encryptOk
    requires maxBytes >= 5
    requires Fits(p, i) && (returnResponse || p.characteristic.supportsWriteResponse)
    ensures var (q, r) := FinishRead(DispatchRead(p, i, returnResponse), i, maxBytes);
            && Answers(r, p.tx.tid, AnswerTo(p.characteristic, i, Written(returnResponse)), i.app.scratchAfter)
            && (r.Frame? && r.isFinal ==> Idle(q))
  {
    var refusal := RefuseRead(p.characteristic, i.session);
    if refusal.Some? {
      StatusSent(p, i, maxBytes, refusal.value);
    } else {
      var q := Scribble(p, i.app.scratchAfter);
      if i.app.readBody.None? {
        StatusSent(q, i, maxBytes, INVALID_REQUEST);
      } else if returnResponse {
        ValueSent(q, i, maxBytes, i.app.readBody.value);
      } else {
        StatusSent(q, i, maxBytes, SUCCESS);
      }
    }
  }

  // ------------------------------------------------------------------ the execute write

  /** The result of executing what is cached. */
  function ResultOf(parse: Parser, p: Proc, i: ReadInput): WriteResult
    requires p.cached <= |p.scratch|
  {
    ParseAndWrite(parse, p.scratch[..p.cached], |p.scratch| - p.cached, Some(p.startTime), i.now, i.app)
  }

  /** What executing leaves behind, but for the answer. */
  function Executed(parse: Parser, p: Proc, i: ReadInput): Proc
    requires WellFormed(p) && T.IsRequestAvailable(p.tx) && Fits(p, i)
  {
    Wrote(parse, p.(tx := p.tx.(state := T.HandlingRequest), pending := false), i, CHARACTERISTIC_EXECUTE_WRITE,
          p.scratch[..p.cached], Some(p.startTime))
  }

  lemma ExecuteProcessed(parse: Parser, p: Proc, i: ReadInput, tid: byte)
    requires HoldsRequest(p, CHARACTERISTIC_EXECUTE_WRITE, tid, p.characteristic.iid, [])
    requires p.pending && Fits(p, i) && !i.session.isTransient
    requires RefuseWrite(p.characteristic, i.session, CHARACTERISTIC_EXECUTE_WRITE).None?
    ensures ProcessTransaction(parse, p, i) == AnswerWrite(Executed(parse, p, i), i, ResultOf(parse, p, i))
  {
  }

  lemma ReadFinishes(parse: Parser, p: Proc, i: ReadInput)
    requires WellFormed(p) && Roomy(p, i) && T.IsRequestAvailable(p.tx)
    ensures HandleGattRead(parse, p, i) == FinishRead(ProcessTransaction(parse, p, i), i, ReadCapacity(p, i))
  {
  }

  /** Executing passes the cached body on: the handler runs unless the write is invalid, misplaced or expired. */
  lemma CachedExecuted(parse: Parser, p: Proc, i: ReadInput, tid: byte)
    requires HoldsRequest(p, CHARACTERISTIC_EXECUTE_WRITE, tid, p.characteristic.iid, [])
    requires p.pending && p.timer && !p.lost && Roomy(p, i) && !i.session.isTransient
    requires RefuseWrite(p.characteristic, i.session, CHARACTERISTIC_EXECUTE_WRITE).None?
    ensures var (q, r) := HandleGattRead(parse, p, i);
            && q.log == p.log + Handled(parse, p.characteristic, CHARACTERISTIC_EXECUTE_WRITE, p.scratch[..p.cached],
                                        |p.scratch| - p.cached, Some(p.startTime), i.now, i.app)
            && Answers(r, tid, AnswerTo(p.characteristic, i, ResultOf(parse, p, i)), i.app.scratchAfter)
            && q.lost == (ResultOf(parse, p, i) == Misplaced) && (r.Frame? && r.isFinal ==> Idle(q))
  {
    ExecuteProcessed(parse, p, i, tid);
    ReadFinishes(parse, p, i);
    WriteAnswered(Executed(parse, p, i), i, ReadCapacity(p, i), ResultOf(parse, p, i));
  }

  /** A plain write is handled in the same way, with its own body and without a deadline. */
  lemma PlainWriteProcessed(parse: Parser, p: Proc, i: ReadInput, tid: byte, body: seq<byte>)
    requires HoldsRequest(p, CHARACTERISTIC_WRITE, tid, p.characteristic.iid, body)
    requires !p.pending && Fits(p, i) && |body| <= |p.scratch|
    requires RefuseWrite(p.characteristic, i.session, CHARACTERISTIC_WRITE).None?
    ensures var wrote := Wrote(parse, p.(tx := p.tx.(state := T.HandlingRequest)), i, CHARACTERISTIC_WRITE, body, None);
            ProcessTransaction(parse, p, i) ==
              AnswerWrite(wrote, i, ParseAndWrite(parse, body, |p.scratch| - |body|, None, i.now, i.app))
  {
  }

  lemma PlainWriteRead(parse: Parser, p: Proc, i: ReadInput, tid: byte, body: seq<byte>, r: Result<W.Request>)
    requires HoldsRequest(p, CHARACTERISTIC_WRITE, tid, p.characteristic.iid, body) && Reads(parse, body, r)
    requires !p.pending && p.timer && !p.lost && Roomy(p, i) && |body| <= |p.scratch| && p.log == []
    requires RefuseWrite(p.characteristic, i.session, CHARACTERISTIC_WRITE).None?
    ensures var room := |p.scratch| - |body|;
            var (done, answer) := HandleGattRead(parse, p, i);
            && done.log == Call(p.characteristic, CHARACTERISTIC_WRITE, body, r, room, None, i)
            && Answers(answer, tid, AnswerTo(p.characteristic, i, ResultFor(r, room, None, i)), i.app.scratchAfter)
            && (answer.Frame? && answer.isFinal ==> Idle(done))
  {
    var room := |p.scratch| - |body|;
    var wrote := Wrote(parse, p.(tx := p.tx.(state := T.HandlingRequest)), i, CHARACTERISTIC_WRITE, body, None);
    PlainWriteProcessed(parse, p, i, tid, body);
    ReadFinishes(parse, p, i);
    WriteAnswered(wrote, i, ReadCapacity(p, i), ParseAndWrite(parse, body, room, None, i.now, i.app));
    HandlerCalled(parse, p.characteristic, CHARACTERISTIC_WRITE, body, r, room, None, i);
    var call := Call(p.characteristic, CHARACTERISTIC_WRITE, body, r, room, None, i);
    assert [] + call == call;
  }

  // ------------------------------------------------------------------ the whole exchange

  /** A timed write with this body has been cached at this time, and its answer read. */
  predicate Pending(p: Proc, c: Characteristic, s: Session, body: seq<byte>, start: nat, log: seq<Observation>) {
    && p == Proc(c, T.Create(None), p.scratch, true, true, |body|, start, s.secured, false, log)
    && body <= p.scratch
  }

  /** In this fragmentation a timed write is accepted and answered with success, which leaves `q`. */
  predicate AcceptsTimedWrite(parse: Parser, c: Characteristic, scratch: seq<byte>, s: Session, tid: byte,
                              first: seq<byte>, pieces: seq<seq<byte>>, i: ReadInput, q: Proc)
    requires |first + T.Concat(pieces)| <= UINT16_MAX
  {
    var frames := Frames(CHARACTERISTIC_TIMED_WRITE, tid, c.iid, first, pieces);
    var (p, accepted) := WriteAll(Attach(c, scratch, []), frames, s);
    && accepted == T.Done && Fits(p, i)
    && HandleGattRead(parse, p, i) == (q, T.Frame(Encode(ResponsePDU(tid, SUCCESS, NO_BODY)), true))
  }

  lemma TimedWritePending(parse: Parser, c: Characteristic, scratch: seq<byte>, s: Session, tid: byte,
                          first: seq<byte>, pieces: seq<seq<byte>>, i: ReadInput)
    returns (q: Proc)
    requires Continues(Attach(c, scratch, []), s) && Roomy(Attach(c, scratch, []), i) && i.session == s
    requires |first + T.Concat(pieces)| <= T.Min(|scratch|, UINT16_MAX)
    ensures AcceptsTimedWrite(parse, c, scratch, s, tid, first, pieces, i, q)
    ensures var body := first + T.Concat(pieces);
            |q.scratch| == |scratch| && Pending(q, c, s, body, i.now, [CacheWrite(body, i.now)])
  {
    var body := first + T.Concat(pieces);
    var p := Attach(c, scratch, []);
    RequestCollected(p, s, CHARACTERISTIC_TIMED_WRITE, tid, c.iid, first, pieces);
    var p1 := WriteAll(p, Frames(CHARACTERISTIC_TIMED_WRITE, tid, c.iid, first, pieces), s).0;
    TimedWriteCached(parse, p1, i, tid, body);
    assert [] + [CacheWrite(body, i.now)] == [CacheWrite(body, i.now)];
    q := HandleGattRead(parse, p1, i).0;
  }

  /**
    The execute write that comes next is accepted. Reading its answer runs the handler on the value of
    the cached request `r`, or does not, and is the answer that belongs to the result.
  */
  predicate ExecutesPending(parse: Parser, p: Proc, c: Characteristic, s: Session, body: seq<byte>,
                            r: Result<W.Request>, room: nat, start: nat, log: seq<Observation>, tid: byte, j: ReadInput)
  {
    && WellFormed(p)
    && var (q, accepted) := HandleGattWrite(p, WriteOf(ExecuteFrame(tid, c.iid), s));
       && accepted == T.Done && Fits(q, j)
       && var (done, answer) := HandleGattRead(parse, q, j);
          && done.log == log + Call(c, CHARACTERISTIC_EXECUTE_WRITE, body, r, room, Some(start), j)
          && Answers(answer, tid, AnswerTo(c, j, ResultFor(r, room, Some(start), j)), j.app.scratchAfter)
          && (answer.Frame? && answer.isFinal ==> Idle(done))
  }

  lemma PendingExecuted(parse: Parser, p: Proc, c: Characteristic, s: Session, body: seq<byte>, r: Result<W.Request>,
                        start: nat, log: seq<Observation>, tid: byte, j: ReadInput)
    requires Pending(p, c, s, body, start, log) && Continues(p, s) && Roomy(p, j) && j.session == s
    requires Reads(parse, body, r)
    requires RefuseWrite(c, s, CHARACTERISTIC_EXECUTE_WRITE).None?
    ensures ExecutesPending(parse, p, c, s, body, r, |p.scratch| - |body|, start, log, tid, j)
  {
    ExecuteCollected(p, s, tid);
    var p3 := HandleGattWrite(p, WriteOf(ExecuteFrame(tid, c.iid), s)).0;
    assert p3.scratch[..p3.cached] == body;
    CachedExecuted(parse, p3, j, tid);
    HandlerCalled(parse, c, CHARACTERISTIC_EXECUTE_WRITE, body, r, |p.scratch| - |body|, Some(start), j);
  }

  /**
    The whole exchange. In any fragmentation a timed write is answered with success and cached; an
    execute write then runs the handler on its value exactly when its bytes are a request with a value
    and a time to live, the buffer takes that value a second time, and it comes in time. The controller
    reads the result.
  */
  lemma TimedWriteExecutes(parse: Parser, c: Characteristic, scratch: seq<byte>, s: Session, tid: byte, tid': byte,
                           first: seq<byte>, pieces: seq<seq<byte>>, r: Result<W.Request>, i: ReadInput, j: ReadInput)
    returns (q: Proc)
    requires var p := Attach(c, scratch, []);
             && Continues(p, s) && Roomy(p, i) && Roomy(p, j) && i.session == s == j.session
             && RefuseWrite(c, s, CHARACTERISTIC_EXECUTE_WRITE).None?
    requires |first + T.Concat(pieces)| <= T.Min(|scratch|, UINT16_MAX) && Reads(parse, first + T.Concat(pieces), r)
    ensures AcceptsTimedWrite(parse, c, scratch, s, tid, first, pieces, i, q)
    ensures var body := first + T.Concat(pieces);
            ExecutesPending(parse, q, c, s, body, r, |scratch| - |body|, i.now, [CacheWrite(body, i.now)], tid', j)
  {
    var body := first + T.Concat(pieces);
    q := TimedWritePending(parse, c, scratch, s, tid, first, pieces, i);
    PendingExecuted(parse, q, c, s, body, r, i.now, [CacheWrite(body, i.now)], tid', j);
  }

  /**
    If the execute write has an explicitly empty body instead of none, an assertion fails: there is
    no buffer to collect it in.
  */
  lemma EmptyExecuteBodyAsserts(parse: Parser, c: Characteristic, scratch: seq<byte>, s: Session, tid: byte, tid': byte,
                                first: seq<byte>, pieces: seq<seq<byte>>, i: ReadInput)
    returns (q: Proc)
    requires Continues(Attach(c, scratch, []), s) && Roomy(Attach(c, scratch, []), i) && i.session == s
    requires |first + T.Concat(pieces)| <= T.Min(|scratch|, UINT16_MAX)
    ensures AcceptsTimedWrite(parse, c, scratch, s, tid, first, pieces, i, q)
    ensures var frame := Encode(RequestPDU(CHARACTERISTIC_EXECUTE_WRITE, tid', c.iid, Body(0, Some([]))));
            HandleGattWrite(q, WriteOf(frame, s)).1 == T.AssertionFailed
  {
    q := TimedWritePending(parse, c, scratch, s, tid, first, pieces, i);
    T.NoBufferAssertsOnEmptyBody(RequestPDU(CHARACTERISTIC_EXECUTE_WRITE, tid', c.iid, Body(0, Some([]))));
  }

  // ------------------------------------------------------------------ plain writes

  /**
    In this fragmentation a plain write of `body`, the request `r`, is accepted. Reading its answer
    runs the handler on the value, or does not, and is the answer that belongs to the result.
  */
  predicate ExecutesPlain(parse: Parser, c: Characteristic, scratch: seq<byte>, s: Session, tid: byte, first: seq<byte>,
                          pieces: seq<seq<byte>>, body: seq<byte>, r: Result<W.Request>, room: nat, i: ReadInput)
    requires |first + T.Concat(pieces)| <= UINT16_MAX
  {
    var (p, accepted) := WriteAll(Attach(c, scratch, []), Frames(CHARACTERISTIC_WRITE, tid, c.iid, first, pieces), s);
    && accepted == T.Done && Fits(p, i)
    && var (done, answer) := HandleGattRead(parse, p, i);
       && done.log == Call(c, CHARACTERISTIC_WRITE, body, r, room, None, i)
       && Answers(answer, tid, AnswerTo(c, i, ResultFor(r, room, None, i)), i.app.scratchAfter)
       && (answer.Frame? && answer.isFinal ==> Idle(done))
  }

  /**
    A plain write reaches the handler exactly when its bytes are a request with a value and the buffer
    takes that value a second time.
  */
  lemma PlainWriteExecutes(parse: Parser, c: Characteristic, scratch: seq<byte>, s: Session, tid: byte,
                           first: seq<byte>, pieces: seq<seq<byte>>, r: Result<W.Request>, i: ReadInput)
    requires Continues(Attach(c, scratch, []), s) && Roomy(Attach(c, scratch, []), i) && i.session == s
    requires RefuseWrite(c, s, CHARACTERISTIC_WRITE).None?
    requires |first + T.Concat(pieces)| <= T.Min(|scratch|, UINT16_MAX) && Reads(parse, first + T.Concat(pieces), r)
    ensures var body := first + T.Concat(pieces);
            ExecutesPlain(parse, c, scratch, s, tid, first, pieces, body, r, |scratch| - |body|, i)
  {
    var body := first + T.Concat(pieces);
    RequestCollected(Attach(c, scratch, []), s, CHARACTERISTIC_WRITE, tid, c.iid, first, pieces);
    var p := WriteAll(Attach(c, scratch, []), Frames(CHARACTERISTIC_WRITE, tid, c.iid, first, pieces), s).0;
    PlainWriteRead(parse, p, i, tid, body, r);
  }
}
