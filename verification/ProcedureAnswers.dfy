/** What the controller reads in answer to each kind of request, on the wire. */
module ProcedureAnswers {
  import opened Base
  import opened Pdu
  import opened Procedure
  import opened ProcedureProperties
  import opened TimedWrite
  import T = Transaction

  /** A procedure that holds a complete request, and a read with enough room for its answer. */
  predicate Asked(p: Proc, i: ReadInput, opcode: byte, tid: byte, iid: u16, body: seq<byte>) {
    HoldsRequest(p, opcode, tid, iid, body) && p.timer && !p.lost && Roomy(p, i) && |body| <= |p.scratch|
  }

  /** The answer is a status without body, and nothing has been handled or cached. */
  predicate AnswersStatus(parse: Parser, p: Proc, i: ReadInput, tid: byte, status: byte)
    requires WellFormed(p) && Fits(p, i)
  {
    var (q, r) := HandleGattRead(parse, p, i);
    r == T.Frame(Encode(ResponsePDU(tid, status, NO_BODY)), true) && q.log == p.log && q.pending == p.pending
  }

  /** The request is taken and a status set. */
  lemma StatusAnswered(parse: Parser, p: Proc, i: ReadInput, tid: byte, status: byte)
    requires WellFormed(p) && T.IsRequestAvailable(p.tx) && p.tx.tid == tid && p.timer && !p.lost && Roomy(p, i)
    requires ProcessTransaction(parse, p, i)
             == (Respond(p.(tx := T.GetRequest(p.tx).0), status, None), T.Done)
    ensures AnswersStatus(parse, p, i, tid, status)
  {
    ReadFinishes(parse, p, i);
    EmptyResponse(Respond(p.(tx := T.GetRequest(p.tx).0), status, None).tx, ReadCapacity(p, i));
  }

  // ------------------------------------------------------------------ requests that are not dispatched

  /** An operation that does not exist, an instance ID that is not the one addressed, a body without room. */
  lemma MisaddressedAnswered(parse: Parser, p: Proc, i: ReadInput, tid: byte)
    requires WellFormed(p) && T.IsRequestAvailable(p.tx) && p.tx.tid == tid && p.timer && !p.lost && Roomy(p, i)
    ensures T.GetRequest(p.tx).1.Err? ==> AnswersStatus(parse, p, i, tid, INVALID_REQUEST)
    ensures T.GetRequest(p.tx).1.Ok? && !IsValidOpcode(p.tx.opcode) ==> AnswersStatus(parse, p, i, tid, UNSUPPORTED_PDU)
    ensures && T.GetRequest(p.tx).1.Ok? && IsValidOpcode(p.tx.opcode) && p.tx.opcode != SERVICE_SIGNATURE_READ
            && p.tx.iid != (if p.tx.opcode == PROTOCOL_CONFIGURATION then p.characteristic.serviceIID
                            else p.characteristic.iid)
            ==> AnswersStatus(parse, p, i, tid, INVALID_INSTANCE_ID)
  {
    if T.GetRequest(p.tx).1.Err? {
      StatusAnswered(parse, p, i, tid, INVALID_REQUEST);
    } else if !IsValidOpcode(p.tx.opcode) {
      StatusAnswered(parse, p, i, tid, UNSUPPORTED_PDU);
    } else if p.tx.opcode != SERVICE_SIGNATURE_READ
              && p.tx.iid != if p.tx.opcode == PROTOCOL_CONFIGURATION then p.characteristic.serviceIID
                             else p.characteristic.iid {
      StatusAnswered(parse, p, i, tid, INVALID_INSTANCE_ID);
    }
  }

  // ------------------------------------------------------------------ reads

  /** Being an admin, in this session or a secured one, would help. */
  predicate MayReadAuthenticated(c: Characteristic, s: Session) {
    MayRead(c, s.(isAdmin := true)) || MayRead(c, s.(secured := true, isAdmin := true))
  }

  /** A read that is not permitted: the controller is told to authenticate exactly where that helps. */
  function ReadRefusal(c: Characteristic, s: Session): byte {
    if MayReadAuthenticated(c, s) then INSUFFICIENT_AUTHENTICATION else UNSUPPORTED_PDU
  }

  lemma ReadRefused(c: Characteristic, s: Session)
    ensures RefuseRead(c, s) == if MayRead(c, s) then None else Some(ReadRefusal(c, s))
  {
  }

  /** The value, or a status that says why not. */
  function ReadAnswer(c: Characteristic, i: ReadInput): Answer {
    if !MayRead(c, i.session) then Status(ReadRefusal(c, i.session))
    else if i.app.readBody.None? then Status(INVALID_REQUEST)
    else Value(i.app.readBody.value)
  }

  lemma ReadAnswerIs(c: Characteristic, i: ReadInput)
    ensures AnswerTo(c, i, Written(true)) == ReadAnswer(c, i)
  {
    ReadRefused(c, i.session);
  }

  /** A read of this characteristic is answered with the value, or says why not. */
  lemma ReadRequestAnswered(parse: Parser, p: Proc, i: ReadInput, tid: byte, body: seq<byte>)
    requires Asked(p, i, CHARACTERISTIC_READ, tid, p.characteristic.iid, body) && !p.pending
    ensures var (q, r) := HandleGattRead(parse, p, i);
            q.log == p.log && Answers(r, tid, ReadAnswer(p.characteristic, i), i.app.scratchAfter)
  {
    var q := p.(tx := T.GetRequest(p.tx).0);
    ReadDispatched(parse, p, i, tid, body);
    ReadFinishes(parse, p, i);
    ReadAnswered(q, i, ReadCapacity(p, i), true);
    ReadAnswerIs(p.characteristic, i);
    ReadLogsNothing(q, i, ReadCapacity(p, i));
  }

  lemma ReadDispatched(parse: Parser, p: Proc, i: ReadInput, tid: byte, body: seq<byte>)
    requires HoldsRequest(p, CHARACTERISTIC_READ, tid, p.characteristic.iid, body)
    requires Fits(p, i) && |body| <= |p.scratch|
    ensures ProcessTransaction(parse, p, i) == DispatchRead(p.(tx := T.GetRequest(p.tx).0), i, true)
  {
  }

  lemma ReadLogsNothing(q: Proc, i: ReadInput, maxBytes: nat)
    requires WellFormed(q) && q.tx.state.HandlingRequest? && Fits(q, i)
    ensures FinishRead(DispatchRead(q, i, true), i, maxBytes).0.log == q.log
  {
  }

  // ------------------------------------------------------------------ writes

  /** Apart from how it is written: an admin, in this session or a secured one, may write. */
  predicate MayWriteAuthenticated(c: Characteristic, s: Session) {
    || MayWrite(c, s.(isAdmin := true), CHARACTERISTIC_EXECUTE_WRITE)
    || MayWrite(c, s.(secured := true, isAdmin := true), CHARACTERISTIC_EXECUTE_WRITE)
  }

  /** A plain write where a timed one is required, a controller that should authenticate, or neither. */
  function WriteRefusal(c: Characteristic, s: Session): byte {
    if MayWrite(c, s, CHARACTERISTIC_EXECUTE_WRITE) then INVALID_REQUEST
    else if MayWriteAuthenticated(c, s) then INSUFFICIENT_AUTHENTICATION
    else UNSUPPORTED_PDU
  }

  lemma WriteRefused(c: Characteristic, s: Session, opcode: byte)
    ensures RefuseWrite(c, s, opcode) == if MayWrite(c, s, opcode) then None else Some(WriteRefusal(c, s))
  {
  }

  /** A write that is not permitted does not reach the handler, and says why not. */
  lemma ForbiddenWriteAnswered(parse: Parser, p: Proc, i: ReadInput, tid: byte, body: seq<byte>)
    requires Asked(p, i, CHARACTERISTIC_WRITE, tid, p.characteristic.iid, body) && !p.pending
    requires !MayWrite(p.characteristic, i.session, CHARACTERISTIC_WRITE)
    ensures AnswersStatus(parse, p, i, tid, WriteRefusal(p.characteristic, i.session))
  {
    WriteRefused(p.characteristic, i.session, CHARACTERISTIC_WRITE);
    StatusAnswered(parse, p, i, tid, WriteRefusal(p.characteristic, i.session));
  }

  /** Nor does a cached one, which is forgotten. */
  lemma ForbiddenExecuteAnswered(parse: Parser, p: Proc, i: ReadInput, tid: byte)
    requires HoldsRequest(p, CHARACTERISTIC_EXECUTE_WRITE, tid, p.characteristic.iid, [])
    requires p.pending && p.timer && !p.lost && Roomy(p, i) && !i.session.isTransient
    requires !MayWrite(p.characteristic, i.session, CHARACTERISTIC_EXECUTE_WRITE)
    ensures var (q, r) := HandleGattRead(parse, p, i);
            && r == T.Frame(Encode(ResponsePDU(tid, WriteRefusal(p.characteristic, i.session), NO_BODY)), true)
            && q.log == p.log && Idle(q)
  {
    var q := p.(tx := T.GetRequest(p.tx).0, pending := false);
    WriteRefused(p.characteristic, i.session, CHARACTERISTIC_EXECUTE_WRITE);
    assert ProcessTransaction(parse, p, i) == (Respond(q, WriteRefusal(p.characteristic, i.session), None), T.Done);
    ReadFinishes(parse, p, i);
    StatusSent(q, i, ReadCapacity(p, i), WriteRefusal(p.characteristic, i.session));
  }

  /** A transient session cannot make timed writes. */
  lemma TransientTimedWriteAnswered(parse: Parser, p: Proc, i: ReadInput, tid: byte, body: seq<byte>)
    requires Asked(p, i, CHARACTERISTIC_TIMED_WRITE, tid, p.characteristic.iid, body)
    requires !p.pending && i.session.isTransient
    ensures AnswersStatus(parse, p, i, tid, UNSUPPORTED_PDU)
  {
    StatusAnswered(parse, p, i, tid, UNSUPPORTED_PDU);
  }

  // ------------------------------------------------------------------ the order of timed writes

  /** The controller goes on with the pending timed write, which stays as it is, or loses its session. */
  predicate OutOfOrder(parse: Parser, p: Proc, i: ReadInput)
    requires WellFormed(p) && Fits(p, i) && T.IsRequestAvailable(p.tx)
  {
    HandleGattRead(parse, p, i) == (p.(tx := T.GetRequest(p.tx).0), T.ReadFailed(InvalidState))
  }

  /** While a timed write is pending every other operation is refused, and without one its execution is. */
  lemma OrderEnforced(parse: Parser, p: Proc, i: ReadInput, opcode: byte, tid: byte, iid: u16, body: seq<byte>)
    requires Asked(p, i, opcode, tid, iid, body) && IsValidOpcode(opcode)
    requires opcode == SERVICE_SIGNATURE_READ
             || iid == if opcode == PROTOCOL_CONFIGURATION then p.characteristic.serviceIID else p.characteristic.iid
    requires p.pending <==> opcode != CHARACTERISTIC_EXECUTE_WRITE
    ensures OutOfOrder(parse, p, i)
  {
    ReadFinishes(parse, p, i);
  }

  // ------------------------------------------------------------------ other operations

  /** The first fragment of a response with this status and body. */
  predicate Carries(p: Result<PDU>, tid: byte, status: byte, body: seq<byte>, isFinal: bool) {
    && p.Ok? && p.value.ResponsePDU? && p.value.tid == tid && p.value.status == status
    && p.value.body.total == |body| && p.value.body.bytes.Some? && p.value.body.bytes.value <= body
    && (isFinal <==> p.value.body.bytes.value == body)
  }

  lemma BodySent(t: T.Tx, maxBytes: nat)
    requires T.Valid(t) && t.state.WaitingForInitialRead? && t.response.Some? && maxBytes >= 5
    ensures var r := T.HandleRead(t, maxBytes).1;
            r.Frame? && Carries(ParseFirst(r.bytes), t.tid, t.status, t.response.value, r.isFinal)
  {
    var total: u16 := |t.response.value|;
    var n := T.Min(maxBytes - (3 + if total > 0 then 2 else 0), total);
    var p := ResponsePDU(t.tid, t.status, Body(total, Some(t.response.value[..n])));
    assert |Encode(p)| == 5 + n;
    FirstRoundTrip(p);
    assert T.HandleRead(t, maxBytes).1 == T.Frame(Encode(p), n == total);
  }

  /** The operations not modelled in detail are answered with what they produce. */
  lemma OtherAnswered(parse: Parser, p: Proc, i: ReadInput, opcode: byte, tid: byte, iid: u16, body: seq<byte>)
    requires Asked(p, i, opcode, tid, iid, body) && !p.pending && IsValidOpcode(opcode)
    requires opcode < CHARACTERISTIC_WRITE || opcode > CHARACTERISTIC_EXECUTE_WRITE
    requires opcode == SERVICE_SIGNATURE_READ
             || iid == if opcode == PROTOCOL_CONFIGURATION then p.characteristic.serviceIID else p.characteristic.iid
    ensures var (q, r) := HandleGattRead(parse, p, i);
            && q.log == p.log
            && if i.app.otherBody.None? then r == T.Frame(Encode(ResponsePDU(tid, i.app.otherStatus, NO_BODY)), true)
               else && r.Frame?
                    && Carries(ParseFirst(r.bytes), tid, i.app.otherStatus,
                               i.app.scratchAfter[..i.app.otherBody.value], r.isFinal)
  {
    var q := Scribble(p.(tx := T.GetRequest(p.tx).0), i.app.scratchAfter);
    var d := Respond(q, i.app.otherStatus, i.app.otherBody);
    assert ProcessTransaction(parse, p, i) == (d, T.Done);
    ReadFinishes(parse, p, i);
    if i.app.otherBody.None? {
      EmptyResponse(d.tx, ReadCapacity(p, i));
    } else {
      BodySent(d.tx, ReadCapacity(p, i));
    }
  }

  // ------------------------------------------------------------------ whole responses

  predicate AllFit(p: Proc, inputs: seq<ReadInput>) {
    forall k :: 0 <= k < |inputs| ==> Fits(p, inputs[k])
  }

  lemma RestFits(p: Proc, q: Proc, inputs: seq<ReadInput>)
    requires inputs != [] && AllFit(p, inputs) && |q.scratch| == |p.scratch|
    ensures AllFit(q, inputs[1..])
  {
  }

  /** One GATT read after another, up to and including the final fragment. */
  function ReadAll(parse: Parser, p: Proc, inputs: seq<ReadInput>): (r: (seq<seq<byte>>, T.ReadOutcome, Proc))
    requires WellFormed(p) && inputs != [] && AllFit(p, inputs)
    decreases |inputs|
  {
    var (q, o) := HandleGattRead(parse, p, inputs[0]);
    if !o.Frame? then ([], o, q)
    else if o.isFinal || |inputs| == 1 then ([o.bytes], o, q)
    else
      RestFits(p, q, inputs);
      var (frames, last, end) := ReadAll(parse, q, inputs[1..]);
      ([o.bytes] + frames, last, end)
  }

  /** The capacities the transaction sees. */
  function Capacities(p: Proc, inputs: seq<ReadInput>): (c: seq<nat>)
    requires p.startedSecured ==> forall k :: 0 <= k < |inputs| ==> inputs[k].maxBytes >= TAG_BYTES
    ensures |c| == |inputs|
  {
    seq(|inputs|, k requires 0 <= k < |inputs| => ReadCapacity(p, inputs[k]))
  }

  predicate AllRoomy(p: Proc, inputs: seq<ReadInput>)
    ensures AllRoomy(p, inputs) ==> AllFit(p, inputs)
  {
    forall k :: 0 <= k < |inputs| ==> Roomy(p, inputs[k])
  }

  /** A response is being sent: what the next inputs deliver is what the transaction sends. */
  lemma {:induction false} FragmentsFollow(parse: Parser, p: Proc, inputs: seq<ReadInput>)
    requires WellFormed(p) && p.tx.state.WritingResponse? && p.timer && !p.pending && !p.lost
    requires inputs != [] && AllRoomy(p, inputs)
    ensures var r, t := ReadAll(parse, p, inputs), T.ReadAll(p.tx, Capacities(p, inputs));
            r.0 == t.1 && r.1 == t.2 && (r.1.Frame? && r.1.isFinal ==> Idle(r.2))
    decreases |inputs|
  {
    var (q, o) := HandleGattRead(parse, p, inputs[0]);
    var (tx, f) := T.HandleRead(p.tx, ReadCapacity(p, inputs[0]));
    assert o == f;
    if o.Frame? && !o.isFinal && |inputs| > 1 {
      assert q == p.(tx := tx);
      assert Capacities(q, inputs[1..]) == Capacities(p, inputs)[1..];
      FragmentsFollow(parse, q, inputs[1..]);
    }
  }

  /** Its first fragment. */
  lemma FirstFragmentSent(parse: Parser, p: Proc, i: ReadInput, d: Proc)
    requires WellFormed(p) && T.IsRequestAvailable(p.tx) && Roomy(p, i)
    requires WellFormed(d) && d.tx.state.WaitingForInitialRead? && d.timer && !d.pending && !d.lost
    requires ProcessTransaction(parse, p, i) == (d, T.Done) && d.startedSecured == p.startedSecured
    ensures var (q, o) := HandleGattRead(parse, p, i);
            var (tx, f) := T.HandleRead(d.tx, ReadCapacity(p, i));
            && o == f && (o.Frame? && o.isFinal ==> Idle(q)) && (o.Frame? && !o.isFinal ==> q == d.(tx := tx))
  {
    ReadFinishes(parse, p, i);
  }

  /**
    A permitted read, from the first fragment to the last: with enough inputs the controller puts
    together exactly the value the handler has produced, and the procedure is free again.
  */
  lemma ValueDelivered(parse: Parser, p: Proc, inputs: seq<ReadInput>, tid: byte, body: seq<byte>)
    requires inputs != [] && AllRoomy(p, inputs)
    requires Asked(p, inputs[0], CHARACTERISTIC_READ, tid, p.characteristic.iid, body) && !p.pending
    requires MayRead(p.characteristic, inputs[0].session)
    requires inputs[0].app.readBody.Some? && |inputs| > inputs[0].app.readBody.value
    ensures var (frames, last, q) := ReadAll(parse, p, inputs);
            var value := inputs[0].app.scratchAfter[..inputs[0].app.readBody.value];
            && last.Frame? && last.isFinal && frames != [] && Idle(q)
            && T.Collect(frames) == Ok(T.Collected(tid, SUCCESS, |value|, value))
  {
    var i := inputs[0];
    var q := Scribble(p.(tx := T.GetRequest(p.tx).0), i.app.scratchAfter);
    var d := Respond(q, SUCCESS, i.app.readBody);
    ValueSet(parse, p, i, tid, body);
    var capacities := Capacities(p, inputs);
    T.ResponseFinishes(d.tx, capacities);
    T.ResponseCollects(d.tx, capacities);
    ReadsFollow(parse, p, inputs, d);
    assert d.tx.response.value[..|d.tx.response.value|] == d.tx.response.value;
  }

  lemma ValueSet(parse: Parser, p: Proc, i: ReadInput, tid: byte, body: seq<byte>)
    requires Asked(p, i, CHARACTERISTIC_READ, tid, p.characteristic.iid, body) && !p.pending
    requires MayRead(p.characteristic, i.session) && i.app.readBody.Some?
    ensures var q := Scribble(p.(tx := T.GetRequest(p.tx).0), i.app.scratchAfter);
            ProcessTransaction(parse, p, i) == (Respond(q, SUCCESS, i.app.readBody), T.Done)
  {
    ReadRefused(p.characteristic, i.session);
    ReadDispatched(parse, p, i, tid, body);
  }

  lemma ReadsFollow(parse: Parser, p: Proc, inputs: seq<ReadInput>, d: Proc)
    requires inputs != [] && AllRoomy(p, inputs)
    requires WellFormed(p) && T.IsRequestAvailable(p.tx) && |d.scratch| == |p.scratch|
    requires WellFormed(d) && d.tx.state.WaitingForInitialRead? && d.timer && !d.pending && !d.lost
    requires ProcessTransaction(parse, p, inputs[0]) == (d, T.Done) && d.startedSecured == p.startedSecured
    ensures var r, t := ReadAll(parse, p, inputs), T.ReadAll(d.tx, Capacities(p, inputs));
            r.0 == t.1 && r.1 == t.2 && (r.1.Frame? && r.1.isFinal ==> Idle(r.2))
  {
    FirstFragmentSent(parse, p, inputs[0], d);
    var (q, o) := HandleGattRead(parse, p, inputs[0]);
    if o.Frame? && !o.isFinal && |inputs| > 1 {
      assert Capacities(q, inputs[1..]) == Capacities(p, inputs)[1..];
      FragmentsFollow(parse, q, inputs[1..]);
    }
  }

  /** No fragment exceeds what a read can take, with its tag in a secured session; only the last one takes less. */
  lemma FrameFits(parse: Parser, p: Proc, i: ReadInput)
    requires WellFormed(p) && Fits(p, i) && HandleGattRead(parse, p, i).1.Frame?
    ensures var o := HandleGattRead(parse, p, i).1;
            var numBytes := |o.bytes| + if p.startedSecured then TAG_BYTES else 0;
            numBytes <= i.maxBytes && (!o.isFinal && i.maxBytes >= 5 + TAG_BYTES ==> numBytes == i.maxBytes)
  {
    var d := Processed(parse, p, i).0;
    T.FragmentsAreFull(d.tx, ReadCapacity(p, i));
  }

  // ------------------------------------------------------------------ reads that get nothing

  /** A session that has ended, and a read without room for a tag. */
  lemma UnreadableRefused(parse: Parser, p: Proc, i: ReadInput)
    requires WellFormed(p) && Fits(p, i)
    ensures i.session.terminal ==> HandleGattRead(parse, p, i) == (p, T.ReadFailed(InvalidState))
    ensures !i.session.terminal && p.startedSecured && i.maxBytes < TAG_BYTES ==>
              HandleGattRead(parse, p, i) == (p, T.ReadFailed(OutOfResources))
  {
  }

  /** A response that cannot be encrypted, and a request that has not come in. */
  lemma NothingSent(parse: Parser, p: Proc, i: ReadInput)
    requires WellFormed(p) && Fits(p, i)
    requires || (p.startedSecured && !i.encryptOk)
             || p.tx.state.WaitingForInitialWrite? || (p.tx.state.ReadingRequest? && p.tx.offset < p.tx.total)
    ensures !HandleGattRead(parse, p, i).1.Frame?
  {
    if !i.session.terminal && (p.startedSecured ==> i.maxBytes >= TAG_BYTES) {
      NoFragment(Processed(parse, p, i).0, i, ReadCapacity(p, i));
    }
  }

  lemma NoFragment(d: Proc, i: ReadInput, maxBytes: nat)
    requires WellFormed(d)
    requires (d.startedSecured && !i.encryptOk) || d.tx.state.WaitingForInitialWrite? || d.tx.state.ReadingRequest?
    ensures !SendFragment(d, i, maxBytes).1.Frame?
  {
  }

  /** A timed write cannot have been cached by a transient session: its execution there fails an assertion. */
  lemma TransientExecuteAsserts(parse: Parser, p: Proc, i: ReadInput, tid: byte)
    requires HoldsRequest(p, CHARACTERISTIC_EXECUTE_WRITE, tid, p.characteristic.iid, [])
    requires p.pending && Roomy(p, i) && i.session.isTransient
    ensures HandleGattRead(parse, p, i).1 == T.ReadAsserts
  {
    ReadFinishes(parse, p, i);
  }

  // ------------------------------------------------------------------ fragments that are not collected

  /** A session about to end lets a procedure go on, but not begin; one that has ended neither. */
  lemma EndedSessionRefused(p: Proc, w: WriteInput)
    requires WellFormed(p) && (w.session.terminal || (w.session.terminalSoon && !p.timer))
    ensures HandleGattWrite(p, w) == (p, T.Failed(InvalidState))
  {
  }

  /** Encrypted from the first fragment to the last or not at all: what cannot be decrypted is not collected. */
  lemma UndecryptableRefused(p: Proc, w: WriteInput)
    requires WellFormed(p) && !w.session.terminal && (p.timer || (!w.session.terminalSoon && w.timerAvailable))
    requires if p.timer then p.startedSecured else w.session.secured && !p.characteristic.dropsSecuritySession
    requires |w.bytes| < TAG_BYTES || w.plaintext.None?
    ensures var (q, o) := HandleGattWrite(p, w);
            o == T.Failed(InvalidData) && q.tx == p.tx && q.scratch == p.scratch && q.timer && q.startedSecured
  {
  }

  /**
    A characteristic that drops the session starts its procedure afresh and in the clear, so that a
    plain frame of a secured session is collected as it is.
  */
  lemma DroppedSessionInTheClear(p: Proc, w: WriteInput, opcode: byte, tid: byte, iid: u16, body: seq<byte>)
    requires WellFormed(p) && !p.timer && !w.session.terminal && !w.session.terminalSoon && w.timerAvailable
    requires w.session.secured && p.characteristic.dropsSecuritySession
    requires |body| <= T.Min(|p.scratch|, UINT16_MAX) && w.bytes == T.FirstFrame(opcode, tid, iid, |body|, body)
    ensures var (q, o) := HandleGattWrite(p, w);
            o == T.Done && !q.startedSecured && q.timer && !q.pending && HoldsRequest(q, opcode, tid, iid, body)
  {
    T.RequestReassembles(Some(p.scratch), opcode, tid, iid, body, []);
    assert body + T.Concat([]) == body;
    assert [w.bytes] + [] == [w.bytes];
    assert T.WriteAll(T.Create(Some(p.scratch)), [w.bytes]) == T.HandleWrite(T.Create(Some(p.scratch)), w.bytes) by {
      T.WriteAllOne(T.Create(Some(p.scratch)), w.bytes);
    }
  }
}
