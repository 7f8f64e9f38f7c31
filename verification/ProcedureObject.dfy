/** The code of a HAP-BLE procedure: one object that is attached, started, and reset in place. */
module ProcedureObject {
  import opened Base
  import opened Tlv
  import opened TransactionObject
  import P = Procedure
  import T = Transaction
  import W = WriteRequest

  const SIZE_MAX := 0xFFFF_FFFF_FFFF_FFFF

  class BleProcedure {
    const transaction: BleTransaction
    var characteristic: P.Characteristic
    var scratchBytes: array<byte>
    var procedureTimer: bool

    /** A timed write waits to be executed; its body are the first bytes of the scratch buffer. */
    var isTimedWritePending: bool
    var timedWriteBytes: nat
    var timedWriteStartTime: nat

    var startedSecured: bool

    /** What the application and the reader of this model get to see. */
    ghost var log: seq<P.Observation>

    /** A value or its authorization data has been moved out of the scratch buffer. */
    ghost var lost: bool

    ghost predicate Valid()
      reads this, transaction, transaction.bodyBytes, transaction.responseBytes, scratchBytes
    {
      && transaction.Valid()
      && (transaction.bodyBytes == null || transaction.bodyBytes == scratchBytes)
      && (transaction.responseBytes == null || transaction.responseBytes == scratchBytes)
      && timedWriteBytes <= scratchBytes.Length <= SIZE_MAX
    }

    /** How this characteristic's write requests are read. */
    ghost function Parser(): P.Parser
      reads this
    {
      W.AsParser(characteristic.supportsAuthorizationData)
    }

    ghost function Model(): P.Proc
      requires Valid()
      reads this, transaction, transaction.bodyBytes, transaction.responseBytes, scratchBytes
    {
      P.Proc(characteristic, transaction.Model(), scratchBytes[..], procedureTimer, isTimedWritePending,
             timedWriteBytes, timedWriteStartTime, startedSecured, lost, log)
    }

    constructor (characteristic: P.Characteristic, scratchBytes: array<byte>)
      requires scratchBytes.Length <= SIZE_MAX
      ensures Valid() && fresh(transaction) && this.scratchBytes == scratchBytes
      ensures Model() == P.Attach(characteristic, scratchBytes[..], [])
    {
      this.characteristic, this.scratchBytes := characteristic, scratchBytes;
      procedureTimer, isTimedWritePending, timedWriteBytes, timedWriteStartTime := false, false, 0, 0;
      startedSecured, log, lost := false, [], false;
      transaction := new BleTransaction(scratchBytes);
    }

    method Attach(characteristic: P.Characteristic, scratchBytes: array<byte>)
      requires Valid() && scratchBytes.Length <= SIZE_MAX
      modifies this, transaction
      ensures Valid() && this.scratchBytes == scratchBytes
      ensures Model() == P.Attach(characteristic, scratchBytes[..], old(log))
    {
      this.characteristic, this.scratchBytes := characteristic, scratchBytes;
      procedureTimer, isTimedWritePending, timedWriteBytes, timedWriteStartTime := false, false, 0, 0;
      startedSecured, lost := false, false;
      transaction.Create(scratchBytes);
    }

    method Reset()
      requires Valid()
      modifies this, transaction
      ensures Valid() && scratchBytes == old(scratchBytes) && Model() == P.Reset(old(Model()))
    {
      Attach(characteristic, scratchBytes);
    }

    /** Afterwards the session is invalidated. */
    method ProcedureTimerExpired()
      requires Valid() && procedureTimer
      modifies this, transaction
      ensures Valid() && scratchBytes == old(scratchBytes) && Model() == P.Reset(old(Model()))
    {
      procedureTimer := false;
      Reset();
    }

    // ---------------------------------------------------------------- responses

    /** `body` bytes at the start of the scratch buffer, or no body. */
    method SendResponse(status: byte, body: Option<nat>)
      requires Valid() && transaction.state.HandlingRequest?
      requires body.Some? ==> body.value <= T.Min(scratchBytes.Length, UINT16_MAX)
      modifies transaction
      ensures Valid() && Model() == P.Respond(old(Model()), status, body)
    {
      if body.None? {
        transaction.SetResponse(status, null, 0);
      } else {
        transaction.SetResponse(status, scratchBytes, body.value);
      }
    }

    /** Handlers and serializers use the scratch buffer as they like. */
    method UseScratch(after: seq<byte>)
      requires Valid() && transaction.state.HandlingRequest? && |after| == scratchBytes.Length
      modifies scratchBytes
      ensures Valid() && Model() == P.Scribble(old(Model()), after)
    {
      forall k | 0 <= k < |after| {
        scratchBytes[k] := after[k];
      }
      assert scratchBytes[..] == after;
    }

    // ---------------------------------------------------------------- dispatch

    method HandleRead(i: P.ReadInput, hasReturnResponse: bool) returns (r: T.Outcome)
      requires Valid() && transaction.state.HandlingRequest? && P.Fits(Model(), i)
      modifies transaction, scratchBytes
      ensures Valid() && (Model(), r) == P.DispatchRead(old(Model()), i, hasReturnResponse)
    {
      if isTimedWritePending {
        return T.Failed(InvalidState);
      }
      var refusal := CheckReadPermissions(i.session);
      if refusal.Some? {
        SendResponse(refusal.value, None);
        return T.Done;
      }
      UseScratch(i.app.scratchAfter);
      if i.app.readBody.None? {
        SendResponse(P.INVALID_REQUEST, None);
        return T.Done;
      }
      if hasReturnResponse {
        SendResponse(P.SUCCESS, i.app.readBody);
      } else {
        SendResponse(P.SUCCESS, None);
      }
      return T.Done;
    }

    method CheckReadPermissions(s: P.Session) returns (refusal: Option<byte>)
      ensures refusal == P.RefuseRead(characteristic, s)
    {
      if s.isTransient {
        return Some(P.UNSUPPORTED_PDU);
      }
      var supportsRead, supportsSecureRead := characteristic.readableWithoutSecurity, characteristic.readable;
      if !s.secured && !supportsRead {
        if supportsSecureRead {
          return Some(P.INSUFFICIENT_AUTHENTICATION);
        } else {
          return Some(P.UNSUPPORTED_PDU);
        }
      }
      if s.secured && !supportsSecureRead {
        return Some(P.UNSUPPORTED_PDU);
      }
      if characteristic.readNeedsAdmin && !s.isAdmin {
        return Some(P.INSUFFICIENT_AUTHENTICATION);
      }
      return None;
    }

    method CheckWritePermissions(s: P.Session, opcode: byte) returns (refusal: Option<byte>)
      ensures refusal == P.RefuseWrite(characteristic, s, opcode)
    {
      if s.isTransient {
        return Some(P.UNSUPPORTED_PDU);
      }
      var supportsWrite, supportsSecureWrite := characteristic.writableWithoutSecurity, characteristic.writable;
      if characteristic.isIdentify {
        supportsWrite := !s.serverIsPaired;
      }
      if !s.secured && !supportsWrite {
        if supportsSecureWrite {
          return Some(P.INSUFFICIENT_AUTHENTICATION);
        } else {
          return Some(P.UNSUPPORTED_PDU);
        }
      }
      if s.secured && !supportsSecureWrite {
        return Some(P.UNSUPPORTED_PDU);
      }
      if characteristic.writeNeedsAdmin && !s.isAdmin {
        return Some(P.INSUFFICIENT_AUTHENTICATION);
      }
      var isTimedWrite := opcode == P.CHARACTERISTIC_EXECUTE_WRITE;
      if !isTimedWrite && characteristic.requiresTimedWrite {
        return Some(P.INVALID_REQUEST);
      }
      return None;
    }

    /**
      Parses the request in the first bytes of the scratch buffer, which moves its value, and passes
      it to the handler. `start` is the start time of a timed write. What happens when a copy leaves
      the buffer is not described: the program does not notice.
    */
    method ParseAndWriteValue(numBytes: nat, opcode: byte, start: Option<nat>, now: nat, app: P.Application)
      returns (r: P.WriteResult)
      requires Valid() && numBytes <= scratchBytes.Length
      modifies this`log, this`lost, scratchBytes
      ensures Valid()
      ensures var body, room := old(scratchBytes[..numBytes]), scratchBytes.Length - numBytes;
              && r == P.ParseAndWrite(Parser(), body, room, start, now, app)
              && log == old(log) + P.Handled(Parser(), characteristic, opcode, body, room, start, now, app)
              && lost == (old(lost) || r == P.Misplaced)
    {
      ghost var body := scratchBytes[..numBytes];
      var parsed;
      ghost var spec;
      parsed, spec := ParseScratch(numBytes);
      if parsed.Err? {
        return P.Rejected(InvalidData);
      }
      if parsed.value.where.OutsideBuffer? {
        lost := true;
        return P.Misplaced;
      }
      r := WriteParsedValue(parsed.value, opcode, start, now, app, body, spec.value);
    }

    method ParseScratch(numBytes: nat) returns (r: Result<W.Parsed>, ghost spec: Result<W.Request>)
      requires Valid() && numBytes <= scratchBytes.Length
      modifies scratchBytes
      ensures Valid()
      ensures Parser()(old(scratchBytes[..numBytes])) == W.Parameters(spec)
      ensures W.IsParsed(scratchBytes[..], numBytes, spec, r)
    {
      assert scratchBytes[..][0..numBytes] == scratchBytes[..numBytes];
      spec := W.ReadRequest(scratchBytes[..numBytes], characteristic.supportsAuthorizationData);
      r := W.ParseRequest(scratchBytes, numBytes, characteristic.supportsAuthorizationData);
    }

    method WriteParsedValue(q: W.Parsed, opcode: byte, start: Option<nat>, now: nat, app: P.Application,
                            ghost body: seq<byte>, ghost spec: W.Request)
      returns (r: P.WriteResult)
      requires Valid() && q.where.Placed? && Holds(scratchBytes[..], q.where.p.value, spec.value)
      requires q == W.Parsed(q.where, spec.remote, spec.ttl, spec.returnResponse)
      modifies this`log
      ensures Valid()
      ensures r == P.WriteValue(W.Parameters(Ok(spec)).value, start, now, app)
      ensures log == old(log) + if P.Deliverable(W.Parameters(Ok(spec)).value, start, now, app) then
                                  [P.CallHandler(characteristic.requiresTimedWrite, opcode, body, spec.value, now)]
                                else []
    {
      if start.Some? {
        if q.ttl == 0 {
          return P.Rejected(InvalidData);
        }
        var lifetime: nat := q.ttl * 100;
        if now >= lifetime && now - lifetime > start.value {
          return P.Expired;
        }
      }
      var value := q.where.p.value;
      if value.numBytes > P.MAX_VALUE_BYTES {
        return P.Rejected(InvalidData);
      }
      if !app.formatOk {
        return P.Rejected(InvalidData);
      }
      log := log + [P.CallHandler(characteristic.requiresTimedWrite, opcode, body,
                                  scratchBytes[value.start..value.start + value.numBytes], now)];
      if app.writeError.Some? {
        return P.Rejected(app.writeError.value);
      }
      return P.Written(q.returnResponse);
    }

    method HandleWrite(i: P.ReadInput, opcode: byte, numBytes: nat, start: Option<nat>)
      returns (r: T.Outcome)
      requires Valid() && transaction.state.HandlingRequest? && P.Fits(Model(), i) && numBytes <= scratchBytes.Length
      modifies this`log, this`lost, transaction, scratchBytes
      ensures Valid()
      ensures (Model(), r) == P.DispatchWrite(Parser(), old(Model()), i, opcode, old(scratchBytes[..numBytes]), start)
    {
      if isTimedWritePending {
        return T.Failed(InvalidState);
      }
      var refusal := CheckWritePermissions(i.session, opcode);
      if refusal.Some? {
        SendResponse(refusal.value, None);
        return T.Done;
      }
      var written := WriteValue(i, opcode, numBytes, start);
      r := AnswerWrite(i, written);
    }

    method AnswerWrite(i: P.ReadInput, w: P.WriteResult) returns (r: T.Outcome)
      requires Valid() && transaction.state.HandlingRequest? && P.Fits(Model(), i) && (w == P.Misplaced ==> lost)
      modifies transaction, scratchBytes
      ensures Valid() && (Model(), r) == P.AnswerWrite(old(Model()), i, w)
    {
      match w {
        case Misplaced =>
          return T.Undetermined;
        case Rejected(e) =>
          SendResponse(if e == NotAuthorized then P.INSUFFICIENT_AUTHORIZATION else P.INVALID_REQUEST, None);
        case Expired =>
          SendResponse(P.UNSUPPORTED_PDU, None);
        case Written(hasReturnResponse) =>
          if !hasReturnResponse && !characteristic.supportsWriteResponse {
            SendResponse(P.SUCCESS, None);
          } else {
            r := HandleRead(i, hasReturnResponse);
            return;
          }
      }
      return T.Done;
    }

    /** Afterwards the scratch buffer holds what parsing and the handler have left in it. */
    method WriteValue(i: P.ReadInput, opcode: byte, numBytes: nat, start: Option<nat>) returns (r: P.WriteResult)
      requires Valid() && transaction.state.HandlingRequest? && P.Fits(Model(), i) && numBytes <= scratchBytes.Length
      modifies this`log, this`lost, scratchBytes
      ensures Valid()
      ensures var body := old(scratchBytes[..numBytes]);
              var q := P.Wrote(Parser(), old(Model()), i, opcode, body, start);
              && r == P.ParseAndWrite(Parser(), body, scratchBytes.Length - numBytes, start, i.now, i.app)
              && Model() == q.(lost := q.lost || r == P.Misplaced)
    {
      r := ParseAndWriteValue(numBytes, opcode, start, i.now, i.app);
      UseScratch(i.app.scratchAfter);
    }

    method HandleOther(i: P.ReadInput) returns (r: T.Outcome)
      requires Valid() && transaction.state.HandlingRequest? && P.Fits(Model(), i)
      modifies transaction, scratchBytes
      ensures Valid() && (Model(), r) == P.DispatchOther(old(Model()), i)
    {
      if isTimedWritePending {
        return T.Failed(InvalidState);
      }
      UseScratch(i.app.scratchAfter);
      SendResponse(i.app.otherStatus, i.app.otherBody);
      return T.Done;
    }

    /** Caches where the body is; the bytes stay in the scratch buffer. */
    method HandleTimedWrite(i: P.ReadInput, numBytes: nat, ghost body: seq<byte>) returns (r: T.Outcome)
      requires Valid() && transaction.state.HandlingRequest? && numBytes == |body| <= scratchBytes.Length
      modifies this, transaction
      ensures Valid() && (Model(), r) == P.DispatchTimedWrite(old(Model()), i, body)
      ensures scratchBytes == old(scratchBytes)
    {
      if isTimedWritePending {
        return T.Failed(InvalidState);
      }
      if i.session.isTransient {
        SendResponse(P.UNSUPPORTED_PDU, None);
        return T.Done;
      }
      isTimedWritePending := true;
      timedWriteBytes := numBytes;
      timedWriteStartTime := i.now;
      log := log + [P.CacheWrite(body, i.now)];
      SendResponse(P.SUCCESS, None);
      return T.Done;
    }

    method HandleExecuteWrite(i: P.ReadInput) returns (r: T.Outcome)
      requires Valid() && transaction.state.HandlingRequest? && P.Fits(Model(), i)
      modifies this`log, this`lost, this`isTimedWritePending, transaction, scratchBytes
      ensures Valid() && (Model(), r) == P.DispatchExecuteWrite(Parser(), old(Model()), i)
    {
      if !isTimedWritePending {
        return T.Failed(InvalidState);
      }
      if i.session.isTransient {
        return T.AssertionFailed;
      }
      isTimedWritePending := false;
      r := HandleWrite(i, P.CHARACTERISTIC_EXECUTE_WRITE, timedWriteBytes, Some(timedWriteStartTime));
    }

    method ProcessTransaction(i: P.ReadInput) returns (r: T.Outcome)
      requires Valid() && T.IsRequestAvailable(transaction.Model()) && P.Fits(Model(), i)
      modifies this, transaction, scratchBytes
      ensures Valid() && (Model(), r) == P.ProcessTransaction(old(Parser()), old(Model()), i)
      ensures scratchBytes == old(scratchBytes)
    {
      ghost var (_, requested) := T.GetRequest(transaction.Model());
      var request := transaction.GetRequest();
      if request.Err? {
        SendResponse(P.INVALID_REQUEST, None);
        return T.Done;
      }
      var opcode := transaction.opcode;
      if !P.IsValidOpcode(opcode) {
        SendResponse(P.UNSUPPORTED_PDU, None);
        return T.Done;
      }
      var iid := if P.IsServiceOperation(opcode) then characteristic.serviceIID else characteristic.iid;
      if transaction.iid != iid && opcode != P.SERVICE_SIGNATURE_READ {
        SendResponse(P.INVALID_INSTANCE_ID, None);
        return T.Done;
      }
      r := DispatchRequest(i, opcode, request.value, requested.value);
    }

    /** A request without a body buffer has no body. */
    method DispatchRequest(i: P.ReadInput, opcode: byte, numBytes: nat, ghost body: seq<byte>)
      returns (r: T.Outcome)
      requires Valid() && transaction.state.HandlingRequest? && P.Fits(Model(), i)
      requires numBytes <= scratchBytes.Length
      requires body == if transaction.bodyBytes == null then [] else scratchBytes[..numBytes]
      requires transaction.bodyBytes == null ==> numBytes == 0
      modifies this, transaction, scratchBytes
      ensures Valid() && scratchBytes == old(scratchBytes)
      ensures (Model(), r) == P.Dispatch(old(Parser()), old(Model()), i, opcode, body)
    {
      match opcode {
        case 0x04 =>
          r := HandleTimedWrite(i, numBytes, body);
        case 0x05 =>
          r := HandleExecuteWrite(i);
        case 0x02 =>
          assert body == scratchBytes[..numBytes];
          r := HandleWrite(i, opcode, numBytes, None);
        case 0x03 =>
          r := HandleRead(i, true);
        case _ =>
          r := HandleOther(i);
      }
    }

    method CompleteTransaction() returns (ok: bool)
      requires Valid()
      modifies this`procedureTimer, transaction
      ensures ok <==> old(procedureTimer) || isTimedWritePending
      ensures ok ==> Valid() && Model() == P.CompleteTransaction(old(Model()))
      ensures !ok ==> Valid() && Model() == old(Model())
    {
      if !isTimedWritePending {
        if !procedureTimer {
          return false;
        }
        procedureTimer := false;
        transaction.Create(scratchBytes);
      } else {
        transaction.Create(null);
      }
      return true;
    }

    // ---------------------------------------------------------------- GATT entry points

    method HandleGATTWrite(i: P.WriteInput) returns (r: T.Outcome)
      requires Valid()
      modifies this, transaction, scratchBytes
      ensures Valid() && (Model(), r) == P.HandleGattWrite(old(Model()), i)
      ensures scratchBytes == old(scratchBytes)
    {
      if i.session.terminal {
        return T.Failed(InvalidState);
      }
      if !procedureTimer {
        if i.session.terminalSoon {
          return T.Failed(InvalidState);
        }
        var isSecured := i.session.secured;
        if isSecured && characteristic.dropsSecuritySession {
          isSecured := false;
          Reset();
        }
        startedSecured := isSecured;
        if !i.timerAvailable {
          return T.Failed(OutOfResources);
        }
        procedureTimer := true;
      }
      r := ProcessFragment(i);
    }

    /** Decrypts a fragment if the procedure was started in a secured session, and collects it. */
    method ProcessFragment(i: P.WriteInput) returns (r: T.Outcome)
      requires Valid()
      modifies this, transaction, scratchBytes
      ensures Valid() && scratchBytes == old(scratchBytes)
      ensures var p := old(Model());
              if p.startedSecured && (|i.bytes| < P.TAG_BYTES || i.plaintext.None?) then
                Model() == p && r == T.Failed(InvalidData)
              else
                var (tx, outcome) := T.HandleWrite(p.tx, if p.startedSecured then i.plaintext.value else i.bytes);
                Model() == P.SyncScratch(p, tx) && r == outcome
    {
      if startedSecured {
        if |i.bytes| < P.TAG_BYTES {
          return T.Failed(InvalidData);
        }
        if i.plaintext.None? {
          return T.Failed(InvalidData);
        }
      }
      r := transaction.HandleWrite(if startedSecured then i.plaintext.value else i.bytes);
    }

    method HandleGATTRead(i: P.ReadInput, bytes: array<byte>) returns (r: T.ReadOutcome)
      requires Valid() && P.Fits(Model(), i)
      requires i.maxBytes <= bytes.Length && bytes != scratchBytes
      modifies this, transaction, scratchBytes, bytes
      ensures Valid() && scratchBytes == old(scratchBytes)
      ensures (Model(), r) == P.HandleGattRead(old(Parser()), old(Model()), i)
      ensures r.Frame? ==> |r.bytes| <= bytes.Length && bytes[..|r.bytes|] == r.bytes
    {
      if i.session.terminal {
        return T.ReadFailed(InvalidState);
      }
      var maxBytes := i.maxBytes;
      if startedSecured {
        if maxBytes < P.TAG_BYTES {
          return T.ReadFailed(OutOfResources);
        }
        maxBytes := maxBytes - P.TAG_BYTES;
      }
      var outcome := ProcessPending(i);
      r := FinishRead(outcome, i, maxBytes, bytes);
    }

    method ProcessPending(i: P.ReadInput) returns (r: T.Outcome)
      requires Valid() && P.Fits(Model(), i)
      modifies this, transaction, scratchBytes
      ensures Valid() && scratchBytes == old(scratchBytes)
      ensures (Model(), r) == P.Processed(old(Parser()), old(Model()), i)
    {
      var isAvailable := IsRequestAvailable();
      if isAvailable {
        r := ProcessTransaction(i);
      } else {
        r := T.Done;
      }
    }

    method FinishRead(outcome: T.Outcome, i: P.ReadInput, maxBytes: nat, bytes: array<byte>) returns (r: T.ReadOutcome)
      requires Valid() && maxBytes <= bytes.Length && bytes != scratchBytes
      modifies this, transaction, bytes
      ensures Valid() && scratchBytes == old(scratchBytes)
      ensures (Model(), r) == P.FinishRead((old(Model()), outcome), i, maxBytes)
      ensures r.Frame? ==> |r.bytes| <= maxBytes && bytes[..|r.bytes|] == r.bytes
    {
      match outcome {
        case Failed(e) => return T.ReadFailed(e);
        case AssertionFailed => return T.ReadAsserts;
        case Undetermined => return T.ReadUndetermined;
        case Done => r := SendFragment(i, maxBytes, bytes);
      }
    }

    method IsRequestAvailable() returns (r: bool)
      requires Valid()
      ensures r == T.IsRequestAvailable(transaction.Model())
    {
      return transaction.state.ReadingRequest? && transaction.offset == transaction.total;
    }

    method SendFragment(i: P.ReadInput, maxBytes: nat, bytes: array<byte>) returns (r: T.ReadOutcome)
      requires Valid() && maxBytes <= bytes.Length && bytes != scratchBytes
      modifies this, transaction, bytes
      ensures Valid() && scratchBytes == old(scratchBytes)
      ensures (Model(), r) == P.SendFragment(old(Model()), i, maxBytes)
      ensures r.Frame? ==> |r.bytes| <= maxBytes && bytes[..|r.bytes|] == r.bytes
    {
      r := transaction.HandleRead(bytes, maxBytes);
      if !r.Frame? {
        return;
      }
      if startedSecured {
        if !i.encryptOk {
          return T.ReadFailed(InvalidState);
        }
      }
      if r.isFinal {
        var ok := CompleteTransaction();
        if !ok {
          return T.ReadAsserts;
        }
      }
    }
  }
}
