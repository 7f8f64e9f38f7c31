/** What holds in every run of a HAP-BLE procedure. */
module ProcedureProperties {
  import opened Base
  import opened Procedure
  import T = Transaction

  /** The guarded subtraction is exactly "later than start plus time to live". */
  lemma ExpiryIsExact(start: nat, ttl: byte, now: nat)
    ensures HasExpired(start, ttl, now) <==> now > start + 100 * ttl
  {
  }

  lemma LogExtended(parse: Parser, log: seq<Observation>, o: Observation)
    requires WellTimed(parse, log)
    requires o.CallHandler? ==> WellTimedAt(parse, log + [o], |log|)
    ensures WellTimed(parse, log + [o])
  {
    var l := log + [o];
    forall i | 0 <= i < |l| && l[i].CallHandler?
      ensures WellTimedAt(parse, l, i)
    {
      if i < |log| {
        assert l[i] == log[i] && WellTimedAt(parse, log, i);
      }
    }
  }

  /** The request of `p` is being handled. */
  predicate Handling(parse: Parser, p: Proc) {
    Inv(p) && p.tx.state.HandlingRequest? && WellTimed(parse, p.log)
  }

  predicate Good(parse: Parser, p: Proc) {
    Inv(p) && WellTimed(parse, p.log)
  }

  lemma RespondKeeps(parse: Parser, p: Proc, status: byte, body: Option<nat>)
    requires Handling(parse, p)
    requires body.Some? ==> body.value <= T.Min(|p.scratch|, UINT16_MAX)
    ensures Good(parse, Respond(p, status, body))
  {
  }

  lemma ScribbleKeeps(parse: Parser, p: Proc, scratch: seq<byte>)
    requires Handling(parse, p) && !p.pending && |scratch| == |p.scratch|
    ensures Handling(parse, Scribble(p, scratch))
  {
  }

  lemma DispatchReadKeeps(parse: Parser, p: Proc, i: ReadInput, returnResponse: bool)
    requires Handling(parse, p) && Fits(p, i)
    ensures Good(parse, DispatchRead(p, i, returnResponse).0)
  {
    if !p.pending {
      var refusal := RefuseRead(p.characteristic, i.session);
      if refusal.Some? {
        RespondKeeps(parse, p, refusal.value, None);
      } else {
        var q := Scribble(p, i.app.scratchAfter);
        ScribbleKeeps(parse, p, i.app.scratchAfter);
        RespondKeeps(parse, q, INVALID_REQUEST, None);
        RespondKeeps(parse, q, SUCCESS, if returnResponse then i.app.readBody else None);
      }
    }
  }

  /** The handler is called, if at all, within what the order allows. */
  lemma WroteKeeps(parse: Parser, p: Proc, i: ReadInput, opcode: byte, body: seq<byte>, start: Option<nat>)
    requires Handling(parse, p) && Fits(p, i) && |body| <= |p.scratch| && !p.pending
    requires p.characteristic.requiresTimedWrite ==> opcode == CHARACTERISTIC_EXECUTE_WRITE
    requires opcode == CHARACTERISTIC_EXECUTE_WRITE <==> start.Some?
    requires start.Some? ==> p.log != [] && p.log[|p.log| - 1] == CacheWrite(body, start.value)
    ensures Handling(parse, Wrote(parse, p, i, opcode, body, start))
  {
    ScribbleKeeps(parse, p, i.app.scratchAfter);
    if CallsHandler(parse, body, |p.scratch| - |body|, start, i.now, i.app) {
      var o := CallHandler(p.characteristic.requiresTimedWrite, opcode, body, parse(body).value.value, i.now);
      if start.Some? {
        ExpiryIsExact(start.value, parse(body).value.ttl, i.now);
      }
      LogExtended(parse, p.log, o);
    } else {
      assert p.log + [] == p.log;
    }
  }

  lemma AnswerWriteKeeps(parse: Parser, q: Proc, i: ReadInput, w: WriteResult)
    requires Handling(parse, q) && Fits(q, i)
    ensures Good(parse, AnswerWrite(q, i, w).0)
  {
    match w
    case Misplaced =>
    case Rejected(e) => RespondKeeps(parse, q, WriteStatus(e), None);
    case Expired => RespondKeeps(parse, q, UNSUPPORTED_PDU, None);
    case Written(returnResponse) =>
      RespondKeeps(parse, q, SUCCESS, None);
      DispatchReadKeeps(parse, q, i, returnResponse);
  }

  /** An execute write passes the cached body; a plain write of such a characteristic is refused. */
  lemma DispatchWriteKeeps(parse: Parser, p: Proc, i: ReadInput, opcode: byte, body: seq<byte>, start: Option<nat>)
    requires Handling(parse, p) && Fits(p, i) && |body| <= |p.scratch|
    requires opcode == CHARACTERISTIC_EXECUTE_WRITE <==> start.Some?
    requires start.Some? && !p.pending ==> p.log != [] && p.log[|p.log| - 1] == CacheWrite(body, start.value)
    ensures Good(parse, DispatchWrite(parse, p, i, opcode, body, start).0)
  {
    if !p.pending {
      var refusal := RefuseWrite(p.characteristic, i.session, opcode);
      if refusal.Some? {
        RespondKeeps(parse, p, refusal.value, None);
      } else {
        var q := Wrote(parse, p, i, opcode, body, start);
        WroteKeeps(parse, p, i, opcode, body, start);
        AnswerWriteKeeps(parse, q, i, ParseAndWrite(parse, body, |p.scratch| - |body|, start, i.now, i.app));
      }
    }
  }

  lemma DispatchTimedWriteKeeps(parse: Parser, p: Proc, i: ReadInput, length: nat)
    requires Handling(parse, p) && length <= |p.scratch|
    ensures Good(parse, DispatchTimedWrite(p, i, p.scratch[..length]).0)
  {
    if !p.pending {
      LogExtended(parse, p.log, CacheWrite(p.scratch[..length], i.now));
    }
  }

  lemma DispatchExecuteWriteKeeps(parse: Parser, p: Proc, i: ReadInput)
    requires Handling(parse, p) && Fits(p, i)
    ensures Good(parse, DispatchExecuteWrite(parse, p, i).0)
  {
    if p.pending {
      DispatchWriteKeeps(parse, p.(pending := false), i, CHARACTERISTIC_EXECUTE_WRITE,
                         p.scratch[..p.cached], Some(p.startTime));
    }
  }

  lemma DispatchOtherKeeps(parse: Parser, p: Proc, i: ReadInput)
    requires Handling(parse, p) && Fits(p, i)
    ensures Good(parse, DispatchOther(p, i).0)
  {
  }

  lemma RequestTaken(parse: Parser, p: Proc)
    requires Good(parse, p) && T.IsRequestAvailable(p.tx)
    ensures var (tx, request) := T.GetRequest(p.tx);
            && Handling(parse, p.(tx := tx))
            && (request.Ok? ==> && |request.value| <= |p.scratch|
                                && (!p.pending ==> request.value == p.scratch[..|request.value|]))
  {
  }

  lemma ProcessKeeps(parse: Parser, p: Proc, i: ReadInput)
    requires Good(parse, p) && T.IsRequestAvailable(p.tx) && Fits(p, i)
    ensures Good(parse, ProcessTransaction(parse, p, i).0)
  {
    var (tx, request) := T.GetRequest(p.tx);
    var q := p.(tx := tx);
    RequestTaken(parse, p);
    RespondKeeps(parse, q, INVALID_REQUEST, None);
    RespondKeeps(parse, q, UNSUPPORTED_PDU, None);
    RespondKeeps(parse, q, INVALID_INSTANCE_ID, None);
    if request.Ok? {
      DispatchKeeps(parse, q, i, tx.opcode, request.value);
    }
  }

  lemma DispatchKeeps(parse: Parser, p: Proc, i: ReadInput, opcode: byte, body: seq<byte>)
    requires Handling(parse, p) && Fits(p, i) && |body| <= |p.scratch| && (!p.pending ==> body == p.scratch[..|body|])
    ensures Good(parse, Dispatch(parse, p, i, opcode, body).0)
  {
    if opcode == CHARACTERISTIC_TIMED_WRITE {
      if !p.pending {
        DispatchTimedWriteKeeps(parse, p, i, |body|);
      }
    } else if opcode == CHARACTERISTIC_EXECUTE_WRITE {
      DispatchExecuteWriteKeeps(parse, p, i);
    } else if opcode == CHARACTERISTIC_WRITE {
      DispatchWriteKeeps(parse, p, i, CHARACTERISTIC_WRITE, body, None);
    } else if opcode == CHARACTERISTIC_READ {
      DispatchReadKeeps(parse, p, i, true);
    } else {
      DispatchOtherKeeps(parse, p, i);
    }
  }

  /** Sending a fragment changes neither the scratch buffer nor the log. */
  lemma FragmentKeeps(parse: Parser, p: Proc, maxBytes: nat)
    requires Good(parse, p)
    ensures var (tx, fragment) := T.HandleRead(p.tx, maxBytes);
            && Good(parse, p.(tx := tx))
            && (fragment.Frame? ==> p.timer && Good(parse, CompleteTransaction(p.(tx := tx))))
  {
  }

  lemma GattReadKeeps(parse: Parser, p: Proc, i: ReadInput)
    requires Good(parse, p) && Fits(p, i)
    ensures Good(parse, HandleGattRead(parse, p, i).0)
  {
    if T.IsRequestAvailable(p.tx) {
      ProcessKeeps(parse, p, i);
    }
    if p.startedSecured ==> i.maxBytes >= TAG_BYTES {
      FragmentKeeps(parse, Processed(parse, p, i).0, ReadCapacity(p, i));
    }
  }

  /** A write never touches the scratch buffer while a timed write is pending. */
  lemma GattWriteKeeps(parse: Parser, p: Proc, w: WriteInput)
    requires Good(parse, p)
    ensures Good(parse, HandleGattWrite(p, w).0)
    ensures p.pending && HandleGattWrite(p, w).0.pending ==> HandleGattWrite(p, w).0.scratch == p.scratch
  {
  }

  lemma NextKeeps(parse: Parser, p: Proc, s: Step)
    requires Good(parse, p) && Enabled(p, s)
    ensures Good(parse, Next(parse, p, s))
  {
    match s
    case GattWrite(w) => GattWriteKeeps(parse, p, w);
    case GattRead(i) => GattReadKeeps(parse, p, i);
    case TimerExpires =>
    case AttachTo(c, scratch) =>
  }

  lemma {:induction false} RunKeeps(parse: Parser, p: Proc, steps: seq<Step>)
    requires Good(parse, p) && Possible(parse, p, steps)
    ensures Good(parse, Run(parse, p, steps))
    decreases |steps|
  {
    if steps != [] {
      NextKeeps(parse, p, steps[0]);
      RunKeeps(parse, Next(parse, p, steps[0]), steps[1..]);
    }
  }

  /**
    In every run, whatever the application, the session and the order of reads, writes, timer
    expiries and attachments (a copy that leaves the buffer ends it): the write handler's log is
    well timed, an executed body is byte for byte the one that was cached, and the procedure timer
    runs whenever a transaction is under way.
  */
  lemma TimedWritesInOrder(parse: Parser, c: Characteristic, scratch: seq<byte>, steps: seq<Step>)
    requires Possible(parse, Attach(c, scratch, []), steps)
    ensures var p := Run(parse, Attach(c, scratch, []), steps);
            && WellTimed(parse, p.log)
            && (p.pending ==> CachedOnLog(p))
            && (!p.tx.state.WaitingForInitialWrite? || p.pending ==> p.timer)
  {
    RunKeeps(parse, Attach(c, scratch, []), steps);
  }

  // ------------------------------------------------------------------ permissions

  /** What a session may write, by which procedure. */
  predicate MayWrite(c: Characteristic, s: Session, opcode: byte) {
    && !s.isTransient
    && (if s.secured then c.writable else if c.isIdentify then !s.serverIsPaired else c.writableWithoutSecurity)
    && (c.writeNeedsAdmin ==> s.isAdmin)
    && (c.requiresTimedWrite ==> opcode == CHARACTERISTIC_EXECUTE_WRITE)
  }

  predicate MayRead(c: Characteristic, s: Session) {
    && !s.isTransient
    && (if s.secured then c.readable else c.readableWithoutSecurity)
    && (c.readNeedsAdmin ==> s.isAdmin)
  }

  /**
    A write is refused exactly when it is not permitted. The controller is told to authenticate only
    if a secured session of an admin gets past every check but the one for a timed write, or is
    already past those on security.
  */
  lemma WritePermitted(c: Characteristic, s: Session, opcode: byte)
    ensures RefuseWrite(c, s, opcode).None? <==> MayWrite(c, s, opcode)
    ensures RefuseWrite(c, s, opcode) == Some(INSUFFICIENT_AUTHENTICATION) && !s.secured && c.writable ==>
              MayWrite(c, s.(secured := true, isAdmin := true), CHARACTERISTIC_EXECUTE_WRITE)
  {
  }

  /** What one GATT read may add to the log: a handler call only for a permitted and addressed request. */
  predicate AddsPermitted(p: Proc, i: ReadInput, log: seq<Observation>) {
    || log == p.log
    || (|log| == |p.log| + 1 && log[..|p.log|] == p.log
        && (log[|p.log|].CallHandler? ==>
              && MayWrite(p.characteristic, i.session, log[|p.log|].opcode)
              && log[|p.log|].opcode == p.tx.opcode && p.tx.iid == p.characteristic.iid
              && (p.tx.opcode == CHARACTERISTIC_EXECUTE_WRITE <==> p.pending)))
  }

  /** Only a permitted write gets to the handler, and is logged if it does. */
  lemma WriteLogs(parse: Parser, p: Proc, i: ReadInput, opcode: byte, body: seq<byte>, start: Option<nat>)
    requires WellFormed(p) && p.tx.state.HandlingRequest? && Fits(p, i) && |body| <= |p.scratch|
    ensures var q := DispatchWrite(parse, p, i, opcode, body, start).0;
            && q.pending == p.pending
            && q.log == if p.pending || !MayWrite(p.characteristic, i.session, opcode) then p.log
                        else p.log + Handled(parse, p.characteristic, opcode, body, |p.scratch| - |body|, start,
                                             i.now, i.app)
  {
    WritePermitted(p.characteristic, i.session, opcode);
  }

  lemma DispatchAddsPermitted(parse: Parser, p: Proc, i: ReadInput, opcode: byte, body: seq<byte>)
    requires WellFormed(p) && p.tx.state.HandlingRequest? && Fits(p, i) && |body| <= |p.scratch|
    requires p.tx.opcode == opcode
    requires opcode != SERVICE_SIGNATURE_READ && !IsServiceOperation(opcode) ==> p.tx.iid == p.characteristic.iid
    ensures AddsPermitted(p, i, Dispatch(parse, p, i, opcode, body).0.log)
  {
    if opcode == CHARACTERISTIC_EXECUTE_WRITE {
      WriteLogs(parse, p.(pending := false), i, CHARACTERISTIC_EXECUTE_WRITE, p.scratch[..p.cached], Some(p.startTime));
    } else if opcode == CHARACTERISTIC_WRITE {
      WriteLogs(parse, p, i, CHARACTERISTIC_WRITE, body, None);
    }
  }

  lemma ProcessAddsPermitted(parse: Parser, p: Proc, i: ReadInput)
    requires WellFormed(p) && T.IsRequestAvailable(p.tx) && Fits(p, i)
    ensures AddsPermitted(p, i, ProcessTransaction(parse, p, i).0.log)
  {
    var (tx, request) := T.GetRequest(p.tx);
    var q := p.(tx := tx);
    if request.Ok? && IsValidOpcode(tx.opcode)
       && (tx.opcode == SERVICE_SIGNATURE_READ
           || tx.iid == if IsServiceOperation(tx.opcode) then p.characteristic.serviceIID else p.characteristic.iid) {
      DispatchAddsPermitted(parse, q, i, tx.opcode, request.value);
    }
  }

  /**
    The write handler runs only for a request to this characteristic that the session may make; for
    an execute write exactly when a timed write is pending.
  */
  lemma HandlerCallPermitted(parse: Parser, p: Proc, i: ReadInput)
    requires WellFormed(p) && Fits(p, i)
    ensures AddsPermitted(p, i, HandleGattRead(parse, p, i).0.log)
  {
    if T.IsRequestAvailable(p.tx) {
      ProcessAddsPermitted(parse, p, i);
    }
  }

  /** A value is read exactly when reading is permitted and the read handler succeeds. */
  lemma ReadPermitted(p: Proc, i: ReadInput)
    requires WellFormed(p) && p.tx.state.HandlingRequest? && Fits(p, i) && !p.pending
    ensures RefuseRead(p.characteristic, i.session).None? <==> MayRead(p.characteristic, i.session)
    ensures var q := DispatchRead(p, i, true).0;
            && (q.tx.response.Some? <==> MayRead(p.characteristic, i.session) && i.app.readBody.Some?)
            && (q.tx.response.Some? ==>
                  q.tx.status == SUCCESS && q.tx.response.value == i.app.scratchAfter[..i.app.readBody.value])
  {
  }
}
