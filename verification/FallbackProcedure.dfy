/**
  Fallback procedures: while the one full procedure is busy on another characteristic, a request is
  parsed by hand, its body skipped, and a fixed answer given. The hand-written parser and reply are
  proved against the PDU codec, and whole write sequences against the transaction of the full
  procedure.
*/
module FallbackProcedure {
  import opened Base
  import opened Pdu
  import P = Procedure
  import T = Transaction

  const MAX_PROCEDURES: byte := 0x02

  const LINKED_SERVICES_TLV: byte := 0x10

  datatype Status = MaxProcedures | InvalidInstanceID | ZeroInstanceIDServiceSignatureRead

  /** `remaining` counts the body bytes that are still to be skipped. */
  datatype Fallback = Fallback(tid: byte, status: Status, remaining: u16)

  function ExpectedIID(c: P.Characteristic, opcode: byte): u16 {
    if P.IsServiceOperation(opcode) then c.serviceIID else c.iid
  }

  function Refusal(c: P.Characteristic, opcode: byte, iid: u16): Status {
    if !P.IsValidOpcode(opcode) || iid == ExpectedIID(c, opcode) then MaxProcedures
    else if opcode == P.SERVICE_SIGNATURE_READ && iid == 0 then ZeroInstanceIDServiceSignatureRead
    else InvalidInstanceID
  }

  /** A first fragment is accepted exactly when the codec reads it as a request. */
  function Begin(c: P.Characteristic, frame: seq<byte>): Option<Fallback> {
    match ParseFirst(frame)
    case Ok(RequestPDU(opcode, tid, iid, body)) =>
      Some(Fallback(tid, Refusal(c, opcode, iid), body.total - |Fragment(body)|))
    case _ => None
  }

  /** A later fragment is accepted exactly when the codec reads it as a request continuation of this transaction. */
  function Continue(f: Fallback, frame: seq<byte>): Option<Fallback> {
    match ParseContinuation(frame, Request, f.remaining, 0)
    case Ok(p) => if p.tid == f.tid then Some(f.(remaining := f.remaining - |Fragment(p.body)|)) else None
    case Err(_) => None
  }

  /** None when one of the frames is refused. */
  function CollectFrom(f: Fallback, frames: seq<seq<byte>>): Option<Fallback>
    decreases |frames|
  {
    if frames == [] then Some(f)
    else
      var r := Continue(f, frames[0]);
      if r.None? then None else CollectFrom(r.value, frames[1..])
  }

  function Collect(c: P.Characteristic, frames: seq<seq<byte>>): Option<Fallback>
    requires frames != []
  {
    var r := Begin(c, frames[0]);
    if r.None? then None else CollectFrom(r.value, frames[1..])
  }

  /** The answer, as a response PDU. */
  function Reply(f: Fallback): PDU {
    match f.status
    case MaxProcedures => ResponsePDU(f.tid, MAX_PROCEDURES, NO_BODY)
    case InvalidInstanceID => ResponsePDU(f.tid, P.INVALID_INSTANCE_ID, NO_BODY)
    case ZeroInstanceIDServiceSignatureRead =>
      ResponsePDU(f.tid, P.SUCCESS, Body(2, Some([LINKED_SERVICES_TLV, 0])))
  }

  // ------------------------------------------------------------------ agreement with the full procedure

  /** The fallback procedure and a transaction have seen the same frames. */
  predicate Agree(f: Fallback, t: T.Tx) {
    T.Valid(t) && t.state.ReadingRequest? && t.buffer.Some? && f.tid == t.tid && f.remaining == t.total - t.offset
  }

  lemma ContinueAgrees(f: Fallback, t: T.Tx, frame: seq<byte>)
    requires Agree(f, t)
    ensures var r := T.HandleWrite(t, frame);
            && (Continue(f, frame).Some? <==> r.1 == T.Done)
            && (r.1 == T.Done ==> Agree(Continue(f, frame).value, r.0)
                                  && r.0.total == t.total
                                  && r.0.offset == t.offset + |T.FrameBody(frame, false)|)
  {
  }

  lemma {:induction false} CollectAgrees(f: Fallback, t: T.Tx, frames: seq<seq<byte>>)
    requires Agree(f, t)
    ensures var r := T.WriteAll(t, frames);
            && (CollectFrom(f, frames).Some? <==> r.1 == T.Done)
            && (r.1 == T.Done ==> Agree(CollectFrom(f, frames).value, r.0)
                                  && r.0.total == t.total
                                  && r.0.offset == t.offset + |T.FrameBodies(frames, false)|)
    decreases |frames|
  {
    if frames != [] {
      ContinueAgrees(f, t, frames[0]);
      var r := T.HandleWrite(t, frames[0]);
      if r.1 == T.Done {
        CollectAgrees(Continue(f, frames[0]).value, r.0, frames[1..]);
      }
    }
  }

  /**
    On every sequence of writes the two implementations of the wire format agree: the fallback
    procedure accepts exactly the sequences a transaction with any body buffer accepts, under the
    same transaction ID; what it still waits for is the announced body minus the bytes received, and
    it is zero exactly when the full procedure would have its request.
  */
  lemma AgreesWithTransaction(c: P.Characteristic, buffer: seq<byte>, frames: seq<seq<byte>>)
    requires frames != []
    ensures var f, r := Collect(c, frames), T.WriteAll(T.Create(Some(buffer)), frames);
            && (f.Some? <==> r.1 == T.Done)
            && (f.Some? ==> f.value.tid == r.0.tid
                            && f.value.remaining == r.0.total - |T.FrameBodies(frames, true)|
                            && (f.value.remaining == 0 <==> T.IsRequestAvailable(r.0)))
  {
    var t := T.Create(Some(buffer));
    var r := T.HandleWrite(t, frames[0]);
    if r.1 == T.Done {
      T.FirstFrameBody(frames[0]);
      assert Agree(Begin(c, frames[0]).value, r.0) && r.0.offset == |T.FrameBody(frames[0], true)|;
      CollectAgrees(Begin(c, frames[0]).value, r.0, frames[1..]);
    }
  }

  // ------------------------------------------------------------------ agreement on the answer

  /** A request for something else than what is attached here. */
  predicate IsForeign(c: P.Characteristic, opcode: byte, iid: u16) {
    iid != if opcode == P.SERVICE_SIGNATURE_READ || opcode == P.PROTOCOL_CONFIGURATION then c.serviceIID else c.iid
  }

  /** Why a request is refused, by opcode and instance ID. */
  lemma RefusalMeans(c: P.Characteristic, frame: seq<byte>)
    requires Begin(c, frame).Some?
    ensures ParseFirst(frame).Ok? && ParseFirst(frame).value.RequestPDU?
    ensures var RequestPDU(opcode, tid, iid, _) := ParseFirst(frame).value;
            var known, reply := P.IsValidOpcode(opcode) && IsForeign(c, opcode, iid), Reply(Begin(c, frame).value);
            && (!known ==> reply == ResponsePDU(tid, MAX_PROCEDURES, NO_BODY))
            && (known && opcode == P.SERVICE_SIGNATURE_READ && iid == 0 ==>
                  reply == ResponsePDU(tid, P.SUCCESS, Body(2, Some([LINKED_SERVICES_TLV, 0]))))
            && (known && !(opcode == P.SERVICE_SIGNATURE_READ && iid == 0) ==>
                  reply == ResponsePDU(tid, P.INVALID_INSTANCE_ID, NO_BODY))
  {
  }

  /** Later frames change neither the status nor the TID. */
  lemma {:induction false} StatusStays(f: Fallback, frames: seq<seq<byte>>)
    requires CollectFrom(f, frames).Some?
    ensures CollectFrom(f, frames).value == f.(remaining := CollectFrom(f, frames).value.remaining)
    decreases |frames|
  {
    if frames != [] {
      StatusStays(Continue(f, frames[0]).value, frames[1..]);
    }
  }

  lemma {:induction false} HeaderStays(t: T.Tx, frames: seq<seq<byte>>)
    requires T.Valid(t) && t.state.ReadingRequest? && T.WriteAll(t, frames).1 == T.Done
    ensures var r := T.WriteAll(t, frames).0;
            && r.opcode == t.opcode && r.tid == t.tid && r.iid == t.iid && r.total == t.total
            && T.Capacity(r) == T.Capacity(t)
    decreases |frames|
  {
    if frames != [] {
      HeaderStays(T.HandleWrite(t, frames[0]).0, frames[1..]);
    }
  }

  /** The full procedure answers with this status alone, whatever the application does. */
  ghost predicate AlwaysAnswers(parse: P.Parser, p: P.Proc, status: byte)
    requires P.WellFormed(p) && T.IsRequestAvailable(p.tx)
  {
    forall i :: P.Fits(p, i) ==> P.ProcessTransaction(parse, p, i)
                                 == (P.Respond(p.(tx := T.GetRequest(p.tx).0), status, None), T.Done)
  }

  /**
    On the same frames the fallback procedure complains about the instance ID exactly when the full
    procedure of that characteristic would, and otherwise about the number of procedures.
  */
  lemma RefusesLikeProcedure(parse: P.Parser, p: P.Proc, frames: seq<seq<byte>>, i: P.ReadInput)
    requires frames != [] && Collect(p.characteristic, frames).Some? && P.WellFormed(p) && P.Fits(p, i)
    requires p.tx == T.WriteAll(T.Create(Some(p.scratch)), frames).0 && T.IsRequestAvailable(p.tx)
    requires P.IsValidOpcode(p.tx.opcode) && p.tx.opcode != P.SERVICE_SIGNATURE_READ && p.tx.total <= |p.scratch|
    ensures var reply := Reply(Collect(p.characteristic, frames).value);
            && reply.ResponsePDU? && reply.tid == p.tx.tid && reply.body == NO_BODY
            && (reply.status == P.INVALID_INSTANCE_ID || reply.status == MAX_PROCEDURES)
            && (reply.status == P.INVALID_INSTANCE_ID <==> AlwaysAnswers(parse, p, P.INVALID_INSTANCE_ID))
  {
    var RequestPDU(opcode, tid, iid, _) := ParseFirst(frames[0]).value;
    RefusalMeans(p.characteristic, frames[0]);
    SameHeader(p.characteristic, p.scratch, frames);
    if IsForeign(p.characteristic, opcode, iid) {
      ForeignRefused(parse, p);
    } else {
      OwnNotRefused(parse, p, i.(app := i.app.(otherStatus := P.SUCCESS)));
    }
  }

  /** Both have what the first frame says; its reply is that of the whole request. */
  lemma SameHeader(c: P.Characteristic, buffer: seq<byte>, frames: seq<seq<byte>>)
    requires frames != [] && Collect(c, frames).Some?
    ensures Begin(c, frames[0]).Some? && Reply(Collect(c, frames).value) == Reply(Begin(c, frames[0]).value)
    ensures var tx := T.WriteAll(T.Create(Some(buffer)), frames).0;
            var RequestPDU(opcode, tid, iid, _) := ParseFirst(frames[0]).value;
            tx.opcode == opcode && tx.tid == tid && tx.iid == iid && T.Capacity(tx) == |buffer|
  {
    AgreesWithTransaction(c, buffer, frames);
    HeaderStays(T.HandleWrite(T.Create(Some(buffer)), frames[0]).0, frames[1..]);
    StatusStays(Begin(c, frames[0]).value, frames[1..]);
  }

  lemma ForeignRefused(parse: P.Parser, p: P.Proc)
    requires P.WellFormed(p) && T.IsRequestAvailable(p.tx) && T.GetRequest(p.tx).1.Ok?
    requires P.IsValidOpcode(p.tx.opcode) && p.tx.opcode != P.SERVICE_SIGNATURE_READ
    requires IsForeign(p.characteristic, p.tx.opcode, p.tx.iid)
    ensures AlwaysAnswers(parse, p, P.INVALID_INSTANCE_ID)
  {
  }

  lemma OwnNotRefused(parse: P.Parser, p: P.Proc, i: P.ReadInput)
    requires P.WellFormed(p) && T.IsRequestAvailable(p.tx) && T.GetRequest(p.tx).1.Ok? && P.Fits(p, i)
    requires P.IsValidOpcode(p.tx.opcode) && !IsForeign(p.characteristic, p.tx.opcode, p.tx.iid)
    requires i.app.otherStatus != P.INVALID_INSTANCE_ID
    ensures !AlwaysAnswers(parse, p, P.INVALID_INSTANCE_ID)
  {
    var (tx, request) := T.GetRequest(p.tx);
    var q := p.(tx := tx);
    DispatchedDiffers(parse, q, i, tx.opcode, request.value);
    assert P.ProcessTransaction(parse, p, i) == P.Dispatch(parse, q, i, tx.opcode, request.value);
  }

  /** The outcome is not a complaint about the instance ID. */
  predicate Differs(d: (P.Proc, T.Outcome)) {
    d.1 == T.Done ==> d.0.tx.status != P.INVALID_INSTANCE_ID
  }

  lemma ReadDiffers(q: P.Proc, i: P.ReadInput, returnResponse: bool)
    requires P.WellFormed(q) && q.tx.state.HandlingRequest? && P.Fits(q, i)
    ensures Differs(P.DispatchRead(q, i, returnResponse))
  {
  }

  lemma AnswerDiffers(q: P.Proc, i: P.ReadInput, w: P.WriteResult)
    requires P.WellFormed(q) && q.tx.state.HandlingRequest? && P.Fits(q, i)
    ensures Differs(P.AnswerWrite(q, i, w))
  {
    if w.Written? {
      ReadDiffers(q, i, w.returnResponse);
    }
  }

  lemma WriteDiffers(parse: P.Parser, q: P.Proc, i: P.ReadInput, opcode: byte, body: seq<byte>, start: Option<nat>)
    requires P.WellFormed(q) && q.tx.state.HandlingRequest? && P.Fits(q, i) && |body| <= |q.scratch|
    ensures Differs(P.DispatchWrite(parse, q, i, opcode, body, start))
  {
    if !q.pending && P.RefuseWrite(q.characteristic, i.session, opcode).None? {
      AnswerDiffers(P.Wrote(parse, q, i, opcode, body, start), i,
                    P.ParseAndWrite(parse, body, |q.scratch| - |body|, start, i.now, i.app));
    }
  }

  lemma DispatchedDiffers(parse: P.Parser, q: P.Proc, i: P.ReadInput, opcode: byte, body: seq<byte>)
    requires P.WellFormed(q) && q.tx.state.HandlingRequest? && P.Fits(q, i) && |body| <= |q.scratch|
    requires i.app.otherStatus != P.INVALID_INSTANCE_ID
    ensures Differs(P.Dispatch(parse, q, i, opcode, body))
  {
    if opcode == P.CHARACTERISTIC_WRITE {
      WriteDiffers(parse, q, i, opcode, body, None);
    } else if opcode == P.CHARACTERISTIC_EXECUTE_WRITE {
      WriteDiffers(parse, q.(pending := false), i, opcode, q.scratch[..q.cached], Some(q.startTime));
    } else if opcode == P.CHARACTERISTIC_READ {
      ReadDiffers(q, i, true);
    }
  }

  /** The reply is a PDU the controller's parser reads back. */
  lemma ReplyIsReadable(f: Fallback)
    ensures ParseFirst(Encode(Reply(f))) == Ok(Reply(f))
  {
    FirstRoundTrip(Reply(f));
  }

  // ------------------------------------------------------------------ the code

  /** The state kept in the GATT table for a connected controller; inactive without a timer. */
  class Procedure {
    var timer: bool
    var remaining: u16
    var tid: byte
    var status: Status

    constructor ()
      ensures !timer
    {
      timer, remaining, tid, status := false, 0, 0, MaxProcedures;
    }

    ghost function Model(): Fallback
      reads this
    {
      Fallback(tid, status, remaining)
    }

    /** The timer has just been registered for a new procedure. */
    method Attach()
      modifies this
      ensures timer && tid == old(tid) && status == old(status) && remaining == old(remaining)
    {
      timer := true;
    }

    /** Expiry, abortion and completion all clear the state. */
    method Reset()
      modifies this
      ensures !timer && Model() == Fallback(0, MaxProcedures, 0)
    {
      timer, remaining, tid, status := false, 0, 0, MaxProcedures;
    }

    /** `data` is the plaintext of a write; an error makes the caller invalidate the session. */
    method HandleWrite(c: P.Characteristic, isNew: bool, data: seq<byte>) returns (error: Option<Error>)
      requires timer
      modifies this
      ensures timer
      ensures var r := if isNew then Begin(c, data) else Continue(old(Model()), data);
              && (error.None? <==> r.Some?)
              && (r.Some? ==> Model() == r.value)
              && (error.Some? ==> error == Some(InvalidData))
    {
      if isNew {
        error := HandleFirstFragment(c, data);
      } else {
        error := HandleContinuation(data);
      }
    }

    method HandleFirstFragment(c: P.Characteristic, data: seq<byte>) returns (error: Option<Error>)
      modifies `tid, `status, `remaining
      ensures error.None? <==> Begin(c, data).Some?
      ensures error.None? ==> Model() == Begin(c, data).value
      ensures error.Some? ==> error == Some(InvalidData)
    {
      if |data| < 5 {
        return Some(InvalidData);
      }
      if data[0] != 0x00 {
        return Some(InvalidData);
      }
      tid := data[2];
      status := MaxProcedures;
      var operation, iid := data[1], ReadLittle16(data[3..]);
      if P.IsValidOpcode(operation) {
        var expected: u16;
        if P.IsServiceOperation(operation) {
          expected := c.serviceIID;
        } else {
          expected := c.iid;
        }
        if iid != expected {
          status := InvalidInstanceID;
          if operation == P.SERVICE_SIGNATURE_READ && iid == 0 {
            status := ZeroInstanceIDServiceSignatureRead;
          }
        }
      }
      if |data| > 5 {
        if |data| < 7 {
          return Some(InvalidData);
        }
        remaining := ReadLittle16(data[5..]);
        if remaining < |data| - 7 {
          return Some(InvalidData);
        }
        remaining := remaining - (|data| - 7);
      } else {
        remaining := 0;
      }
      return None;
    }

    method HandleContinuation(data: seq<byte>) returns (error: Option<Error>)
      modifies `remaining
      ensures error.None? <==> Continue(old(Model()), data).Some?
      ensures error.None? ==> Model() == Continue(old(Model()), data).value
      ensures error.Some? ==> error == Some(InvalidData) && Model() == old(Model())
    {
      if |data| < 2 {
        return Some(InvalidData);
      }
      if data[0] != 0x80 {
        return Some(InvalidData);
      }
      if data[1] != tid {
        return Some(InvalidData);
      }
      if remaining < |data| - 2 {
        return Some(InvalidData);
      }
      remaining := remaining - (|data| - 2);
      return None;
    }

    /**
      Answers only when the whole request has been skipped. In a secured session the reply is
      encrypted in place, with the authentication tag behind it; encryption may fail.
    */
    method HandleRead(bytes: array<byte>, maxBytes: nat, isSecured: bool, encrypt: seq<byte> -> Option<seq<byte>>)
      returns (r: Result<nat>)
      requires timer && maxBytes <= bytes.Length
      requires forall p :: encrypt(p).Some? ==> |encrypt(p).value| == |p| + P.TAG_BYTES
      modifies this, bytes
      ensures var reply := Encode(Reply(old(Model())));
              var length := |reply| + if isSecured then P.TAG_BYTES else 0;
              && r == (if old(remaining) != 0 then Err(InvalidState)
                       else if maxBytes < length then Err(OutOfResources)
                       else if isSecured && encrypt(reply).None? then Err(InvalidState)
                       else Ok(length))
              && (r.Ok? ==> && bytes[..length] == (if isSecured then encrypt(reply).value else reply)
                            && !timer && Model() == Fallback(0, MaxProcedures, 0))
              && (r.Err? ==> timer && Model() == old(Model()))
      ensures forall k :: maxBytes <= k < bytes.Length ==> bytes[k] == old(bytes[k])
    {
      if remaining != 0 {
        return Err(InvalidState);
      }
      var numBytes := CountReplyBytes();
      var numPlaintextBytes := numBytes;
      if isSecured {
        numBytes := numBytes + P.TAG_BYTES;
      }
      if maxBytes < numBytes {
        return Err(OutOfResources);
      }
      WriteReply(bytes, numPlaintextBytes);
      if isSecured {
        var ok := EncryptInPlace(bytes, numPlaintextBytes, encrypt);
        if !ok {
          return Err(InvalidState);
        }
      }
      Reset();
      return Ok(numBytes);
    }

    method CountReplyBytes() returns (n: nat)
      ensures n == |Encode(Reply(Model()))|
    {
      n := 3;
      if status == ZeroInstanceIDServiceSignatureRead {
        n := n + 2;
        n := n + 2;
      }
    }

    method EncryptInPlace(bytes: array<byte>, n: nat, encrypt: seq<byte> -> Option<seq<byte>>) returns (ok: bool)
      requires n + P.TAG_BYTES <= bytes.Length
      requires encrypt(bytes[..n]).Some? ==> |encrypt(bytes[..n]).value| == n + P.TAG_BYTES
      modifies bytes
      ensures ok == encrypt(old(bytes[..n])).Some?
      ensures ok ==> bytes[..n + P.TAG_BYTES] == encrypt(old(bytes[..n])).value
      ensures forall k :: n + P.TAG_BYTES <= k < bytes.Length ==> bytes[k] == old(bytes[k])
    {
      var encrypted := encrypt(bytes[..n]);
      if encrypted.None? {
        return false;
      }
      CopyBytes(bytes, 0, encrypted.value);
      return true;
    }

    method WriteReply(bytes: array<byte>, numBytes: nat)
      requires numBytes == |Encode(Reply(Model()))| <= bytes.Length
      modifies bytes
      ensures bytes[..numBytes] == Encode(Reply(Model()))
      ensures forall k :: numBytes <= k < bytes.Length ==> bytes[k] == old(bytes[k])
    {
      bytes[0] := 0x02;
      bytes[1] := tid;
      match status {
        case MaxProcedures =>
          bytes[2] := MAX_PROCEDURES;
        case InvalidInstanceID =>
          bytes[2] := P.INVALID_INSTANCE_ID;
        case ZeroInstanceIDServiceSignatureRead =>
          bytes[2] := P.SUCCESS;
          bytes[3], bytes[4] := WriteLittle16(2)[0], WriteLittle16(2)[1];
          bytes[5] := LINKED_SERVICES_TLV;
          bytes[6] := 0;
      }
    }
  }
}
