/** The transaction object: its buffers are arrays owned by the procedure and written in place. */
module TransactionObject {
  import opened Base
  import opened Pdu
  import T = Transaction

  class BleTransaction {
    var state: T.State
    var opcode: byte
    var tid: byte
    var iid: u16
    var total: u16
    var offset: nat
    var bodyBytes: array?<byte>
    var status: byte
    var responseBytes: array?<byte>
    var responseTotal: u16
    var responseOffset: nat

    ghost predicate Valid()
      reads this, bodyBytes, responseBytes
    {
      && (responseBytes != null ==> responseTotal <= responseBytes.Length)
      && (responseBytes == null ==> responseTotal == 0)
      && (state.WaitingForInitialRead? || state.WritingResponse? || responseBytes == null)
      && T.Valid(Model())
    }

    ghost function Model(): T.Tx
      requires responseBytes != null ==> responseTotal <= responseBytes.Length
      reads this, bodyBytes, responseBytes
    {
      T.Tx(state, opcode, tid, iid, total, offset,
           if bodyBytes == null then None else Some(bodyBytes[..]), status,
           if responseBytes == null then None else Some(responseBytes[..responseTotal]), responseOffset)
    }

    constructor (buffer: array?<byte>)
      ensures Valid() && bodyBytes == buffer && responseBytes == null
      ensures Model() == T.Create(if buffer == null then None else Some(buffer[..]))
    {
      state := T.WaitingForInitialWrite;
      opcode, tid, iid, total, offset := 0, 0, 0, 0, 0;
      bodyBytes := buffer;
      status, responseBytes, responseTotal, responseOffset := 0, null, 0, 0;
    }

    /** HAPBLETransactionCreate on an existing object. */
    method Create(buffer: array?<byte>)
      modifies this
      ensures Valid() && bodyBytes == buffer && responseBytes == null
      ensures Model() == T.Create(if buffer == null then None else Some(buffer[..]))
    {
      state := T.WaitingForInitialWrite;
      opcode, tid, iid, total, offset := 0, 0, 0, 0, 0;
      bodyBytes := buffer;
      status, responseBytes, responseTotal, responseOffset := 0, null, 0, 0;
    }

    method TryAppendBodyFragment(fragment: Option<seq<byte>>) returns (r: T.Outcome)
      requires Valid() && state.ReadingRequest? && offset + |Fragment(Body(0, fragment))| <= total
      modifies this`offset, bodyBytes
      ensures Valid() && (Model(), r) == T.Append(old(Model()), fragment)
    {
      var capacity := if bodyBytes == null then 0 else bodyBytes.Length;
      if total > capacity {
      } else if fragment.Some? {
        if bodyBytes == null {
          return T.AssertionFailed;
        }
        CopyBytes(bodyBytes, offset, fragment.value);
      }
      offset := offset + |Fragment(Body(0, fragment))|;
      return T.Done;
    }

    method HandleWrite(bytes: seq<byte>) returns (r: T.Outcome)
      requires Valid()
      modifies this, bodyBytes
      ensures Valid() && (Model(), r) == T.HandleWrite(old(Model()), bytes)
      ensures bodyBytes == old(bodyBytes) && responseBytes == old(responseBytes)
    {
      match state {
        case WaitingForInitialWrite =>
          r := HandleInitialWrite(bytes);
        case ReadingRequest =>
          r := HandleContinuation(bytes);
        case HandlingRequest =>
          r := HandleTrailingWrite(bytes);
        case WaitingForInitialRead =>
          r := HandleTrailingWrite(bytes);
        case WritingResponse =>
          return T.Failed(InvalidState);
      }
    }

    method HandleInitialWrite(bytes: seq<byte>) returns (r: T.Outcome)
      requires Valid() && state.WaitingForInitialWrite?
      modifies this, bodyBytes
      ensures Valid() && (Model(), r) == T.HandleWrite(old(Model()), bytes)
      ensures bodyBytes == old(bodyBytes) && responseBytes == old(responseBytes)
    {
      state := T.ReadingRequest;
      var p := Deserialize(bytes);
      if p.Err? {
        return T.Failed(InvalidData);
      }
      if !p.value.RequestPDU? {
        return T.Failed(InvalidData);
      }
      opcode, tid, iid := p.value.opcode, p.value.tid, p.value.iid;
      total, offset := p.value.body.total, 0;
      r := TryAppendBodyFragment(p.value.body.bytes);
    }

    method HandleContinuation(bytes: seq<byte>) returns (r: T.Outcome)
      requires Valid() && state.ReadingRequest?
      modifies this`offset, bodyBytes
      ensures Valid() && (Model(), r) == T.HandleWrite(old(Model()), bytes)
    {
      var p := DeserializeContinuation(bytes, Request, total, offset);
      if p.Err? {
        return T.Failed(InvalidData);
      }
      if p.value.tid != tid {
        return T.Failed(InvalidData);
      }
      r := TryAppendBodyFragment(p.value.body.bytes);
    }

    method HandleTrailingWrite(bytes: seq<byte>) returns (r: T.Outcome)
      requires Valid()
      ensures (Model(), r) == T.HandleTrailingWrite(Model(), bytes)
    {
      var p := DeserializeContinuation(bytes, Request, 0, 0);
      if p.Err? {
        return T.Failed(InvalidData);
      }
      var responseTid := if state == T.HandlingRequest then opcode else tid;
      if p.value.tid != responseTid {
        return T.Failed(InvalidData);
      }
      return T.Done;
    }

    /** On success the request body is `bodyBytes[..length]`. */
    method GetRequest() returns (r: Result<nat>)
      requires Valid() && T.IsRequestAvailable(Model())
      modifies this`state
      ensures Valid() && Model() == T.GetRequest(old(Model())).0
      ensures r.Ok? == T.GetRequest(old(Model())).1.Ok?
      ensures r.Err? ==> r.error == OutOfResources
      ensures r.Ok? ==> r.value == total
                        && T.GetRequest(old(Model())).1.value
                           == (if bodyBytes == null then [] else bodyBytes[..r.value])
    {
      state := T.HandlingRequest;
      var capacity := if bodyBytes == null then 0 else bodyBytes.Length;
      if total > capacity {
        return Err(OutOfResources);
      }
      return Ok(total);
    }

    /** The response body is the first `length` bytes of `body`; null for no body. */
    method SetResponse(st: byte, body: array?<byte>, length: u16)
      requires Valid() && state == T.HandlingRequest
      requires if body == null then length == 0 else length <= body.Length
      modifies this
      ensures Valid() && bodyBytes == old(bodyBytes) && responseBytes == body
      ensures Model() == T.SetResponse(old(Model()), st, if body == null then None else Some(body[..length]))
    {
      state := T.WaitingForInitialRead;
      status := st;
      responseBytes := body;
      responseTotal := length;
      responseOffset := 0;
    }

    /** Writes the next fragment to `bytes`; returns its length and whether it is the last one. */
    method HandleRead(bytes: array<byte>, maxBytes: nat) returns (r: T.ReadOutcome)
      requires Valid() && maxBytes <= bytes.Length && bytes != bodyBytes && bytes != responseBytes
      modifies this, bytes
      ensures Valid() && (Model(), r) == T.HandleRead(old(Model()), maxBytes)
      ensures r.Frame? ==> |r.bytes| <= maxBytes && bytes[..|r.bytes|] == r.bytes
      ensures bodyBytes == old(bodyBytes) && responseBytes == old(responseBytes)
    {
      match state {
        case WaitingForInitialRead =>
          r := WriteFirstFragment(bytes, maxBytes);
        case WritingResponse =>
          r := WriteContinuation(bytes, maxBytes);
        case _ =>
          return T.ReadFailed(InvalidState);
      }
    }

    method WriteFirstFragment(bytes: array<byte>, maxBytes: nat) returns (r: T.ReadOutcome)
      requires Valid() && state.WaitingForInitialRead?
      requires maxBytes <= bytes.Length && bytes != bodyBytes && bytes != responseBytes
      modifies this`state, this`responseOffset, bytes
      ensures Valid() && (Model(), r) == T.HandleRead(old(Model()), maxBytes)
      ensures r.Frame? ==> |r.bytes| <= maxBytes && bytes[..|r.bytes|] == r.bytes
    {
      state := T.WritingResponse;
      var header := 3;
      if responseTotal != 0 {
        header := header + 2;
      }
      if maxBytes < header {
        return T.ReadFailed(OutOfResources);
      }
      var n: nat := responseTotal;
      if maxBytes - header < n {
        n := maxBytes - header;
      }
      var piece := ResponsePiece(0, n);
      var pdu := ResponsePDU(tid, status, Body(responseTotal, if responseBytes == null then None else Some(piece)));
      var length := Serialize(pdu, bytes, maxBytes);
      if length.Err? {
        return T.ReadFailed(OutOfResources);
      }
      responseOffset := responseOffset + n;
      return T.Frame(bytes[..length.value], responseOffset == responseTotal);
    }

    method WriteContinuation(bytes: array<byte>, maxBytes: nat) returns (r: T.ReadOutcome)
      requires Valid() && state.WritingResponse?
      requires maxBytes <= bytes.Length && bytes != bodyBytes && bytes != responseBytes
      modifies this`responseOffset, bytes
      ensures Valid() && (Model(), r) == T.HandleRead(old(Model()), maxBytes)
      ensures r.Frame? ==> |r.bytes| <= maxBytes && bytes[..|r.bytes|] == r.bytes
    {
      if maxBytes < 2 {
        return T.ReadFailed(OutOfResources);
      }
      var n := responseTotal - responseOffset;
      if maxBytes - 2 < n {
        n := maxBytes - 2;
      }
      if responseBytes == null {
        return T.ReadAsserts;
      }
      var piece := ResponsePiece(responseOffset, n);
      var pdu := ContinuationPDU(Response, tid, Body(responseTotal, Some(piece)));
      var length := Serialize(pdu, bytes, maxBytes);
      responseOffset := responseOffset + n;
      return T.Frame(bytes[..length.value], responseOffset == responseTotal);
    }

    /** `n` bytes of the response body from `start`. */
    method ResponsePiece(start: nat, n: nat) returns (piece: seq<byte>)
      requires Valid() && start + n <= responseTotal
      ensures |piece| == n
      ensures responseBytes != null ==> piece == Model().response.value[start..start + n]
    {
      if responseBytes == null {
        return [];
      }
      piece := responseBytes[start..start + n];
      ghost var body := responseBytes[..responseTotal];
      assert forall k :: 0 <= k < n ==> piece[k] == body[start + k];
    }
  }
}
