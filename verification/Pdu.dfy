/**
  HAP-BLE PDUs (section 7.3.3 of the HomeKit Accessory Protocol Specification R14): the wire format
  as a pair of functions, and the pointer-advancing code proved against them.
*/
module Pdu {
  import opened Base

  datatype FragmentationStatus = FirstFragment | Continuation

  datatype PduType = Request | Response

  /** `bytes` is None when the PDU carries no body; `total` counts the body over all fragments. */
  datatype Body = Body(total: u16, bytes: Option<seq<byte>>)

  datatype PDU =
    | RequestPDU(opcode: byte, tid: byte, iid: u16, body: Body)
    | ResponsePDU(tid: byte, status: byte, body: Body)
    | ContinuationPDU(pduType: PduType, tid: byte, body: Body)

  const NO_BODY := Body(0, None)

  function Fragment(body: Body): (b: seq<byte>) {
    if body.bytes.Some? then body.bytes.value else []
  }

  /** What the serializer demands: the fragment is not longer than the whole body. */
  predicate Serializable(p: PDU) {
    |Fragment(p.body)| <= p.body.total
  }

  // ------------------------------------------------------------------ the wire format

  datatype ControlField = ControlField(status: FragmentationStatus, pduType: PduType)

  function EncodeControl(c: ControlField): byte {
    (if c.status.Continuation? then 0x80 else 0) + (if c.pduType.Response? then 0x02 else 0)
  }

  function EncodeBody(body: Body): seq<byte> {
    if body.bytes.None? then [] else WriteLittle16(body.total) + body.bytes.value
  }

  /** Control field and fixed parameters. */
  function Header(p: PDU): (b: seq<byte>) {
    match p
    case RequestPDU(opcode, tid, iid, _) =>
      [EncodeControl(ControlField(FirstFragment, Request)), opcode, tid] + WriteLittle16(iid)
    case ResponsePDU(tid, status, _) =>
      [EncodeControl(ControlField(FirstFragment, Response)), tid, status]
    case ContinuationPDU(pduType, tid, _) =>
      [EncodeControl(ControlField(Continuation, pduType)), tid]
  }

  /** A continuation does not repeat the length of the body. */
  function Encode(p: PDU): (b: seq<byte>) {
    Header(p) + if p.ContinuationPDU? then Fragment(p.body) else EncodeBody(p.body)
  }

  /** Reserved bits 6-4 zero, type bits 3-1 zero or one, length bit 0 zero. */
  function ParseControl(c: byte): (r: Result<ControlField>)
    ensures r.Ok? ==> EncodeControl(r.value) == c
    ensures r.Err? ==> forall f: ControlField :: EncodeControl(f) != c
  {
    if c / 16 % 8 != 0 || c / 2 % 8 > 1 || c % 2 != 0 then Err(InvalidData)
    else Ok(ControlField(if c / 128 == 1 then Continuation else FirstFragment,
                         if c / 2 % 8 == 1 then Response else Request))
  }

  function ParseBody(b: seq<byte>): Result<Body> {
    if b == [] then Ok(NO_BODY)
    else if |b| < 2 || |b| - 2 > ReadLittle16(b) then Err(InvalidData)
    else Ok(Body(ReadLittle16(b), Some(b[2..])))
  }

  function ParseFirst(b: seq<byte>): (r: Result<PDU>)
    ensures r.Ok? ==> !r.value.ContinuationPDU? && Serializable(r.value)
  {
    if |b| < 1 || ParseControl(b[0]).Err? || ParseControl(b[0]).value.status != FirstFragment then Err(InvalidData)
    else if ParseControl(b[0]).value.pduType == Request then
      if |b| < 5 || ParseBody(b[5..]).Err? then Err(InvalidData)
      else Ok(RequestPDU(b[1], b[2], ReadLittle16(b[3..5]), ParseBody(b[5..]).value))
    else
      if |b| < 3 || ParseBody(b[3..]).Err? then Err(InvalidData)
      else Ok(ResponsePDU(b[1], b[2], ParseBody(b[3..]).value))
  }

  /** `total` is the length of the whole body, `soFar` what earlier fragments carried. */
  function ParseContinuation(b: seq<byte>, pduType: PduType, total: u16, soFar: nat): (r: Result<PDU>)
    requires soFar <= total
    ensures r.Ok? ==> r.value.ContinuationPDU? && r.value.pduType == pduType
    ensures r.Ok? ==> r.value.body.total == total && |Fragment(r.value.body)| <= total - soFar
  {
    if |b| < 2 || ParseControl(b[0]) != Ok(ControlField(Continuation, pduType)) then Err(InvalidData)
    else if |b| - 2 > total - soFar then Err(InvalidData)
    else Ok(ContinuationPDU(pduType, b[1], Body(total, if |b| == 2 then None else Some(b[2..]))))
  }

  /** The fields in their places; lengths and instance IDs are little endian. */
  lemma PduLayout(p: PDU)
    ensures var b := Encode(p);
            match p
            case RequestPDU(opcode, tid, iid, body) =>
              b[0] == 0x00 && b[1] == opcode && b[2] == tid && IsLittleEndian(b[3..5], iid) && IsBodyAt(b, 5, body)
            case ResponsePDU(tid, status, body) =>
              b[0] == 0x02 && b[1] == tid && b[2] == status && IsBodyAt(b, 3, body)
            case ContinuationPDU(pduType, tid, body) =>
              b[0] == (if pduType.Request? then 0x80 else 0x82) && b[1] == tid && b[2..] == Fragment(body)
  {
    var b := Encode(p);
    match p
    case RequestPDU(opcode, tid, iid, body) =>
      assert b[3..5] == WriteLittle16(iid);
      assert b[5..] == EncodeBody(body);
      assert body.bytes.Some? ==> b[5..7] == WriteLittle16(body.total) && b[7..] == body.bytes.value;
    case ResponsePDU(tid, status, body) =>
      assert b[3..] == EncodeBody(body);
      assert body.bytes.Some? ==> b[3..5] == WriteLittle16(body.total) && b[5..] == body.bytes.value;
    case ContinuationPDU(_, _, _) =>
  }

  /** A body with its length in front, or nothing. */
  predicate IsBodyAt(b: seq<byte>, at: nat, body: Body) {
    if body.bytes.None? then |b| == at
    else |b| >= at + 2 && IsLittleEndian(b[at..at + 2], body.total) && b[at + 2..] == body.bytes.value
  }

  // ------------------------------------------------------------------ round trips

  lemma ControlRoundTrip(c: ControlField)
    ensures ParseControl(EncodeControl(c)) == Ok(c)
  {
    assert ParseControl(EncodeControl(c)).Ok?;
  }

  lemma BodyRoundTrip(body: Body)
    requires |Fragment(body)| <= body.total
    ensures ParseBody(EncodeBody(body)) == Ok(if body.bytes.None? then NO_BODY else body)
  {
    if body.bytes.Some? {
      var b := EncodeBody(body);
      assert b[..2] == WriteLittle16(body.total);
      assert b[2..] == body.bytes.value;
    }
  }

  /**
    Parsing a serialized first fragment returns it, "no body" distinct from "empty body", exactly
    when an absent body does not claim a length: that length is never written.
  */
  lemma FirstRoundTrip(p: PDU)
    requires !p.ContinuationPDU? && Serializable(p)
    ensures ParseFirst(Encode(p)).Ok?
    ensures ParseFirst(Encode(p)) == Ok(p) <==> (p.body.bytes.None? ==> p.body.total == 0)
  {
    BodyRoundTrip(p.body);
    var b := Encode(p);
    match p
    case RequestPDU(opcode, tid, iid, body) =>
      ControlRoundTrip(ControlField(FirstFragment, Request));
      assert b[3..5] == WriteLittle16(iid);
      assert b[5..] == EncodeBody(body);
    case ResponsePDU(tid, status, body) =>
      ControlRoundTrip(ControlField(FirstFragment, Response));
      assert b[3..] == EncodeBody(body);
  }

  /**
    A serialized continuation is accepted at any running count that leaves room for it, and comes
    back as it was unless it was an empty fragment: that one comes back without a body.
  */
  lemma ContinuationRoundTrip(p: PDU, soFar: nat)
    requires p.ContinuationPDU? && soFar + |Fragment(p.body)| <= p.body.total
    ensures var r := ParseContinuation(Encode(p), p.pduType, p.body.total, soFar);
            && r.Ok? && r.value.tid == p.tid && Fragment(r.value.body) == Fragment(p.body)
            && (r == Ok(p) <==> p.body.bytes != Some([]))
  {
    ControlRoundTrip(ControlField(Continuation, p.pduType));
    assert Encode(p)[2..] == Fragment(p.body);
  }

  /** Every accepted first fragment is re-serialized to the very same bytes. */
  lemma FirstReserialized(b: seq<byte>)
    requires ParseFirst(b).Ok?
    ensures Encode(ParseFirst(b).value) == b
  {
    var p := ParseFirst(b).value;
    var start := if p.RequestPDU? then 5 else 3;
    var rest := b[start..];
    if rest != [] {
      ReadLittle16Injective(rest[..2]);
      assert rest == WriteLittle16(ReadLittle16(rest)) + rest[2..];
    }
    assert EncodeBody(p.body) == rest;
    assert b == b[..start] + rest;
    if p.RequestPDU? {
      ReadLittle16Injective(b[3..5]);
      assert b[..5] == [b[0], b[1], b[2]] + b[3..5];
    } else {
      assert b[..3] == [b[0], b[1], b[2]];
    }
  }

  /** Every accepted continuation is re-serialized to the very same bytes. */
  lemma ContinuationReserialized(b: seq<byte>, pduType: PduType, total: u16, soFar: nat)
    requires soFar <= total && ParseContinuation(b, pduType, total, soFar).Ok?
    ensures Encode(ParseContinuation(b, pduType, total, soFar).value) == b
  {
    assert b == [b[0], b[1]] + b[2..];
  }

  // ------------------------------------------------------------------ the code

  method DeserializeControlField(c: byte) returns (r: Result<ControlField>)
    ensures r == ParseControl(c)
  {
    if c / 0x10 % 8 != 0 {
      return Err(InvalidData);
    }
    var status := if c / 0x80 == 0 then FirstFragment else Continuation;
    var pduType;
    match c / 2 % 8 {
      case 0 => pduType := Request;
      case 1 => pduType := Response;
      case _ => return Err(InvalidData);
    }
    if c % 2 != 0 {
      return Err(InvalidData);
    }
    return Ok(ControlField(status, pduType));
  }

  /** `b` is the read position, `remaining` the bytes behind it. */
  method DeserializeBody(bytes: seq<byte>, start: nat) returns (r: Result<Body>)
    requires start <= |bytes|
    ensures r == ParseBody(bytes[start..])
  {
    var b, remaining := start, |bytes| - start;
    if remaining == 0 {
      return Ok(Body(0, None));
    }
    if remaining < 2 {
      return Err(InvalidData);
    }
    var total := ReadLittle16(bytes[b..]);
    b, remaining := b + 2, remaining - 2;
    var numBytes := if remaining < total then remaining else total;
    var fragment := bytes[b..b + numBytes];
    b, remaining := b + numBytes, remaining - numBytes;
    if remaining != 0 {
      return Err(InvalidData);
    }
    assert fragment == bytes[start..][2..];
    return Ok(Body(total, Some(fragment)));
  }

  method Deserialize(bytes: seq<byte>) returns (r: Result<PDU>)
    ensures r == ParseFirst(bytes)
  {
    var b, remaining := 0, |bytes|;
    if remaining < 1 {
      return Err(InvalidData);
    }
    var control := DeserializeControlField(bytes[b]);
    if control.Err? || control.value.status != FirstFragment {
      return Err(InvalidData);
    }
    b, remaining := b + 1, remaining - 1;
    if control.value.pduType == Request {
      if remaining < 4 {
        return Err(InvalidData);
      }
      var opcode, tid, iid := bytes[b], bytes[b + 1], ReadLittle16(bytes[b + 2..b + 4]);
      b, remaining := b + 4, remaining - 4;
      var body := DeserializeBody(bytes, b);
      return if body.Err? then Err(InvalidData) else Ok(RequestPDU(opcode, tid, iid, body.value));
    } else {
      if remaining < 2 {
        return Err(InvalidData);
      }
      var tid, status := bytes[b], bytes[b + 1];
      b, remaining := b + 2, remaining - 2;
      var body := DeserializeBody(bytes, b);
      return if body.Err? then Err(InvalidData) else Ok(ResponsePDU(tid, status, body.value));
    }
  }

  method DeserializeContinuation(bytes: seq<byte>, typeOfFirstFragment: PduType, total: u16, soFar: nat)
    returns (r: Result<PDU>)
    requires soFar <= total
    ensures r == ParseContinuation(bytes, typeOfFirstFragment, total, soFar)
  {
    var b, remaining := 0, |bytes|;
    if remaining < 1 {
      return Err(InvalidData);
    }
    var control := DeserializeControlField(bytes[b]);
    if control.Err? || control.value.status != Continuation || control.value.pduType != typeOfFirstFragment {
      return Err(InvalidData);
    }
    b, remaining := b + 1, remaining - 1;
    if remaining < 1 {
      return Err(InvalidData);
    }
    var tid := bytes[b];
    b, remaining := b + 1, remaining - 1;
    var fragment: Option<seq<byte>> := None;
    assert bytes[b..b + remaining] == bytes[b..];
    if remaining != 0 && remaining <= total - soFar {
      fragment := Some(bytes[b..b + remaining]);
      b, remaining := b + remaining, 0;
    }
    if remaining != 0 {
      return Err(InvalidData);
    }
    return Ok(ContinuationPDU(typeOfFirstFragment, tid, Body(total, fragment)));
  }

  /** Copies `s` to `bytes[b..]`. */
  method CopyBytes(bytes: array<byte>, b: nat, s: seq<byte>)
    requires b + |s| <= bytes.Length
    modifies bytes
    ensures bytes[..] == old(bytes[..b]) + s + old(bytes[b + |s|..])
    ensures forall k :: 0 <= k < bytes.Length && !(b <= k < b + |s|) ==> bytes[k] == old(bytes[k])
  {
    forall k | 0 <= k < |s| {
      bytes[b + k] := s[k];
    }
  }

  method SerializeHeader(p: PDU, bytes: array<byte>, maxBytes: nat) returns (r: Result<nat>)
    requires maxBytes <= bytes.Length
    modifies bytes
    ensures r == if |Header(p)| <= maxBytes then Ok(|Header(p)|) else Err(OutOfResources)
    ensures r.Ok? ==> bytes[..] == Header(p) + old(bytes[|Header(p)|..])
    ensures forall k :: maxBytes <= k < bytes.Length ==> bytes[k] == old(bytes[k])
  {
    ghost var was := bytes[..];
    var b, remaining := 0, maxBytes;
    HeaderParts(p);
    if remaining < 1 {
      return Err(OutOfResources);
    }
    CopyBytes(bytes, b, [Control(p)]);
    ghost var now := bytes[..];
    b, remaining := b + 1, remaining - 1;
    var fixedParams := FixedParams(p);
    if remaining < |fixedParams| {
      return Err(OutOfResources);
    }
    CopyBytes(bytes, b, fixedParams);
    TwoParts(was, now, bytes[..], [Control(p)], fixedParams);
    b, remaining := b + |fixedParams|, remaining - |fixedParams|;
    return Ok(b);
  }

  function Control(p: PDU): byte {
    EncodeControl(ControlField(if p.ContinuationPDU? then Continuation else FirstFragment,
                               if p.ContinuationPDU? then p.pduType else if p.RequestPDU? then Request else Response))
  }

  function FixedParams(p: PDU): seq<byte> {
    match p
    case RequestPDU(opcode, tid, iid, _) => [opcode, tid] + WriteLittle16(iid)
    case ResponsePDU(tid, status, _) => [tid, status]
    case ContinuationPDU(_, tid, _) => [tid]
  }

  lemma HeaderParts(p: PDU)
    ensures Header(p) == [Control(p)] + FixedParams(p)
  {
  }

  /** Two copies in a row, at the start of a buffer. */
  lemma TwoParts(was: seq<byte>, now: seq<byte>, last: seq<byte>, a: seq<byte>, b: seq<byte>)
    requires |a| + |b| <= |was| && now == a + was[|a|..] && last == now[..|a|] + b + now[|a| + |b|..]
    ensures last == (a + b) + was[|a + b|..]
  {
  }

  /** Writes the optional body of a first fragment at `start`. */
  method SerializeBody(body: Body, bytes: array<byte>, start: nat, maxBytes: nat) returns (r: Result<nat>)
    requires start <= maxBytes <= bytes.Length
    modifies bytes
    ensures r == if start + |EncodeBody(body)| <= maxBytes then Ok(start + |EncodeBody(body)|) else Err(OutOfResources)
    ensures r.Ok? ==> bytes[..] == old(bytes[..start]) + EncodeBody(body) + old(bytes[start + |EncodeBody(body)|..])
    ensures forall k :: maxBytes <= k < bytes.Length ==> bytes[k] == old(bytes[k])
  {
    var b, remaining := start, maxBytes - start;
    if body.bytes.Some? {
      if remaining < 2 {
        return Err(OutOfResources);
      }
      CopyBytes(bytes, b, WriteLittle16(body.total));
      b, remaining := b + 2, remaining - 2;
      if remaining < |body.bytes.value| {
        return Err(OutOfResources);
      }
      CopyBytes(bytes, b, body.bytes.value);
      b, remaining := b + |body.bytes.value|, remaining - |body.bytes.value|;
    }
    return Ok(b);
  }

  /**
    Fails exactly when the encoding does not fit into `maxBytes`; on success the buffer starts with
    the encoding and is otherwise untouched.
  */
  method Serialize(p: PDU, bytes: array<byte>, maxBytes: nat) returns (r: Result<nat>)
    requires Serializable(p) && maxBytes <= bytes.Length
    modifies bytes
    ensures r == if |Encode(p)| <= maxBytes then Ok(|Encode(p)|) else Err(OutOfResources)
    ensures r.Ok? ==> bytes[..] == Encode(p) + old(bytes[|Encode(p)|..])
    ensures forall k :: maxBytes <= k < bytes.Length ==> bytes[k] == old(bytes[k])
  {
    var h := SerializeHeader(p, bytes, maxBytes);
    if h.Err? {
      return h;
    }
    var b, remaining := h.value, maxBytes - h.value;
    assert bytes[..b] == Header(p);
    if p.ContinuationPDU? {
      if remaining < |Fragment(p.body)| {
        return Err(OutOfResources);
      }
      if |Fragment(p.body)| != 0 {
        CopyBytes(bytes, b, Fragment(p.body));
        b, remaining := b + |Fragment(p.body)|, remaining - |Fragment(p.body)|;
      }
      return Ok(maxBytes - remaining);
    }
    r := SerializeBody(p.body, bytes, b, maxBytes);
  }
}
