/**
  HAP-BLE transactions: requests are collected fragment by fragment into a body buffer, responses
  are sent fragment by fragment. First the machine on values, then its reassembly properties.
*/
module Transaction {
  import opened Base
  import opened Pdu

  datatype State =
    | WaitingForInitialWrite | ReadingRequest | HandlingRequest | WaitingForInitialRead | WritingResponse

  /**
    `buffer` is None for a NULL body buffer of capacity 0. `response` is None when the response has
    no body; `sent` counts the response bytes already sent.
  */
  datatype Tx = Tx(state: State, opcode: byte, tid: byte, iid: u16, total: u16, offset: nat,
                   buffer: Option<seq<byte>>, status: byte, response: Option<seq<byte>>, sent: nat)

  /** `Undetermined`: memory has been overwritten that the operation does not own. */
  datatype Outcome = Done | Failed(error: Error) | AssertionFailed | Undetermined

  datatype ReadOutcome =
    | Frame(bytes: seq<byte>, isFinal: bool)
    | ReadFailed(error: Error)
    | ReadAsserts
    | ReadUndetermined

  function Create(buffer: Option<seq<byte>>): Tx {
    Tx(WaitingForInitialWrite, 0, 0, 0, 0, 0, buffer, 0, None, 0)
  }

  function Capacity(t: Tx): nat {
    if t.buffer.Some? then |t.buffer.value| else 0
  }

  function Overwrite(s: seq<byte>, at: nat, f: seq<byte>): (r: seq<byte>)
    requires at + |f| <= |s|
    ensures |r| == |s|
  {
    s[..at] + f + s[at + |f|..]
  }

  /** A body longer than the buffer is skipped; its fragments are only counted. */
  function Append(t: Tx, fragment: Option<seq<byte>>): (Tx, Outcome)
    requires t.offset + |Fragment(Body(0, fragment))| <= t.total
  {
    var n := |Fragment(Body(0, fragment))|;
    if t.total > Capacity(t) || fragment.None? then (t.(offset := t.offset + n), Done)
    else if t.buffer.None? then (t, AssertionFailed)
    else (t.(buffer := Some(Overwrite(t.buffer.value, t.offset, fragment.value)), offset := t.offset + n), Done)
  }

  predicate Valid(t: Tx) {
    && t.offset <= t.total
    && (t.response.Some? ==> |t.response.value| <= UINT16_MAX && t.sent <= |t.response.value|)
    && (t.response.None? || !t.state.WritingResponse? ==> t.sent == 0)
  }

  function HandleWrite(t: Tx, bytes: seq<byte>): (r: (Tx, Outcome))
    requires Valid(t)
    ensures Valid(r.0) && r.0.buffer.Some? == t.buffer.Some? && Capacity(r.0) == Capacity(t)
  {
    match t.state
    case WaitingForInitialWrite =>
      var p := ParseFirst(bytes);
      if p.Err? || p.value.ResponsePDU? then (t.(state := ReadingRequest), Failed(InvalidData))
      else
        var q := p.value;
        Append(t.(state := ReadingRequest, opcode := q.opcode, tid := q.tid, iid := q.iid,
                  total := q.body.total, offset := 0), q.body.bytes)
    case ReadingRequest =>
      var p := ParseContinuation(bytes, Request, t.total, t.offset);
      if p.Err? || p.value.tid != t.tid then (t, Failed(InvalidData))
      else Append(t, p.value.body.bytes)
    case HandlingRequest =>
      HandleTrailingWrite(t, bytes)
    case WaitingForInitialRead =>
      HandleTrailingWrite(t, bytes)
    case WritingResponse => (t, Failed(InvalidState))
  }

  /**
    The first byte of the union that holds request and response: the TID of a response, but until the
    response is set the opcode of the request.
  */
  function ResponseTid(t: Tx): byte {
    if t.state.HandlingRequest? then t.opcode else t.tid
  }

  /** After the request only empty continuations are accepted. */
  function HandleTrailingWrite(t: Tx, bytes: seq<byte>): (r: (Tx, Outcome))
    ensures r.0 == t
  {
    var p := ParseContinuation(bytes, Request, 0, 0);
    if p.Err? || p.value.tid != ResponseTid(t) then (t, Failed(InvalidData)) else (t, Done)
  }

  /** Which frame that is; while the request is handled, its opcode stands in for the TID. */
  lemma TrailingWrites(t: Tx, bytes: seq<byte>)
    requires Valid(t) && (t.state.HandlingRequest? || t.state.WaitingForInitialRead?)
    ensures var tid := if t.state.HandlingRequest? then t.opcode else t.tid;
            HandleWrite(t, bytes) == (t, if bytes == [0x80, tid] then Done else Failed(InvalidData))
  {
  }

  predicate IsRequestAvailable(t: Tx) {
    t.state.ReadingRequest? && t.offset == t.total
  }

  /** The collected body, or OutOfResources when it did not fit into the buffer. */
  function GetRequest(t: Tx): (r: (Tx, Result<seq<byte>>))
    requires IsRequestAvailable(t)
    ensures Valid(t) ==> Valid(r.0)
  {
    var t1 := t.(state := HandlingRequest);
    if t.total > Capacity(t) then (t1, Err(OutOfResources))
    else (t1, Ok(if t.buffer.Some? then t.buffer.value[..t.total] else []))
  }

  function SetResponse(t: Tx, status: byte, body: Option<seq<byte>>): (r: Tx)
    requires Valid(t) && t.state.HandlingRequest? && (body.Some? ==> |body.value| <= UINT16_MAX)
    ensures Valid(r)
  {
    t.(state := WaitingForInitialRead, status := status, response := body, sent := 0)
  }

  function ResponseTotal(t: Tx): nat {
    if t.response.Some? then |t.response.value| else 0
  }

  function Min(a: nat, b: nat): nat {
    if a < b then a else b
  }

  function HandleRead(t: Tx, maxBytes: nat): (r: (Tx, ReadOutcome))
    requires Valid(t)
    ensures Valid(r.0)
  {
    var total := ResponseTotal(t);
    match t.state
    case WaitingForInitialRead =>
      var header := 3 + if total > 0 then 2 else 0;
      var t1 := t.(state := WritingResponse);
      if maxBytes < header then (t1, ReadFailed(OutOfResources))
      else
        var n := Min(maxBytes - header, total);
        var p := ResponsePDU(t.tid, t.status,
                             Body(total, if t.response.Some? then Some(t.response.value[..n]) else None));
        if |Encode(p)| > maxBytes then (t1, ReadFailed(OutOfResources))
        else (t1.(sent := t.sent + n), Frame(Encode(p), t.sent + n == total))
    case WritingResponse =>
      if maxBytes < 2 then (t, ReadFailed(OutOfResources))
      else if t.response.None? then (t, ReadAsserts)
      else
        var n := Min(maxBytes - 2, total - t.sent);
        var p := ContinuationPDU(Response, t.tid, Body(total, Some(t.response.value[t.sent..t.sent + n])));
        (t.(sent := t.sent + n), Frame(Encode(p), t.sent + n == total))
    case _ => (t, ReadFailed(InvalidState))
  }

  /** A fragment takes the whole capacity of a read, unless it is the final one. */
  lemma FragmentsAreFull(t: Tx, maxBytes: nat)
    requires Valid(t) && HandleRead(t, maxBytes).1.Frame?
    ensures var o := HandleRead(t, maxBytes).1;
            |o.bytes| <= maxBytes && (!o.isFinal && maxBytes >= 5 ==> |o.bytes| == maxBytes)
  {
  }

  /** Out of turn nothing is accepted: writes while a response is sent, reads before there is one. */
  lemma OutOfTurn(t: Tx, bytes: seq<byte>, maxBytes: nat)
    requires Valid(t)
    ensures t.state.WritingResponse? ==> HandleWrite(t, bytes) == (t, Failed(InvalidState))
    ensures !t.state.WaitingForInitialRead? && !t.state.WritingResponse? ==>
              HandleRead(t, maxBytes) == (t, ReadFailed(InvalidState))
  {
  }

  // ------------------------------------------------------------------ request reassembly

  function Concat(pieces: seq<seq<byte>>): seq<byte> {
    if pieces == [] then [] else pieces[0] + Concat(pieces[1..])
  }

  /** The frames a controller sends for one request: a first fragment, then continuations. */
  function FirstFrame(opcode: byte, tid: byte, iid: u16, total: u16, piece: seq<byte>): seq<byte> {
    Encode(RequestPDU(opcode, tid, iid, Body(total, Some(piece))))
  }

  function ContinuationFrame(tid: byte, total: u16, piece: seq<byte>): seq<byte> {
    Encode(ContinuationPDU(Request, tid, Body(total, Some(piece))))
  }

  function WriteAll(t: Tx, frames: seq<seq<byte>>): (r: (Tx, Outcome))
    requires Valid(t)
    ensures Valid(r.0)
    decreases |frames|
  {
    if frames == [] then (t, Done)
    else
      var r := HandleWrite(t, frames[0]);
      if r.1 != Done then r else WriteAll(r.0, frames[1..])
  }

  function ContinuationFrames(tid: byte, total: u16, pieces: seq<seq<byte>>): (f: seq<seq<byte>>)
    ensures |f| == |pieces|
  {
    if pieces == [] then []
    else [ContinuationFrame(tid, total, pieces[0])] + ContinuationFrames(tid, total, pieces[1..])
  }

  /** What a transaction holds after `done` bytes of a body that fits into its buffer. */
  predicate Holds(t: Tx, done: seq<byte>) {
    t.state.ReadingRequest? && t.offset == |done| <= t.total
    && (t.total <= Capacity(t) && done != [] ==> t.buffer.Some? && t.buffer.value[..t.offset] == done)
  }

  /** `r` differs from `t` only in what it has collected. */
  predicate Extends(t: Tx, r: Tx) {
    r == t.(buffer := r.buffer, offset := r.offset) && Capacity(r) == Capacity(t) && r.buffer.Some? == t.buffer.Some?
  }

  lemma HoldsMore(t: Tx, r: Tx, last: Tx, done: seq<byte>, piece: seq<byte>, rest: seq<byte>)
    requires Extends(t, r) && Extends(r, last) && Holds(last, done + piece + rest)
    ensures Extends(t, last) && Holds(last, done + (piece + rest))
  {
    assert done + piece + rest == done + (piece + rest);
  }

  lemma AppendHolds(t: Tx, done: seq<byte>, fragment: Option<seq<byte>>)
    requires Holds(t, done) && |done| + |Fragment(Body(0, fragment))| <= t.total && (t.buffer.Some? || t.total > 0)
    ensures var r := Append(t, fragment);
            r.1 == Done && Holds(r.0, done + Fragment(Body(0, fragment))) && Extends(t, r.0)
  {
    var piece := Fragment(Body(0, fragment));
    if fragment.None? {
      assert done + piece == done;
    } else if t.total <= Capacity(t) {
      var b := Overwrite(t.buffer.value, t.offset, piece);
      assert b[..t.offset + |piece|] == t.buffer.value[..t.offset] + piece;
      if done == [] {
        assert done + piece == piece;
      }
    }
  }

  lemma ContinuationWritten(t: Tx, done: seq<byte>, piece: seq<byte>)
    requires Valid(t) && Holds(t, done) && |done| + |piece| <= t.total && (t.buffer.Some? || t.total > 0)
    ensures var r := HandleWrite(t, ContinuationFrame(t.tid, t.total, piece));
            r.1 == Done && Holds(r.0, done + piece) && Extends(t, r.0)
  {
    var p := ContinuationPDU(Request, t.tid, Body(t.total, Some(piece)));
    ContinuationRoundTrip(p, t.offset);
    AppendHolds(t, done, ParseContinuation(Encode(p), Request, t.total, t.offset).value.body.bytes);
  }

  lemma WriteAllStep(t: Tx, frame: seq<byte>, rest: seq<seq<byte>>)
    requires Valid(t) && HandleWrite(t, frame).1 == Done
    ensures WriteAll(t, [frame] + rest) == WriteAll(HandleWrite(t, frame).0, rest)
  {
    assert ([frame] + rest)[1..] == rest;
  }

  lemma WriteAllOne(t: Tx, frame: seq<byte>)
    requires Valid(t)
    ensures WriteAll(t, [frame]) == HandleWrite(t, frame)
  {
    var r := HandleWrite(t, frame);
    assert [frame][1..] == [];
    assert WriteAll(r.0, []) == (r.0, Done);
  }

  lemma {:induction false} ContinuationsReassemble(t: Tx, done: seq<byte>, pieces: seq<seq<byte>>)
    requires Valid(t) && Holds(t, done) && |done| + |Concat(pieces)| <= t.total
    requires t.buffer.Some? || t.total > 0
    ensures var r := WriteAll(t, ContinuationFrames(t.tid, t.total, pieces));
            r.1 == Done && Holds(r.0, done + Concat(pieces)) && Extends(t, r.0)
    decreases |pieces|
  {
    if pieces == [] {
      assert done + [] == done;
    } else {
      var frame := ContinuationFrame(t.tid, t.total, pieces[0]);
      var r := HandleWrite(t, frame).0;
      ContinuationWritten(t, done, pieces[0]);
      WriteAllStep(t, frame, ContinuationFrames(t.tid, t.total, pieces[1..]));
      ContinuationsReassemble(r, done + pieces[0], pieces[1..]);
      var rest := WriteAll(r, ContinuationFrames(t.tid, t.total, pieces[1..])).0;
      HoldsMore(t, r, rest, done, pieces[0], Concat(pieces[1..]));
    }
  }

  /**
    For every body and every split into a first fragment and continuations, each serialized
    fragment is accepted, the request becomes available exactly at the end, and what the handler
    gets is the header and the body, or OutOfResources when the body exceeds the buffer.
  */
  lemma RequestReassembles(buffer: Option<seq<byte>>, opcode: byte, tid: byte, iid: u16,
                           first: seq<byte>, pieces: seq<seq<byte>>)
    requires |first + Concat(pieces)| <= UINT16_MAX
    requires buffer.Some? || first + Concat(pieces) != []
    ensures var body := first + Concat(pieces);
            var r := WriteAll(Create(buffer),
                              [FirstFrame(opcode, tid, iid, |body|, first)] + ContinuationFrames(tid, |body|, pieces));
            && r.1 == Done && IsRequestAvailable(r.0)
            && r.0.opcode == opcode && r.0.tid == tid && r.0.iid == iid
            && GetRequest(r.0).1 == if |body| <= Capacity(Create(buffer)) then Ok(body) else Err(OutOfResources)
  {
    var body := first + Concat(pieces);
    var total: u16 := |body|;
    FirstRoundTrip(RequestPDU(opcode, tid, iid, Body(total, Some(first))));
    var t := Create(buffer).(state := ReadingRequest, opcode := opcode, tid := tid, iid := iid, total := total);
    AppendHolds(t, [], Some(first));
    assert [] + first == first;
    var frames := [FirstFrame(opcode, tid, iid, total, first)] + ContinuationFrames(tid, total, pieces);
    assert frames[1..] == ContinuationFrames(tid, total, pieces);
    var r := HandleWrite(Create(buffer), frames[0]);
    ContinuationsReassemble(r.0, first, pieces);
  }

  /**
    With no body buffer, as while a timed write is pending, the one request that is not merely
    counted is an explicitly empty body: storing it fails an assertion.
  */
  lemma NoBufferAssertsOnEmptyBody(p: PDU)
    requires p.RequestPDU? && Serializable(p) && (p.body.bytes.None? ==> p.body.total == 0)
    ensures HandleWrite(Create(None), Encode(p)).1 == AssertionFailed <==> p.body == Body(0, Some([]))
    ensures p.body != Body(0, Some([])) ==> HandleWrite(Create(None), Encode(p)).1 == Done
  {
    FirstRoundTrip(p);
  }

  // ------------------------------------------------------------------ everything accepted

  /** The body bytes of a frame, read off the wire format. */
  function FrameBody(frame: seq<byte>, isFirst: bool): seq<byte> {
    if isFirst then (if |frame| <= 7 then [] else frame[7..])
    else if |frame| <= 2 then [] else frame[2..]
  }

  function FrameBodies(frames: seq<seq<byte>>, isFirst: bool): seq<byte> {
    if frames == [] then [] else FrameBody(frames[0], isFirst) + FrameBodies(frames[1..], false)
  }

  lemma FirstFrameBody(frame: seq<byte>)
    requires ParseFirst(frame).Ok? && ParseFirst(frame).value.RequestPDU?
    ensures Fragment(ParseFirst(frame).value.body) == FrameBody(frame, true)
  {
    if |frame| >= 7 {
      assert frame[5..][2..] == frame[7..];
    }
  }

  lemma ContinuationAccepted(t: Tx, done: seq<byte>, frame: seq<byte>)
    requires Valid(t) && Holds(t, done) && (t.buffer.Some? || t.total > 0) && HandleWrite(t, frame).1 == Done
    ensures var r := HandleWrite(t, frame).0; Holds(r, done + FrameBody(frame, false)) && Extends(t, r)
  {
    var p := ParseContinuation(frame, Request, t.total, t.offset);
    assert Fragment(p.value.body) == FrameBody(frame, false);
    AppendHolds(t, done, p.value.body.bytes);
  }

  lemma {:induction false} AcceptedContinuations(t: Tx, done: seq<byte>, frames: seq<seq<byte>>)
    requires Valid(t) && Holds(t, done) && (t.buffer.Some? || t.total > 0)
    requires WriteAll(t, frames).1 == Done
    ensures var r := WriteAll(t, frames).0; Holds(r, done + FrameBodies(frames, false)) && Extends(t, r)
    decreases |frames|
  {
    if frames == [] {
      assert done + [] == done;
    } else {
      ContinuationAccepted(t, done, frames[0]);
      var r := HandleWrite(t, frames[0]).0;
      var piece := FrameBody(frames[0], false);
      AcceptedContinuations(r, done + piece, frames[1..]);
      HoldsMore(t, r, WriteAll(r, frames[1..]).0, done, piece, FrameBodies(frames[1..], false));
    }
  }

  /**
    Whatever frames are accepted, the bytes collected are those on the wire, they never exceed the
    announced total, and the buffer holds exactly them.
  */
  lemma AcceptedNeverExceedsTotal(buffer: seq<byte>, frames: seq<seq<byte>>)
    requires frames != [] && WriteAll(Create(Some(buffer)), frames).1 == Done
    ensures var r := WriteAll(Create(Some(buffer)), frames).0;
            && |FrameBodies(frames, true)| == r.offset <= r.total
            && r.buffer.Some? && |r.buffer.value| == |buffer|
            && (r.total <= |buffer| ==> r.buffer.value[..r.offset] == FrameBodies(frames, true))
  {
    var t := Create(Some(buffer));
    var q := ParseFirst(frames[0]).value;
    FirstFrameBody(frames[0]);
    var piece := FrameBody(frames[0], true);
    var t1 := t.(state := ReadingRequest, opcode := q.opcode, tid := q.tid, iid := q.iid, total := q.body.total);
    AppendHolds(t1, [], q.body.bytes);
    assert [] + piece == piece;
    AcceptedContinuations(HandleWrite(t, frames[0]).0, piece, frames[1..]);
  }

  // ------------------------------------------------------------------ response fragmentation

  /** Reads with the given capacities, up to and including the final fragment. */
  function ReadAll(t: Tx, capacities: seq<nat>): (r: (Tx, seq<seq<byte>>, ReadOutcome))
    requires Valid(t) && capacities != []
    decreases |capacities|
  {
    var (t1, o) := HandleRead(t, capacities[0]);
    if !o.Frame? then (t1, [], o)
    else if o.isFinal || |capacities| == 1 then (t1, [o.bytes], o)
    else
      var (t2, frames, last) := ReadAll(t1, capacities[1..]);
      (t2, [o.bytes] + frames, last)
  }

  /** What the controller has put together after some response fragments. */
  datatype Collected = Collected(tid: byte, status: byte, total: u16, body: seq<byte>)

  function CollectContinuations(c: Collected, frames: seq<seq<byte>>): Result<Collected>
    decreases |frames|
  {
    if frames == [] then Ok(c)
    else if |c.body| > c.total then Err(InvalidData)
    else
      var p := ParseContinuation(frames[0], Response, c.total, |c.body|);
      if p.Err? || p.value.tid != c.tid then Err(InvalidData)
      else CollectContinuations(c.(body := c.body + Fragment(p.value.body)), frames[1..])
  }

  function Collect(frames: seq<seq<byte>>): Result<Collected>
    requires frames != []
  {
    var p := ParseFirst(frames[0]);
    if p.Err? || p.value.RequestPDU? then Err(InvalidData)
    else
      var c := Collected(p.value.tid, p.value.status, p.value.body.total, Fragment(p.value.body));
      CollectContinuations(c, frames[1..])
  }

  function ResponseBody(t: Tx): seq<byte> {
    if t.response.Some? then t.response.value else []
  }

  /** A serialized continuation extends what has been collected by its fragment. */
  lemma ContinuationCollected(c: Collected, p: PDU, rest: seq<seq<byte>>)
    requires p.ContinuationPDU? && p.pduType == Response && p.tid == c.tid && p.body.total == c.total
    requires |c.body| + |Fragment(p.body)| <= c.total
    ensures CollectContinuations(c, [Encode(p)] + rest)
            == CollectContinuations(c.(body := c.body + Fragment(p.body)), rest)
  {
    ContinuationRoundTrip(p, |c.body|);
    assert ([Encode(p)] + rest)[1..] == rest;
  }

  /** One more response fragment. */
  lemma ContinuationRead(t: Tx, maxBytes: nat)
    requires Valid(t) && t.state.WritingResponse? && HandleRead(t, maxBytes).1.Frame?
    ensures var (t1, o) := HandleRead(t, maxBytes);
            && t.response.Some? && t1 == t.(sent := t1.sent) && t.sent <= t1.sent <= |t.response.value| && Valid(t1)
            && o.bytes == Encode(ContinuationPDU(Response, t.tid,
                                                 Body(|t.response.value|, Some(t.response.value[t.sent..t1.sent]))))
            && o.isFinal == (t1.sent == |t.response.value|)
  {
  }

  lemma ReadAllStep(t: Tx, capacities: seq<nat>)
    requires Valid(t) && capacities != [] && HandleRead(t, capacities[0]).1.Frame?
    ensures var (t1, o) := HandleRead(t, capacities[0]);
            ReadAll(t, capacities) ==
              if o.isFinal || |capacities| == 1 then (t1, [o.bytes], o)
              else var (t2, frames, last) := ReadAll(t1, capacities[1..]); (t2, [o.bytes] + frames, last)
  {
  }

  /** The bytes collected by one fragment. */
  lemma FragmentCollected(t: Tx, sent: nat, frame: seq<byte>, rest: seq<seq<byte>>)
    requires t.response.Some? && t.sent <= sent <= |t.response.value| <= UINT16_MAX
    requires frame == Encode(ContinuationPDU(Response, t.tid,
                                             Body(|t.response.value|, Some(t.response.value[t.sent..sent]))))
    ensures var c := Collected(t.tid, t.status, |t.response.value|, t.response.value[..t.sent]);
            CollectContinuations(c, [frame] + rest) == CollectContinuations(c.(body := t.response.value[..sent]), rest)
  {
    var body := t.response.value;
    var c := Collected(t.tid, t.status, |body|, body[..t.sent]);
    assert c.body + body[t.sent..sent] == body[..sent];
    ContinuationCollected(c, ContinuationPDU(Response, t.tid, Body(|body|, Some(body[t.sent..sent]))), rest);
  }

  lemma {:induction false} ContinuationsCollect(t: Tx, capacities: seq<nat>)
    requires Valid(t) && t.state.WritingResponse? && capacities != []
    requires ReadAll(t, capacities).2.Frame?
    ensures var r := ReadAll(t, capacities);
            var c := Collected(t.tid, t.status, ResponseTotal(t), ResponseBody(t)[..t.sent]);
            && Valid(r.0) && r.0 == t.(sent := r.0.sent)
            && CollectContinuations(c, r.1) == Ok(c.(body := ResponseBody(t)[..r.0.sent]))
            && (r.2.isFinal <==> r.0.sent == ResponseTotal(t))
    decreases |capacities|
  {
    var (t1, o) := HandleRead(t, capacities[0]);
    ReadAllStep(t, capacities);
    ContinuationRead(t, capacities[0]);
    if o.isFinal || |capacities| == 1 {
      FragmentCollected(t, t1.sent, o.bytes, []);
      assert [o.bytes] + [] == [o.bytes];
    } else {
      FragmentCollected(t, t1.sent, o.bytes, ReadAll(t1, capacities[1..]).1);
      ContinuationsCollect(t1, capacities[1..]);
    }
  }

  /**
    Whatever capacities the reads have, as long as none of them fails the controller collects the
    response's TID, status and body prefix sent so far, and the last fragment is final exactly when
    that prefix is the whole body.
  */
  lemma ResponseCollects(t: Tx, capacities: seq<nat>)
    requires Valid(t) && t.state.WaitingForInitialRead? && capacities != []
    requires ReadAll(t, capacities).2.Frame?
    ensures var r := ReadAll(t, capacities);
            && r.1 != [] && r.0.sent <= ResponseTotal(t)
            && Collect(r.1) == Ok(Collected(t.tid, t.status, ResponseTotal(t), ResponseBody(t)[..r.0.sent]))
            && (r.2.isFinal <==> r.0.sent == ResponseTotal(t))
  {
    var (t1, o) := HandleRead(t, capacities[0]);
    var total := ResponseTotal(t);
    var p := ResponsePDU(t.tid, t.status,
                         Body(total, if t.response.Some? then Some(t.response.value[..t1.sent]) else None));
    FirstRoundTrip(p);
    var r := ReadAll(t, capacities);
    assert r.1[0] == o.bytes;
    if o.isFinal || |capacities| == 1 {
      assert r.1[1..] == [];
    } else {
      ContinuationsCollect(t1, capacities[1..]);
      assert r.1[1..] == ReadAll(t1, capacities[1..]).1;
    }
  }

  lemma {:induction false} ContinuationsFinish(t: Tx, capacities: seq<nat>)
    requires Valid(t) && t.state.WritingResponse? && t.response.Some? && t.sent < ResponseTotal(t)
    requires |capacities| >= ResponseTotal(t) - t.sent && forall i :: 0 <= i < |capacities| ==> capacities[i] >= 3
    ensures var r := ReadAll(t, capacities); r.2.Frame? && r.2.isFinal
    decreases |capacities|
  {
    var (t1, o) := HandleRead(t, capacities[0]);
    if !o.isFinal {
      ContinuationsFinish(t1, capacities[1..]);
    }
  }

  /** Reads with room for the header and at least one more byte finish the response. */
  lemma ResponseFinishes(t: Tx, capacities: seq<nat>)
    requires Valid(t) && t.state.WaitingForInitialRead?
    requires |capacities| > ResponseTotal(t) && forall i :: 0 <= i < |capacities| ==> capacities[i] >= 5
    ensures var r := ReadAll(t, capacities); r.2.Frame? && r.2.isFinal
  {
    var (t1, o) := HandleRead(t, capacities[0]);
    if !o.isFinal {
      ContinuationsFinish(t1, capacities[1..]);
    }
  }
}
