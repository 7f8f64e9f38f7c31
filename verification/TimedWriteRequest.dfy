/** Requests with a value, byte for byte: when they reach the write handler, and when they do not. */
module TimedWriteRequest {
  import opened Base
  import opened Procedure
  import opened TimedWrite
  import opened WriteRequest
  import opened Tlv
  import T = Transaction

  lemma AsParserReads(supportsAuth: bool, body: seq<byte>)
    ensures Reads(AsParser(supportsAuth), body, ReadRequest(body, supportsAuth))
  {
  }

  lemma FirstItem(item: Item, rest: seq<Item>, found: Values)
    requires IsSought(item.tag) && item.tag !in found
    ensures CollectItems([item] + rest, found) == CollectItems(rest, found[item.tag := item.value])
  {
    assert ([item] + rest)[1..] == rest;
  }

  // ------------------------------------------------------------------ a timed write of a value

  function TimedBody(value: seq<byte>, ttl: byte): seq<byte> {
    EncodeAll([Item(VALUE, value), Item(TTL, [ttl])])
  }

  function TimedRequest(value: seq<byte>, ttl: byte): Result<Request> {
    Ok(Request(value, None, false, ttl, false))
  }

  lemma TimedBodyRead(value: seq<byte>, ttl: byte, supportsAuth: bool)
    ensures ReadRequest(TimedBody(value, ttl), supportsAuth) == TimedRequest(value, ttl)
  {
    var items := [Item(VALUE, value), Item(TTL, [ttl])];
    var v: Values := map[VALUE := value];
    EncodedItemsCollected(items, map[]);
    FirstItem(Item(VALUE, value), [Item(TTL, [ttl])], map[]);
    FirstItem(Item(TTL, [ttl]), [], v);
    assert items == [Item(VALUE, value)] + [Item(TTL, [ttl])] && [Item(TTL, [ttl])] == [Item(TTL, [ttl])] + [];
    TimedValues(v[TTL := [ttl]], value, ttl, supportsAuth, AuthFirst(TimedBody(value, ttl)));
  }

  lemma TimedBodyParsed(value: seq<byte>, ttl: byte, supportsAuth: bool)
    ensures Reads(AsParser(supportsAuth), TimedBody(value, ttl), TimedRequest(value, ttl))
  {
    TimedBodyRead(value, ttl, supportsAuth);
    AsParserReads(supportsAuth, TimedBody(value, ttl));
  }

  lemma TimedValues(v: Values, value: seq<byte>, ttl: byte, supportsAuth: bool, authFirst: bool)
    requires v.Keys == {VALUE, TTL} && v[VALUE] == value && v[TTL] == [ttl]
    ensures Interpret(v, supportsAuth, authFirst) == TimedRequest(value, ttl)
  {
    assert ORIGIN !in v.Keys && AUTHORIZATION_DATA !in v.Keys && RETURN_RESPONSE !in v.Keys;
  }

  /** A value of any length gets through, in any fragmentation, as `ValueExecuted` says. */
  lemma TimedValueExecutes(c: Characteristic, scratch: seq<byte>, s: Session, tid: byte, tid': byte, value: seq<byte>,
                           ttl: byte, first: seq<byte>, pieces: seq<seq<byte>>, i: ReadInput, j: ReadInput)
    returns (q: Proc)
    requires var p := Attach(c, scratch, []);
             && Continues(p, s) && Roomy(p, i) && Roomy(p, j) && i.session == s == j.session
             && RefuseWrite(c, s, CHARACTERISTIC_EXECUTE_WRITE).None?
    requires first + T.Concat(pieces) == TimedBody(value, ttl)
    requires |TimedBody(value, ttl)| <= T.Min(|scratch|, UINT16_MAX)
    ensures AcceptsTimedWrite(AsParser(c.supportsAuthorizationData), c, scratch, s, tid, first, pieces, i, q)
    ensures var body := first + T.Concat(pieces);
            ExecutesPending(AsParser(c.supportsAuthorizationData), q, c, s, body, TimedRequest(value, ttl),
                            |scratch| - |body|, i.now, [CacheWrite(body, i.now)], tid', j)
  {
    TimedBodyParsed(value, ttl, c.supportsAuthorizationData);
    q := TimedWriteExecutes(AsParser(c.supportsAuthorizationData), c, scratch, s, tid, tid', first, pieces,
                            TimedRequest(value, ttl), i, j);
  }

  /** Exactly when the buffer takes the value twice, and in time, the handler gets it. */
  lemma ValueExecuted(c: Characteristic, value: seq<byte>, ttl: byte, room: nat, start: nat, j: ReadInput)
    requires |value| <= MAX_VALUE_BYTES && j.app.formatOk
    ensures var body := TimedBody(value, ttl);
            Call(c, CHARACTERISTIC_EXECUTE_WRITE, body, TimedRequest(value, ttl), room, Some(start), j) ==
              if |value| + 1 <= room && ttl != 0 && j.now <= start + 100 * ttl then
                [CallHandler(c.requiresTimedWrite, CHARACTERISTIC_EXECUTE_WRITE, body, value, j.now)]
              else []
    ensures ResultFor(TimedRequest(value, ttl), room, Some(start), j) == Misplaced <==> |value| + 1 > room
  {
  }

  // ------------------------------------------------------------------ a plain write that fills the buffer

  function PlainBody(value: seq<byte>): seq<byte> {
    EncodeAll([Item(VALUE, value)])
  }

  function PlainRequest(value: seq<byte>): Result<Request> {
    Ok(Request(value, None, false, 0, false))
  }

  lemma PlainBodyRead(value: seq<byte>, supportsAuth: bool)
    ensures ReadRequest(PlainBody(value), supportsAuth) == PlainRequest(value)
  {
    EncodedItemsCollected([Item(VALUE, value)], map[]);
    FirstItem(Item(VALUE, value), [], map[]);
    assert [Item(VALUE, value)] == [Item(VALUE, value)] + [];
  }

  /** The request is collected and its handling leads nowhere: moving the value, whatever it is, leaves the buffer. */
  predicate Ruins(parse: Parser, c: Characteristic, scratch: seq<byte>, s: Session, tid: byte, first: seq<byte>,
                  pieces: seq<seq<byte>>, i: ReadInput)
    requires |first + T.Concat(pieces)| <= UINT16_MAX
  {
    var (p, accepted) := WriteAll(Attach(c, scratch, []), Frames(CHARACTERISTIC_WRITE, tid, c.iid, first, pieces), s);
    accepted == T.Done && Fits(p, i) && HandleGattRead(parse, p, i).1 == T.ReadUndetermined
  }

  lemma NoRoomRuins(parse: Parser, c: Characteristic, scratch: seq<byte>, s: Session, tid: byte, first: seq<byte>,
                    pieces: seq<seq<byte>>, body: seq<byte>, r: Result<Request>, room: nat, i: ReadInput)
    requires |first + T.Concat(pieces)| <= UINT16_MAX && NoRoom(r, room)
    requires ExecutesPlain(parse, c, scratch, s, tid, first, pieces, body, r, room, i)
    ensures Ruins(parse, c, scratch, s, tid, first, pieces, i)
  {
  }

  lemma FullBufferRuins(c: Characteristic, scratch: seq<byte>, s: Session, tid: byte, value: seq<byte>,
                        first: seq<byte>, pieces: seq<seq<byte>>, i: ReadInput)
    requires Continues(Attach(c, scratch, []), s) && Roomy(Attach(c, scratch, []), i) && i.session == s
    requires RefuseWrite(c, s, CHARACTERISTIC_WRITE).None?
    requires first + T.Concat(pieces) == PlainBody(value) && |scratch| == |PlainBody(value)| <= UINT16_MAX
    ensures Ruins(AsParser(c.supportsAuthorizationData), c, scratch, s, tid, first, pieces, i)
  {
    var parse := AsParser(c.supportsAuthorizationData);
    PlainBodyRead(value, c.supportsAuthorizationData);
    AsParserReads(c.supportsAuthorizationData, PlainBody(value));
    PlainWriteExecutes(parse, c, scratch, s, tid, first, pieces, PlainRequest(value), i);
    NoRoomRuins(parse, c, scratch, s, tid, first, pieces, PlainBody(value), PlainRequest(value), 0, i);
  }
}
