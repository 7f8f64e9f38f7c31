/**
  Parsing a characteristic write request (section 7.3.5 of the HomeKit Accessory Protocol
  Specification R14) and moving its value and authorization data to where the handler gets as much
  free space behind the value as possible.
*/
module WriteRequest {
  import opened Base
  import opened RawBuffer
  import opened Tlv
  import P = Procedure

  const VALUE: byte := 0x01
  const AUTHORIZATION_DATA: byte := 0x02
  const ORIGIN: byte := 0x03
  const TTL: byte := 0x08
  const RETURN_RESPONSE: byte := 0x09

  predicate IsSought(tag: byte) {
    tag == VALUE || tag == AUTHORIZATION_DATA || tag == ORIGIN || tag == TTL || tag == RETURN_RESPONSE
  }

  type Values = map<byte, seq<byte>>

  /** The sought items of a request; a second one of the same type is an error, others are ignored. */
  function Collect(b: seq<byte>, found: Values): Result<Values>
    decreases |b|
  {
    if b == [] then Ok(found)
    else
      var r := ReadItem(b);
      if r.Err? then Err(InvalidData)
      else if !IsSought(r.value.item.tag) then Collect(b[r.value.consumed..], found)
      else if r.value.item.tag in found then Err(InvalidData)
      else Collect(b[r.value.consumed..], found[r.value.item.tag := r.value.item.value])
  }

  /** Authorization data, and whether it came before the value. */
  datatype Authorization = Authorization(data: seq<byte>, isFirst: bool)

  datatype Request = Request(value: seq<byte>, auth: Option<Authorization>, remote: bool, ttl: byte,
                             returnResponse: bool)

  /** Of value and authorization data the latter comes first. */
  function AuthFirst(b: seq<byte>): bool
    decreases |b|
  {
    if b == [] then false
    else
      var r := ReadItem(b);
      if r.Err? || r.value.item.tag == VALUE then false
      else r.value.item.tag == AUTHORIZATION_DATA || AuthFirst(b[r.value.consumed..])
  }

  /** An origin is one byte, local or remote. */
  predicate ValidOrigin(v: Values) {
    ORIGIN in v ==> v[ORIGIN] == [0] || v[ORIGIN] == [1]
  }

  predicate ValidTtl(v: Values) {
    TTL in v ==> |v[TTL]| == 1
  }

  predicate ValidReturnResponse(v: Values) {
    RETURN_RESPONSE in v ==> v[RETURN_RESPONSE] == [1]
  }

  /** Without support for it authorization data is ignored; with support it needs an origin. */
  function Interpret(v: Values, supportsAuth: bool, authFirst: bool): Result<Request> {
    if VALUE !in v || !ValidOrigin(v) || (supportsAuth && AUTHORIZATION_DATA in v && ORIGIN !in v)
       || !ValidTtl(v) || !ValidReturnResponse(v) then Err(InvalidData)
    else Ok(Request(v[VALUE],
                    if supportsAuth && AUTHORIZATION_DATA in v then
                      Some(Authorization(v[AUTHORIZATION_DATA], authFirst))
                    else None,
                    ORIGIN in v && v[ORIGIN] == [1],
                    if TTL in v then v[TTL][0] else 0,
                    RETURN_RESPONSE in v))
  }

  function ReadRequest(body: seq<byte>, supportsAuth: bool): Result<Request> {
    var v := Collect(body, map[]);
    if v.Err? then Err(InvalidData) else Interpret(v.value, supportsAuth, AuthFirst(body))
  }

  function Max(a: nat, b: nat): nat {
    if a < b then b else a
  }

  /**
    Bytes needed behind the request for the moves to stay inside the buffer: the value and its NUL
    behind the authorization data and its NUL if that came first, otherwise each of them on its own.
  */
  function NeededBytes(q: Request): nat {
    if q.auth.None? then |q.value| + 1
    else if q.auth.value.isFirst then |q.value| + 1 + |q.auth.value.data| + 1
    else Max(|q.value| + 1, |q.auth.value.data| + 1)
  }

  /** Bytes needed for both to be in their places. */
  function BothBytes(q: Request): nat {
    |q.value| + 1 + if q.auth.Some? then |q.auth.value.data| + 1 else 0
  }

  /** What a procedure needs to know of a write request. */
  function Parameters(r: Result<Request>): Option<P.WriteParameters> {
    if r.Err? then None
    else Some(P.WriteParameters(r.value.value, r.value.ttl, r.value.returnResponse, NeededBytes(r.value)))
  }

  function AsParser(supportsAuth: bool): P.Parser {
    (body: seq<byte>) => Parameters(ReadRequest(body, supportsAuth))
  }

  // ------------------------------------------------------------------ written requests

  function EncodeAll(items: seq<Item>): seq<byte> {
    if items == [] then [] else Encode(items[0]) + EncodeAll(items[1..])
  }

  /** What a list of items says, without looking at bytes. */
  function CollectItems(items: seq<Item>, found: Values): Result<Values> {
    if items == [] then Ok(found)
    else if !IsSought(items[0].tag) then CollectItems(items[1..], found)
    else if items[0].tag in found then Err(InvalidData)
    else CollectItems(items[1..], found[items[0].tag := items[0].value])
  }

  /** Values of any length come through, as long as neighbours differ in type: equal ones would be joined. */
  lemma {:induction false} EncodedItemsCollected(items: seq<Item>, found: Values)
    requires forall k :: 0 < k < |items| ==> items[k - 1].tag != items[k].tag
    ensures Collect(EncodeAll(items), found) == CollectItems(items, found)
    decreases |items|
  {
    if items != [] {
      var b, rest := EncodeAll(items), EncodeAll(items[1..]);
      if rest != [] {
        StartsWithTag(items[1..]);
      }
      ReadEncoded(items[0], rest);
      CollectStep(b, found);
      assert b[|Encode(items[0])|..] == rest;
      EncodedItemsCollected(items[1..], found);
      if IsSought(items[0].tag) && items[0].tag !in found {
        EncodedItemsCollected(items[1..], found[items[0].tag := items[0].value]);
      }
    }
  }

  lemma StartsWithTag(items: seq<Item>)
    requires items != []
    ensures EncodeAll(items) != [] && EncodeAll(items)[0] == items[0].tag
  {
  }

  // ------------------------------------------------------------------ collecting in place

  predicate Inside(r: Region, end: nat) {
    r.start + r.numBytes < end
  }

  predicate Apart(r: Region, s: Region) {
    r.start + r.numBytes < s.start || s.start + s.numBytes < r.start
  }

  /** Each slot holds its value, with its NUL, below `end`, and no two touch. */
  predicate Slots(bytes: seq<byte>, slots: map<byte, Region>, found: Values, end: nat) {
    && slots.Keys == found.Keys
    && (forall t :: t in slots ==> Holds(bytes, slots[t], found[t]) && slots[t].start + slots[t].numBytes < end)
    && (forall t, u :: t in slots && u in slots && t != u ==> Apart(slots[t], slots[u]))
  }

  lemma HoldsStays(was: seq<byte>, now: seq<byte>, r: Region, v: seq<byte>, o: nat, end: nat)
    requires Holds(was, r, v) && r.start + r.numBytes < o && Within(was, now, o, end)
    ensures Holds(now, r, v)
  {
    assert now[r.start..r.start + r.numBytes] == was[r.start..r.start + r.numBytes];
  }

  lemma SlotsStay(was: seq<byte>, now: seq<byte>, slots: map<byte, Region>, found: Values, o: nat, end: nat)
    requires Slots(was, slots, found, o) && Within(was, now, o, end)
    ensures Slots(now, slots, found, o)
  {
    forall t | t in slots
      ensures Holds(now, slots[t], found[t])
    {
      HoldsStays(was, now, slots[t], found[t], o, end);
    }
  }

  lemma SlotsBelow(bytes: seq<byte>, slots: map<byte, Region>, found: Values, o: nat, end: nat)
    requires Slots(bytes, slots, found, o) && o <= end
    ensures Slots(bytes, slots, found, end)
  {
  }

  lemma SlotAdded(bytes: seq<byte>, slots: map<byte, Region>, found: Values, o: nat, tag: byte, r: Region,
                  value: seq<byte>, next: nat)
    requires Slots(bytes, slots, found, o) && tag !in slots
    requires Holds(bytes, r, value) && r.start == o && r.start + r.numBytes < next
    ensures Slots(bytes, slots[tag := r], found[tag := value], next)
  {
  }

  /** The slots lie in the order of the items. */
  predicate Ordered(slots: map<byte, Region>, authFirst: bool) {
    VALUE in slots && AUTHORIZATION_DATA in slots ==>
      (slots[AUTHORIZATION_DATA].start < slots[VALUE].start <==> authFirst)
  }

  /** So far, with `rest` still to be read. */
  predicate OrderedSoFar(slots: map<byte, Region>, authFirst: bool, rest: seq<byte>) {
    && Ordered(slots, authFirst)
    && (VALUE in slots && AUTHORIZATION_DATA !in slots ==> !authFirst)
    && (VALUE !in slots && AUTHORIZATION_DATA in slots ==> authFirst)
    && (VALUE !in slots && AUTHORIZATION_DATA !in slots ==> authFirst == AuthFirst(rest))
  }

  /** `more` has at most the slot of the item at `o` in addition. */
  predicate OneMore(slots: map<byte, Region>, more: map<byte, Region>, tag: byte, o: nat) {
    if IsSought(tag) then tag !in slots && tag in more && more == slots[tag := more[tag]] && more[tag].start == o
    else more == slots
  }

  lemma OrderKept(slots: map<byte, Region>, more: map<byte, Region>, was: seq<byte>, o: nat, next: nat, end: nat,
                  authFirst: bool)
    requires o < next <= end <= |was| && OrderedSoFar(slots, authFirst, was[o..end])
    requires forall t :: t in slots ==> slots[t].start < o
    requires var r := ReadItem(was[o..end]);
             r.Ok? && next == o + r.value.consumed && OneMore(slots, more, r.value.item.tag, o)
    ensures OrderedSoFar(more, authFirst, was[next..end])
  {
    Tail(was, o, end, next);
  }

  /** The items below `o` are in their slots; `all` and `authFirst` are about the whole request. */
  predicate Progress(now: seq<byte>, was: seq<byte>, slots: map<byte, Region>, found: Values, o: nat, end: nat,
                     all: Result<Values>, authFirst: bool)
  {
    && o <= end <= |was| && Within(was, now, 0, o) && Slots(now, slots, found, o)
    && all == Collect(was[o..end], found) && OrderedSoFar(slots, authFirst, was[o..end])
  }

  method GetAll(buffer: array<byte>, end: nat) returns (r: Result<map<byte, Region>>)
    requires end <= buffer.Length
    modifies buffer
    ensures var spec := Collect(old(buffer[..])[0..end], map[]);
            && (r.Err? <==> spec.Err?) && (r.Err? ==> r.error == InvalidData)
            && (r.Ok? ==> Slots(buffer[..], r.value, spec.value, end))
    ensures r.Ok? ==> Ordered(r.value, AuthFirst(old(buffer[..])[0..end]))
  {
    ghost var was := buffer[..];
    ghost var all := Collect(was[0..end], map[]);
    ghost var authFirst := AuthFirst(was[0..end]);
    var slots: map<byte, Region> := map[];
    ghost var found: Values := map[];
    var o := 0;
    while o < end
      invariant Progress(buffer[..], was, slots, found, o, end, all, authFirst)
    {
      var next;
      next, found := GetMore(buffer, o, end, slots, was, found, all, authFirst);
      if next.Err? {
        return Err(InvalidData);
      }
      slots, o := next.value.0, next.value.1;
    }
    return Ok(slots);
  }

  method GetMore(buffer: array<byte>, o: nat, end: nat, slots: map<byte, Region>, ghost was: seq<byte>,
                 ghost found: Values, ghost all: Result<Values>, ghost authFirst: bool)
    returns (r: Result<(map<byte, Region>, nat)>, ghost more: Values)
    requires o < end && Progress(buffer[..], was, slots, found, o, end, all, authFirst)
    modifies buffer
    ensures r.Err? ==> all.Err?
    ensures r.Ok? ==> o < r.value.1 && Progress(buffer[..], was, r.value.0, more, r.value.1, end, all, authFirst)
  {
    ghost var before := buffer[..];
    SameTail(before, was, o, end, o);
    r, more := GetOne(buffer, o, end, slots, found, authFirst);
    if r.Ok? {
      SameTail(before, was, o, end, r.value.1);
      ProgressMade(before, buffer[..], was, slots, found, o, end, all, authFirst, r.value.0, more, r.value.1);
    }
  }

  /** The bytes still to be read are the original ones. */
  lemma SameTail(before: seq<byte>, was: seq<byte>, o: nat, end: nat, next: nat)
    requires o <= next <= end <= |was| && Within(was, before, 0, o)
    ensures before[next..end] == was[next..end]
  {
  }

  lemma ProgressMade(before: seq<byte>, now: seq<byte>, was: seq<byte>, slots: map<byte, Region>, found: Values, o: nat,
                     end: nat, all: Result<Values>, authFirst: bool, slots': map<byte, Region>, more: Values, next: nat)
    requires Progress(before, was, slots, found, o, end, all, authFirst)
    requires o < next <= end && Within(before, now, o, next) && Slots(now, slots', more, next)
    requires Collect(was[o..end], found) == Collect(was[next..end], more)
    requires OrderedSoFar(slots', authFirst, was[next..end])
    ensures Progress(now, was, slots', more, next, end, all, authFirst)
  {
  }

  /** Reads one more item into its slot, and keeps the order. */
  method GetOne(buffer: array<byte>, o: nat, end: nat, slots: map<byte, Region>, ghost found: Values,
                ghost authFirst: bool)
    returns (r: Result<(map<byte, Region>, nat)>, ghost more: Values)
    requires o < end <= buffer.Length && Slots(buffer[..], slots, found, o)
    requires OrderedSoFar(slots, authFirst, buffer[..][o..end])
    modifies buffer
    ensures r.Err? ==> Collect(old(buffer[..])[o..end], found).Err?
    ensures r.Ok? ==> && o < r.value.1 <= end && Within(old(buffer[..]), buffer[..], o, r.value.1)
                      && Slots(buffer[..], r.value.0, more, r.value.1)
                      && Collect(old(buffer[..])[o..end], found) == Collect(old(buffer[..])[r.value.1..end], more)
                      && OrderedSoFar(r.value.0, authFirst, old(buffer[..])[r.value.1..end])
  {
    ghost var was := buffer[..];
    r, more := GetSlot(buffer, o, end, slots, found);
    if r.Ok? {
      OrderKept(slots, r.value.0, was, o, r.value.1, end, authFirst);
    }
  }

  method GetSlot(buffer: array<byte>, o: nat, end: nat, slots: map<byte, Region>, ghost found: Values)
    returns (r: Result<(map<byte, Region>, nat)>, ghost more: Values)
    requires o < end <= buffer.Length && Slots(buffer[..], slots, found, o)
    modifies buffer
    ensures r.Err? ==> Collect(old(buffer[..])[o..end], found).Err?
    ensures r.Ok? ==> && o < r.value.1 <= end && Within(old(buffer[..]), buffer[..], o, r.value.1)
                      && Slots(buffer[..], r.value.0, more, r.value.1)
                      && Collect(old(buffer[..])[o..end], found) == Collect(old(buffer[..])[r.value.1..end], more)
    ensures r.Ok? ==> var item := ReadItem(old(buffer[..])[o..end]);
                      && item.Ok? && r.value.1 == o + item.value.consumed
                      && OneMore(slots, r.value.0, item.value.item.tag, o)
  {
    ghost var was := buffer[..];
    var item;
    ghost var value;
    item, value := GetNextOf(buffer, o, end, found);
    if item.Err? {
      return Err(InvalidData), found;
    }
    var Found(tag, region, next) := item.value;
    SlotsStay(was, buffer[..], slots, found, o, next);
    if !IsSought(tag) {
      SlotsBelow(buffer[..], slots, found, o, next);
      return Ok((slots, next)), found;
    }
    if tag in slots {
      return Err(InvalidData), found;
    }
    SlotAdded(buffer[..], slots, found, o, tag, region, value, next);
    return Ok((slots[tag := region], next)), found[tag := value];
  }

  /** Reads the next item; `value` is its value. */
  method GetNextOf(buffer: array<byte>, o: nat, end: nat, ghost found: Values)
    returns (r: Result<Found>, ghost value: seq<byte>)
    requires o < end <= buffer.Length
    modifies buffer
    ensures r.Err? ==> Collect(old(buffer[..])[o..end], found).Err?
    ensures r.Ok? ==> && r.value.value.start == o && Inside(r.value.value, r.value.next) && r.value.next <= end
                      && Within(old(buffer[..]), buffer[..], o, r.value.next) && Holds(buffer[..], r.value.value, value)
                      && Collect(old(buffer[..])[o..end], found)
                         == CollectFound(old(buffer[..]), r.value.tag, value, r.value.next, end, found)
    ensures r.Ok? ==> var item := ReadItem(old(buffer[..])[o..end]);
                      item.Ok? && r.value.next == o + item.value.consumed && r.value.tag == item.value.item.tag
  {
    ghost var was := buffer[..];
    r := GetNext(buffer, o, end);
    CollectAt(was, o, end, found);
    value := if r.Ok? then ReadItem(was[o..end]).value.item.value else [];
  }

  /** The outcome once an item has been found, up to `next`. */
  ghost function CollectFound(was: seq<byte>, tag: byte, value: seq<byte>, next: nat, end: nat,
                              found: Values): Result<Values>
    requires next <= end <= |was|
  {
    if !IsSought(tag) then Collect(was[next..end], found)
    else if tag in found then Err(InvalidData)
    else Collect(was[next..end], found[tag := value])
  }

  lemma CollectAt(was: seq<byte>, o: nat, end: nat, found: Values)
    requires o < end <= |was|
    ensures var r := ReadItem(was[o..end]);
            Collect(was[o..end], found)
            == if r.Err? then Err(InvalidData)
               else CollectFound(was, r.value.item.tag, r.value.item.value, o + r.value.consumed, end, found)
  {
    var r := ReadItem(was[o..end]);
    CollectStep(was[o..end], found);
    if r.Ok? {
      Tail(was, o, end, o + r.value.consumed);
    }
  }

  lemma Tail(s: seq<byte>, o: nat, end: nat, next: nat)
    requires o <= next <= end <= |s|
    ensures s[o..end][next - o..] == s[next..end]
  {
  }

  lemma CollectStep(b: seq<byte>, found: Values)
    requires b != []
    ensures var r := ReadItem(b);
            Collect(b, found) == if r.Err? then Err(InvalidData)
                                 else if !IsSought(r.value.item.tag) then Collect(b[r.value.consumed..], found)
                                 else if r.value.item.tag in found then Err(InvalidData)
                                 else Collect(b[r.value.consumed..], found[r.value.item.tag := r.value.item.value])
  {
  }

  // ------------------------------------------------------------------ relocation

  /** Where value and authorization data end up; `capacity` is reported to the handler. */
  datatype Placement = Placement(value: Region, capacity: nat, auth: Option<Region>)

  /** `OutsideBuffer`: a copy would leave the buffer, which is undefined behaviour in C. */
  datatype Relocation = Placed(p: Placement) | OutsideBuffer

  /** Nothing has left the buffer, and the two parts do not overlap. */
  predicate InPlace(w: Relocation) {
    w.Placed? && (w.p.auth.Some? ==> Apart(w.p.value, w.p.auth.value))
  }

  function SizeT(n: int): nat {
    n % 0x1_0000_0000_0000_0000
  }

  /** `BothBytes` of regions. */
  function Needed(value: Region, auth: Option<Region>): nat {
    value.numBytes + 1 + if auth.Some? then auth.value.numBytes + 1 else 0
  }

  /** `p` is in the buffer, keeps the contents, and reports exactly the space the value may grow into. */
  predicate Proper(now: seq<byte>, p: Placement, value: seq<byte>, auth: Option<seq<byte>>) {
    && Holds(now, p.value, value)
    && p.value.start + p.capacity
       == (if p.auth.Some? && p.value.start < p.auth.value.start then p.auth.value.start else |now|)
    && p.auth.Some? == auth.Some?
    && (p.auth.Some? ==> Holds(now, p.auth.value, auth.value) && Apart(p.value, p.auth.value))
  }

  /** What is left of authorization data `a` in `r` where the value in `v` has been written over it. */
  predicate Remains(now: seq<byte>, r: Region, v: Region, a: seq<byte>) {
    && r.numBytes == |a| && r.start + r.numBytes < |now|
    && forall k :: 0 <= k < |a| && !(v.start <= r.start + k <= v.start + v.numBytes) ==> now[r.start + k] == a[k]
  }

  /** No copy leaves the buffer: each part fits on its own, both if the authorization data came first. */
  predicate StaysInside(value: Region, auth: Option<Region>, room: nat) {
    if auth.Some? && auth.value.start < value.start then Needed(value, auth) <= room
    else value.numBytes < room && (auth.Some? ==> auth.value.numBytes < room)
  }

  /**
    The moves, into the free space behind a request of `end` bytes. Everything is in its place
    exactly when that space takes both parts with their NULs. Otherwise a copy leaves the buffer, or
    authorization data that came second is overwritten by the value, which is complete.
  */
  method Relocate(buffer: array<byte>, end: nat, value: Region, auth: Option<Region>,
                  ghost v: seq<byte>, ghost a: Option<seq<byte>>)
    returns (r: Relocation)
    requires end <= buffer.Length < 0x1_0000_0000_0000_0000 && Inside(value, end) && Holds(buffer[..], value, v)
    requires auth.Some? == a.Some?
    requires auth.Some? ==>
               Inside(auth.value, end) && Holds(buffer[..], auth.value, a.value) && Apart(value, auth.value)
    modifies buffer
    ensures InPlace(r) <==> Needed(value, auth) <= buffer.Length - end
    ensures InPlace(r) ==> Proper(buffer[..], r.p, v, a)
    ensures r.Placed? <==> StaysInside(value, auth, buffer.Length - end)
    ensures r.Placed? ==> Holds(buffer[..], r.p.value, v) && r.p.auth.Some? == a.Some?
    ensures r.Placed? && a.Some? ==> Remains(buffer[..], r.p.auth.value, r.p.value, a.value)
  {
    if auth.Some? {
      r := RelocateBoth(buffer, end, value, auth.value, v, a.value);
    } else {
      if end + value.numBytes + 1 > buffer.Length {
        return OutsideBuffer;
      }
      MoveRegion(buffer, value, end, v);
      return Placed(Placement(Region(end, value.numBytes), buffer.Length - end, None));
    }
  }

  /** The value goes behind the authorization data if that came first, otherwise in front of it. */
  method RelocateBoth(buffer: array<byte>, end: nat, value: Region, auth: Region, ghost v: seq<byte>,
                      ghost a: seq<byte>)
    returns (r: Relocation)
    requires end <= buffer.Length < 0x1_0000_0000_0000_0000 && Inside(value, end) && Holds(buffer[..], value, v)
    requires Inside(auth, end) && Holds(buffer[..], auth, a) && Apart(value, auth)
    modifies buffer
    ensures InPlace(r) <==> Needed(value, Some(auth)) <= buffer.Length - end
    ensures InPlace(r) ==> Proper(buffer[..], r.p, v, Some(a))
    ensures r.Placed? <==> StaysInside(value, Some(auth), buffer.Length - end)
    ensures r.Placed? ==> Holds(buffer[..], r.p.value, v) && r.p.auth.Some?
    ensures r.Placed? ==> Remains(buffer[..], r.p.auth.value, r.p.value, a)
  {
    var maxBytes := buffer.Length - end;
    var numAuth := auth.numBytes + 1;
    var authStart, valueStart;
    if auth.start < value.start {
      authStart, valueStart := end, end + numAuth;
    } else {
      if numAuth > maxBytes {
        return OutsideBuffer;
      }
      authStart, valueStart := end + maxBytes - numAuth, end;
    }
    var ok := MoveBoth(buffer, value, auth, valueStart, authStart, v, a);
    if !ok {
      return OutsideBuffer;
    }
    return Placed(Placement(Region(valueStart, value.numBytes), SizeT(maxBytes - numAuth),
                            Some(Region(authStart, auth.numBytes))));
  }

  /** First the authorization data, then the value; false when one of the copies would leave the buffer. */
  method MoveBoth(buffer: array<byte>, value: Region, auth: Region, valueStart: nat, authStart: nat,
                  ghost v: seq<byte>, ghost a: seq<byte>)
    returns (ok: bool)
    requires Holds(buffer[..], value, v) && Holds(buffer[..], auth, a)
    modifies buffer
    ensures ok <==> && Inside(Region(authStart, auth.numBytes), buffer.Length)
                    && Inside(Region(valueStart, value.numBytes), buffer.Length)
    ensures ok && Apart(Region(authStart, auth.numBytes), value) ==>
              && Holds(buffer[..], Region(valueStart, value.numBytes), v)
              && Remains(buffer[..], Region(authStart, auth.numBytes), Region(valueStart, value.numBytes), a)
              && (Apart(Region(valueStart, value.numBytes), Region(authStart, auth.numBytes)) ==>
                    Holds(buffer[..], Region(authStart, auth.numBytes), a))
  {
    ghost var was := buffer[..];
    var to := Region(authStart, auth.numBytes);
    if authStart + auth.numBytes + 1 > buffer.Length {
      return false;
    }
    MoveRegion(buffer, auth, authStart, a);
    ghost var moved := buffer[..];
    if valueStart + value.numBytes + 1 > buffer.Length {
      return false;
    }
    ghost var isIntact := Apart(to, value);
    if isIntact {
      MovedApart(was, moved, value, to, v);
    }
    MoveRegion(buffer, value, valueStart, v);
    MovedOver(moved, buffer[..], to, Region(valueStart, value.numBytes), a);
    if Apart(Region(valueStart, value.numBytes), to) {
      MovedApart(moved, buffer[..], to, Region(valueStart, value.numBytes), a);
    }
    return true;
  }

  /** What a move leaves of a region it may have gone over. */
  lemma MovedOver(was: seq<byte>, now: seq<byte>, r: Region, other: Region, a: seq<byte>)
    requires OnlyIn(was, now, other) && Holds(was, r, a)
    ensures Remains(now, r, other, a)
  {
    forall k | 0 <= k < |a| && !(other.start <= r.start + k <= other.start + other.numBytes)
      ensures now[r.start + k] == a[k]
    {
      assert was[r.start + k] == was[r.start..r.start + r.numBytes][k];
    }
  }

  /** Moves a region and its NUL. */
  method MoveRegion(buffer: array<byte>, r: Region, to: nat, ghost v: seq<byte>)
    requires Inside(r, buffer.Length) && Inside(Region(to, r.numBytes), buffer.Length)
    modifies buffer
    ensures OnlyIn(old(buffer[..]), buffer[..], Region(to, r.numBytes))
    ensures old(Holds(buffer[..], r, v)) ==> Holds(buffer[..], Region(to, r.numBytes), v)
  {
    var n := r.numBytes;
    ghost var was := buffer[..];
    MoveBytes(buffer, to, r.start, n + 1);
    ghost var now := buffer[..];
    assert now[to..to + n + 1] == was[r.start..r.start + n + 1];
    assert now[to..to + n] == now[to..to + n + 1][..n];
    assert was[r.start..r.start + n] == was[r.start..r.start + n + 1][..n];
    assert now[to + n] == now[to..to + n + 1][n] && was[r.start + n] == was[r.start..r.start + n + 1][n];
  }

  /** Only the bytes of `r` and its NUL may have changed. */
  predicate OnlyIn(was: seq<byte>, now: seq<byte>, r: Region) {
    |now| == |was| && forall k :: 0 <= k < |was| && !(r.start <= k <= r.start + r.numBytes) ==> now[k] == was[k]
  }

  /** A region is not touched by a move to a place apart from it. */
  lemma MovedApart(was: seq<byte>, now: seq<byte>, r: Region, other: Region, v: seq<byte>)
    requires OnlyIn(was, now, other) && Apart(r, other) && Holds(was, r, v)
    ensures Holds(now, r, v)
  {
    assert now[r.start..r.start + r.numBytes] == was[r.start..r.start + r.numBytes];
  }

  // ------------------------------------------------------------------ the whole request

  datatype Parsed = Parsed(where: Relocation, remote: bool, ttl: byte, returnResponse: bool)

  /** Where the handler finds the value, complete, and its authorization data, unless that was overwritten. */
  predicate Delivers(now: seq<byte>, end: nat, q: Request, w: Relocation) {
    && (w.Placed? <==> end + NeededBytes(q) <= |now|)
    && (w.Placed? ==> Holds(now, w.p.value, q.value) && w.p.auth.Some? == q.auth.Some?)
    && (w.Placed? && q.auth.Some? ==> Remains(now, w.p.auth.value, w.p.value, q.auth.value.data))
    && (InPlace(w) <==> end + BothBytes(q) <= |now|)
    && (InPlace(w) ==> Proper(now, w.p, q.value, if q.auth.Some? then Some(q.auth.value.data) else None))
  }

  /** The fields of `spec`, and its value and authorization data where they have been moved to. */
  predicate IsParsed(now: seq<byte>, end: nat, spec: Result<Request>, r: Result<Parsed>) {
    if spec.Err? then r == Err(InvalidData)
    else
      var q := spec.value;
      && r.Ok? && r.value == Parsed(r.value.where, q.remote, q.ttl, q.returnResponse)
      && Delivers(now, end, q, r.value.where)
  }

  /** Parses the request in `buffer[..end]`. */
  method ParseRequest(buffer: array<byte>, end: nat, supportsAuth: bool) returns (r: Result<Parsed>)
    requires end <= buffer.Length < 0x1_0000_0000_0000_0000
    modifies buffer
    ensures IsParsed(buffer[..], end, ReadRequest(old(buffer[..])[0..end], supportsAuth), r)
  {
    ghost var spec := Collect(buffer[..][0..end], map[]);
    ghost var authFirst := AuthFirst(buffer[..][0..end]);
    var all := GetAll(buffer, end);
    if all.Err? {
      return Err(InvalidData);
    }
    r := UseSlots(buffer, end, all.value, supportsAuth, spec.value, authFirst);
  }

  method UseSlots(buffer: array<byte>, end: nat, slots: map<byte, Region>, supportsAuth: bool,
                  ghost found: Values, ghost authFirst: bool)
    returns (r: Result<Parsed>)
    requires end <= buffer.Length < 0x1_0000_0000_0000_0000
    requires Slots(buffer[..], slots, found, end) && Ordered(slots, authFirst)
    modifies buffer
    ensures IsParsed(buffer[..], end, Interpret(found, supportsAuth, authFirst), r)
  {
    if VALUE !in slots {
      return Err(InvalidData);
    }
    var checked := CheckFields(buffer, slots, supportsAuth, found, end, authFirst);
    if checked.Err? {
      return Err(InvalidData);
    }
    var (remote, ttl, returnResponse) := checked.value;
    var auth := if supportsAuth && AUTHORIZATION_DATA in slots then Some(slots[AUTHORIZATION_DATA]) else None;
    ghost var request := Interpret(found, supportsAuth, authFirst).value;
    SlotsOfRequest(buffer[..], slots, found, end, supportsAuth, authFirst);
    var where := Relocate(buffer, end, slots[VALUE], auth, request.value, DataOf(request));
    r := Ok(Parsed(where, remote, ttl, returnResponse));
    RequestDelivered(buffer[..], end, request, where, slots[VALUE], auth);
  }

  function DataOf(q: Request): Option<seq<byte>> {
    if q.auth.Some? then Some(q.auth.value.data) else None
  }

  /** Where the parts of a request are, and what moving them takes. */
  predicate Fit(q: Request, value: Region, auth: Option<Region>) {
    && value.numBytes == |q.value| && auth.Some? == q.auth.Some?
    && (auth.Some? ==> && auth.value.numBytes == |q.auth.value.data|
                       && (auth.value.start < value.start <==> q.auth.value.isFirst))
  }

  lemma FitNeeds(q: Request, value: Region, auth: Option<Region>, room: nat)
    requires Fit(q, value, auth)
    ensures StaysInside(value, auth, room) <==> NeededBytes(q) <= room
    ensures Needed(value, auth) == BothBytes(q)
  {
  }

  /** The slots of the value and of the authorization data, if that is used, hold what the request says. */
  lemma SlotsOfRequest(bytes: seq<byte>, slots: map<byte, Region>, found: Values, end: nat, supportsAuth: bool,
                       authFirst: bool)
    requires Slots(bytes, slots, found, end) && Ordered(slots, authFirst)
    requires Interpret(found, supportsAuth, authFirst).Ok?
    ensures var q := Interpret(found, supportsAuth, authFirst).value;
            && VALUE in slots && Inside(slots[VALUE], end) && Holds(bytes, slots[VALUE], q.value)
            && q.auth.Some? == (supportsAuth && AUTHORIZATION_DATA in slots)
            && (q.auth.Some? ==> && Inside(slots[AUTHORIZATION_DATA], end)
                                 && Holds(bytes, slots[AUTHORIZATION_DATA], q.auth.value.data)
                                 && Apart(slots[VALUE], slots[AUTHORIZATION_DATA]))
            && Fit(q, slots[VALUE], if q.auth.Some? then Some(slots[AUTHORIZATION_DATA]) else None)
  {
  }

  lemma RequestDelivered(now: seq<byte>, end: nat, q: Request, w: Relocation, value: Region, auth: Option<Region>)
    requires end <= |now| && Fit(q, value, auth)
    requires InPlace(w) <==> Needed(value, auth) <= |now| - end
    requires InPlace(w) ==> Proper(now, w.p, q.value, DataOf(q))
    requires w.Placed? <==> StaysInside(value, auth, |now| - end)
    requires w.Placed? ==> Holds(now, w.p.value, q.value) && w.p.auth.Some? == q.auth.Some?
    requires w.Placed? && q.auth.Some? ==> Remains(now, w.p.auth.value, w.p.value, q.auth.value.data)
    ensures Delivers(now, end, q, w)
  {
    FitNeeds(q, value, auth, |now| - end);
  }

  method CheckFields(buffer: array<byte>, slots: map<byte, Region>, supportsAuth: bool,
                     ghost found: Values, ghost end: nat, ghost authFirst: bool)
    returns (r: Result<(bool, byte, bool)>)
    requires Slots(buffer[..], slots, found, end) && end <= buffer.Length && VALUE in slots
    ensures var spec := Interpret(found, supportsAuth, authFirst);
            && (r.Err? <==> spec.Err?)
            && (r.Ok? ==> r.value == (spec.value.remote, spec.value.ttl, spec.value.returnResponse))
  {
    var origin := CheckOrigin(buffer, slots, found, end);
    if origin.Err? {
      return Err(InvalidData);
    }
    if supportsAuth {
      if AUTHORIZATION_DATA in slots && ORIGIN !in slots {
        return Err(InvalidData);
      }
    }
    var ttl := ReadByte(buffer, slots, TTL, found, end);
    if ttl.Err? {
      return Err(InvalidData);
    }
    var returnResponse := CheckReturnResponse(buffer, slots, found, end);
    if returnResponse.Err? {
      return Err(InvalidData);
    }
    return Ok((origin.value, if ttl.value.Some? then ttl.value.value else 0, returnResponse.value));
  }

  method CheckOrigin(buffer: array<byte>, slots: map<byte, Region>, ghost found: Values, ghost end: nat)
    returns (r: Result<bool>)
    requires Slots(buffer[..], slots, found, end) && end <= buffer.Length
    ensures r.Err? <==> !ValidOrigin(found)
    ensures r.Ok? ==> r.value == (ORIGIN in found && found[ORIGIN] == [1])
  {
    var origin := ReadByte(buffer, slots, ORIGIN, found, end);
    if origin.Err? || (origin.value.Some? && origin.value.value > 1) {
      return Err(InvalidData);
    }
    return Ok(origin.value == Some(1));
  }

  method CheckReturnResponse(buffer: array<byte>, slots: map<byte, Region>, ghost found: Values, ghost end: nat)
    returns (r: Result<bool>)
    requires Slots(buffer[..], slots, found, end) && end <= buffer.Length
    ensures r.Err? <==> !ValidReturnResponse(found)
    ensures r.Ok? ==> r.value == (RETURN_RESPONSE in found)
  {
    var returnResponse := ReadByte(buffer, slots, RETURN_RESPONSE, found, end);
    if returnResponse.Err? || (returnResponse.value.Some? && returnResponse.value.value != 1) {
      return Err(InvalidData);
    }
    return Ok(returnResponse.value.Some?);
  }

  /** An optional item that must be a single byte. */
  method ReadByte(buffer: array<byte>, slots: map<byte, Region>, tag: byte, ghost found: Values, ghost end: nat)
    returns (r: Result<Option<byte>>)
    requires Slots(buffer[..], slots, found, end) && end <= buffer.Length
    ensures r.Err? <==> tag in found && |found[tag]| != 1
    ensures r.Ok? ==> r.value == if tag in found then Some(found[tag][0]) else None
    ensures r.Ok? && tag in found ==> found[tag] == [r.value.value]
  {
    if tag !in slots {
      return Ok(None);
    }
    assert tag in found && Holds(buffer[..], slots[tag], found[tag]);
    if slots[tag].numBytes != 1 {
      return Err(InvalidData);
    }
    var b := buffer[slots[tag].start];
    assert buffer[slots[tag].start..slots[tag].start + 1] == [b];
    return Ok(Some(b));
  }
}
