/**
  Reading TLV items. Long values arrive in fragments of 255 bytes; the reader joins them in place,
  over their own headers, and clears the bytes that become free, so that every value is followed by
  a NUL that belongs to the item itself.
*/
module Tlv {
  import opened Base

  datatype Item = Item(tag: byte, value: seq<byte>)

  /** An item and the number of bytes it took. */
  datatype Next = Next(item: Item, consumed: nat)

  const FRAGMENT_BYTES := 255

  // ------------------------------------------------------------------ the wire format

  /** Joins to `acc`, the value of the first `k` fragments, those that follow in `b`. */
  function Join(b: seq<byte>, tag: byte, k: nat, acc: seq<byte>): (r: Result<(seq<byte>, nat)>)
    ensures r.Ok? ==> acc <= r.value.0 && r.value.1 <= |b| && |r.value.0| - |acc| <= r.value.1
    decreases |b|
  {
    if b == [] || b[0] != tag then Ok((acc, 0))
    else if |b| < 2 || |acc| != k * 255 || b[1] == 0 || |b| - 2 < b[1] then Err(InvalidData)
    else
      var n: nat := b[1];
      var r := Join(b[2 + n..], tag, k + 1, acc + b[2..2 + n]);
      if r.Err? then r else Ok((r.value.0, 2 + n + r.value.1))
  }

  function ReadItem(b: seq<byte>): (r: Result<Next>)
    requires b != []
    ensures r.Ok? ==> |r.value.item.value| + 2 <= r.value.consumed <= |b|
  {
    if |b| < 2 || |b| - 2 < b[1] then Err(InvalidData)
    else
      var n: nat := b[1];
      var r := Join(b[2 + n..], b[0], 1, b[2..2 + n]);
      if r.Err? then Err(r.error) else Ok(Next(Item(b[0], r.value.0), 2 + n + r.value.1))
  }

  /** Full fragments, then a last one with what remains. */
  function EncodeFragments(tag: byte, value: seq<byte>): (b: seq<byte>)
    decreases |value|
  {
    if |value| <= FRAGMENT_BYTES then [tag, |value|] + value
    else [tag, FRAGMENT_BYTES] + value[..FRAGMENT_BYTES] + EncodeFragments(tag, value[FRAGMENT_BYTES..])
  }

  function Encode(item: Item): seq<byte> {
    EncodeFragments(item.tag, item.value)
  }

  /** Type and length in front; 256 bytes make a full fragment and another one of the same type. */
  lemma ItemLayout(item: Item)
    ensures |item.value| <= 255 ==> Encode(item) == [item.tag, |item.value|] + item.value
    ensures |item.value| == 256 ==>
              Encode(item) == [item.tag, 0xFF] + item.value[..255] + [item.tag, 1, item.value[255]]
  {
    if |item.value| == 256 {
      assert item.value[255..] == [item.value[255]];
      assert EncodeFragments(item.tag, item.value[255..]) == [item.tag, 1, item.value[255]];
    }
  }

  /** One more fragment at the front. */
  lemma JoinStep(tag: byte, k: nat, acc: seq<byte>, fragment: seq<byte>, rest: seq<byte>)
    requires |acc| == k * 255 && 1 <= |fragment| <= FRAGMENT_BYTES
    ensures var b := [tag, |fragment|] + fragment + rest;
            var r := Join(rest, tag, k + 1, acc + fragment);
            Join(b, tag, k, acc) == if r.Err? then r else Ok((r.value.0, 2 + |fragment| + r.value.1))
  {
    var b := [tag, |fragment|] + fragment + rest;
    assert b[2 + |fragment|..] == rest && b[2..2 + |fragment|] == fragment;
    assert b[0] == tag && b[1] == |fragment|;
  }

  lemma SplitFragments(tag: byte, value: seq<byte>, rest: seq<byte>)
    requires |value| > FRAGMENT_BYTES
    ensures var first, more := value[..FRAGMENT_BYTES], value[FRAGMENT_BYTES..];
            && first + more == value && |first| == FRAGMENT_BYTES
            && EncodeFragments(tag, value) + rest == [tag, |first|] + first + (EncodeFragments(tag, more) + rest)
            && |EncodeFragments(tag, value)| == 2 + |first| + |EncodeFragments(tag, more)|
  {
  }

  lemma JoinLast(tag: byte, k: nat, acc: seq<byte>, value: seq<byte>, rest: seq<byte>)
    requires 1 <= |value| <= FRAGMENT_BYTES && |acc| == k * 255 && (rest == [] || rest[0] != tag)
    ensures Join(EncodeFragments(tag, value) + rest, tag, k, acc) == Ok((acc + value, |EncodeFragments(tag, value)|))
  {
    JoinStep(tag, k, acc, value, rest);
  }

  lemma JoinMore(tag: byte, k: nat, acc: seq<byte>, first: seq<byte>, tail: seq<byte>, more: seq<byte>, consumed: nat)
    requires |first| == FRAGMENT_BYTES && |acc| == k * 255
    requires Join(tail, tag, k + 1, acc + first) == Ok((acc + first + more, consumed))
    ensures Join([tag, |first|] + first + tail, tag, k, acc) == Ok((acc + (first + more), 2 + |first| + consumed))
  {
    JoinStep(tag, k, acc, first, tail);
    assert acc + first + more == acc + (first + more);
  }

  /** Joining the fragments of `value` behind full ones gives `acc + value`. */
  lemma {:induction false} JoinFragments(tag: byte, k: nat, acc: seq<byte>, value: seq<byte>, rest: seq<byte>)
    requires value != [] && |acc| == k * 255 && (rest == [] || rest[0] != tag)
    ensures Join(EncodeFragments(tag, value) + rest, tag, k, acc) == Ok((acc + value, |EncodeFragments(tag, value)|))
    decreases |value|
  {
    if |value| <= FRAGMENT_BYTES {
      JoinLast(tag, k, acc, value, rest);
    } else {
      var first, more := value[..FRAGMENT_BYTES], value[FRAGMENT_BYTES..];
      SplitFragments(tag, value, rest);
      JoinFragments(tag, k + 1, acc + first, more, rest);
      JoinMore(tag, k, acc, first, EncodeFragments(tag, more) + rest, more, |EncodeFragments(tag, more)|);
    }
  }

  /** Reading an encoded item gives it back, unless an item of the same type follows immediately. */
  lemma ReadEncoded(item: Item, rest: seq<byte>)
    requires rest == [] || rest[0] != item.tag
    ensures ReadItem(Encode(item) + rest) == Ok(Next(item, |Encode(item)|))
  {
    var b := Encode(item) + rest;
    if |item.value| <= FRAGMENT_BYTES {
      assert b[2 + |item.value|..] == rest && b[2..2 + |item.value|] == item.value;
    } else {
      var first, more := item.value[..FRAGMENT_BYTES], item.value[FRAGMENT_BYTES..];
      var tail := EncodeFragments(item.tag, more) + rest;
      SplitFragments(item.tag, item.value, rest);
      assert b[2 + |first|..] == tail && b[2..2 + |first|] == first;
      JoinFragments(item.tag, 1, first, more, rest);
    }
  }

  /** What has been joined behind `acc` was the encoding of just that. */
  predicate Reencoded(b: seq<byte>, tag: byte, k: nat, acc: seq<byte>, value: seq<byte>, consumed: nat) {
    && acc <= value && consumed <= |b|
    && (consumed == 0 <==> value[|acc|..] == []) && (consumed > 0 ==> |acc| == k * 255)
    && (consumed > 0 ==> b[..consumed] == EncodeFragments(tag, value[|acc|..]))
  }

  lemma {:induction false} JoinReencodes(b: seq<byte>, tag: byte, k: nat, acc: seq<byte>)
    requires Join(b, tag, k, acc).Ok?
    ensures var (value, consumed) := Join(b, tag, k, acc).value; Reencoded(b, tag, k, acc, value, consumed)
    decreases |b|
  {
    if b != [] && b[0] == tag {
      var n: nat := b[1];
      JoinReencodes(b[2 + n..], tag, k + 1, acc + b[2..2 + n]);
      var (value, consumed) := Join(b[2 + n..], tag, k + 1, acc + b[2..2 + n]).value;
      FragmentInFront(b, tag, acc, value, consumed);
      assert value[|acc|..] != [];
    }
  }

  lemma FragmentInFront(b: seq<byte>, tag: byte, acc: seq<byte>, value: seq<byte>, consumed: nat)
    requires |b| >= 2 && b[0] == tag && b[1] != 0
    requires var n: nat := b[1];
             && |b| - 2 >= n && acc + b[2..2 + n] <= value && consumed <= |b| - 2 - n
             && var rest := value[|acc| + n..];
                && (consumed == 0 <==> rest == []) && (consumed > 0 ==> n == FRAGMENT_BYTES)
                && (rest != [] ==> b[2 + n..][..consumed] == EncodeFragments(tag, rest))
    ensures var n: nat := b[1]; b[..2 + n + consumed] == EncodeFragments(tag, value[|acc|..])
  {
    var n: nat := b[1];
    var fragment, rest := b[2..2 + n], value[|acc| + n..];
    assert value[|acc|..] == fragment + rest by {
      assert value == acc + fragment + rest;
    }
    assert b[..2 + n + consumed] == [tag, n] + fragment + b[2 + n..][..consumed];
    if rest == [] {
      assert fragment + rest == fragment;
    } else {
      assert (fragment + rest)[..FRAGMENT_BYTES] == fragment && (fragment + rest)[FRAGMENT_BYTES..] == rest;
    }
  }

  lemma EmptyFirstFragment(b: seq<byte>)
    requires |b| >= 2 && b[1] == 0 && ReadItem(b).Ok?
    ensures ReadItem(b).value == Next(Item(b[0], []), 2) && b[..2] == Encode(Item(b[0], []))
  {
    assert b[2..2] == [];
  }

  /** The bytes of an item that is read are its encoding: no other spelling is accepted. */
  lemma ReadReencodes(b: seq<byte>)
    requires b != [] && ReadItem(b).Ok?
    ensures var r := ReadItem(b).value; b[..r.consumed] == Encode(r.item)
  {
    var n: nat := b[1];
    if n == 0 {
      EmptyFirstFragment(b);
    } else {
      JoinReencodes(b[2 + n..], b[0], 1, b[2..2 + n]);
      var (value, consumed) := Join(b[2 + n..], b[0], 1, b[2..2 + n]).value;
      assert [] + b[2..2 + n] == b[2..2 + n];
      FragmentInFront(b, b[0], [], value, consumed);
    }
  }

  // ------------------------------------------------------------------ the code

  /** A value in a buffer: `numBytes` bytes from `start`, followed by a NUL. */
  datatype Region = Region(start: nat, numBytes: nat)

  predicate Holds(bytes: seq<byte>, r: Region, value: seq<byte>) {
    && r.start + r.numBytes < |bytes|
    && bytes[r.start..r.start + r.numBytes] == value
    && bytes[r.start + r.numBytes] == 0
  }

  datatype Found = Found(tag: byte, value: Region, next: nat)

  /** Moves one fragment of `n` bytes down to `to` and clears what it leaves behind. */
  method MoveFragment(buffer: array<byte>, to: nat, from: nat, n: nat)
    requires to <= from && from + n <= buffer.Length
    modifies buffer
    ensures buffer[to..to + n] == old(buffer[from..from + n])
    ensures forall k :: to + n <= k < from + n ==> buffer[k] == 0
    ensures forall k :: 0 <= k < buffer.Length && !(to <= k < from + n) ==> buffer[k] == old(buffer[k])
  {
    forall k | 0 <= k < n {
      buffer[to + k] := buffer[from + k];
    }
    forall k | to + n <= k < from + n {
      buffer[k] := 0;
    }
  }

  /**
    `k` fragments are joined at `start` to `acc`; behind it there are zeros up to the read position
    `o`, and everything else is as in `was`.
  */
  predicate Joined(now: seq<byte>, was: seq<byte>, start: nat, o: nat, k: nat, acc: seq<byte>) {
    && |now| == |was| && start + |acc| + 2 * k == o <= |was|
    && now[start..start + |acc|] == acc
    && (forall i :: start + |acc| <= i < o ==> now[i] == 0)
    && (forall i :: 0 <= i < |was| && !(start <= i < o) ==> now[i] == was[i])
  }

  /** Joins the fragment at `o`; its header is checked already. */
  method JoinFragment(buffer: array<byte>, ghost was: seq<byte>, start: nat, o: nat, k: nat, n: nat,
                      ghost acc: seq<byte>)
    returns (next: nat)
    requires Joined(buffer[..], was, start, o, k, acc) && o + 2 + n <= buffer.Length
    modifies buffer
    ensures next == o + 2 + n && Joined(buffer[..], was, start, next, k + 1, acc + was[o + 2..next])
  {
    ghost var fragment := was[o + 2..o + 2 + n];
    assert fragment == buffer[o + 2..o + 2 + n];
    MoveFragment(buffer, o - 2 * k, o + 2, n);
    next := o + 2 + n;
    assert buffer[start..start + |acc|] == acc;
    assert buffer[start..start + |acc + fragment|] == acc + fragment;
  }

  lemma SliceOfSlice(s: seq<byte>, a: nat, b: nat, i: nat, j: nat)
    requires a <= b <= |s| && i <= j <= b - a
    ensures s[a..b][i..j] == s[a + i..a + j]
  {
    forall k | 0 <= k < j - i
      ensures s[a..b][i..j][k] == s[a + i..a + j][k]
    {
    }
  }

  /** The outcome of joining from here on, once `o` has been reached, is the outcome from `first` on. */
  predicate SameOutcome(all: Result<(seq<byte>, nat)>, first: nat, rest: Result<(seq<byte>, nat)>, o: nat) {
    if rest.Err? then all.Err?
    else all.Ok? && all.value.0 == rest.value.0 && first + all.value.1 == o + rest.value.1
  }

  /** Whether the fragment at `o` can be joined. */
  predicate Joinable(was: seq<byte>, o: nat, end: nat, k: nat, acc: seq<byte>)
    requires o <= end <= |was|
  {
    end - o >= 2 && |acc| == k * 255 && was[o + 1] != 0 && end - o - 2 >= was[o + 1]
  }

  function After(was: seq<byte>, o: nat): nat
    requires o + 1 < |was|
  {
    var n: nat := was[o + 1];
    o + 2 + n
  }

  lemma OutcomeMoves(all: Result<(seq<byte>, nat)>, first: nat, was: seq<byte>, o: nat, end: nat, tag: byte, k: nat,
                     acc: seq<byte>)
    requires o < end <= |was| && was[o] == tag && SameOutcome(all, first, Join(was[o..end], tag, k, acc), o)
    ensures !Joinable(was, o, end, k, acc) ==> all.Err?
    ensures Joinable(was, o, end, k, acc) ==>
              var next := After(was, o);
              SameOutcome(all, first, Join(was[next..end], tag, k + 1, acc + was[o + 2..next]), next)
  {
    var left := was[o..end];
    assert left[0] == tag;
    assert |left| >= 2 ==> left[1] == was[o + 1];
    if Joinable(was, o, end, k, acc) {
      var n: nat := left[1];
      SliceOfSlice(was, o, end, 2, 2 + n);
      SliceOfSlice(was, o, end, 2 + n, |left|);
      assert left[2 + n..] == left[2 + n..|left|];
    }
  }

  /** One more fragment: an error, or the position behind it. */
  method JoinNext(buffer: array<byte>, ghost was: seq<byte>, start: nat, end: nat, o: nat, numBytes: nat, k: nat,
                  ghost acc: seq<byte>)
    returns (r: Result<nat>)
    requires Joined(buffer[..], was, start, o, k, acc) && numBytes == |acc| && o < end <= buffer.Length
    modifies buffer
    ensures r.Ok? <==> Joinable(was, o, end, k, acc)
    ensures r.Err? ==> buffer[..] == old(buffer[..])
    ensures r.Ok? ==> && r.value == After(was, o)
                      && Joined(buffer[..], was, start, r.value, k + 1, acc + was[o + 2..r.value])
  {
    assert end - o >= 2 ==> buffer[o + 1] == was[o + 1];
    if end - o < 2 {
      return Err(InvalidData);
    }
    if numBytes != k * 255 {
      return Err(InvalidData);
    }
    var n: nat := buffer[o + 1];
    if n == 0 {
      return Err(InvalidData);
    }
    if end - o - 2 < n {
      return Err(InvalidData);
    }
    var next := JoinFragment(buffer, was, start, o, k, n, acc);
    return Ok(next);
  }

  /** One more fragment, and what it means for the outcome. */
  method JoinStepped(buffer: array<byte>, ghost was: seq<byte>, start: nat, end: nat, o: nat, k: nat, tag: byte,
                     ghost acc: seq<byte>, ghost all: Result<(seq<byte>, nat)>, ghost first: nat)
    returns (r: Result<nat>, ghost joined: seq<byte>)
    requires Joined(buffer[..], was, start, o, k, acc) && o < end <= buffer.Length && buffer[o] == tag
    requires SameOutcome(all, first, Join(was[o..end], tag, k, acc), o)
    modifies buffer
    ensures r.Err? ==> all.Err? && joined == acc && buffer[..] == old(buffer[..])
    ensures r.Ok? ==> && o < r.value <= end
                      && Joined(buffer[..], was, start, r.value, k + 1, joined)
                      && SameOutcome(all, first, Join(was[r.value..end], tag, k + 1, joined), r.value)
  {
    assert buffer[o] == was[o];
    OutcomeMoves(all, first, was, o, end, tag, k, acc);
    r := JoinNext(buffer, was, start, end, o, o - start - 2 * k, k, acc);
    joined := if r.Ok? then acc + was[o + 2..r.value] else acc;
  }

  function Outcome(all: Result<(seq<byte>, nat)>, start: nat, first: nat, tag: byte): Result<Found> {
    if all.Err? then Err(InvalidData) else Ok(Found(tag, Region(start, |all.value.0|), first + all.value.1))
  }

  /**
    The rest of an item, from its first fragment on. `all` is the outcome expected; the ghost results
    say how far it got.
  */
  method JoinAll(buffer: array<byte>, ghost was: seq<byte>, start: nat, end: nat, first: nat, tag: byte,
                 ghost acc: seq<byte>, ghost all: Result<(seq<byte>, nat)>)
    returns (r: Result<Found>, ghost at: nat, ghost k: nat, ghost joined: seq<byte>)
    requires Joined(buffer[..], was, start, first, 1, acc) && first <= end <= buffer.Length
    requires all == Join(was[first..end], tag, 1, acc)
    modifies buffer
    ensures at <= end && k >= 1 && Joined(buffer[..], was, start, at, k, joined)
    ensures r == Outcome(all, start, first, tag)
    ensures r.Ok? ==> all == Ok((joined, at - first))
  {
    var o, numFragments := first, 1;
    joined := acc;
    while o < end && buffer[o] == tag
      invariant first <= o <= end && numFragments >= 1
      invariant Joined(buffer[..], was, start, o, numFragments, joined)
      invariant SameOutcome(all, first, Join(was[o..end], tag, numFragments, joined), o)
    {
      var next;
      next, joined := JoinStepped(buffer, was, start, end, o, numFragments, tag, joined, all, first);
      if next.Err? {
        return Err(InvalidData), o, numFragments, joined;
      }
      o, numFragments := next.value, numFragments + 1;
    }
    JoinEnds(all, first, buffer[..], was, start, o, end, tag, numFragments, joined);
    return Ok(Found(tag, Region(start, o - start - 2 * numFragments), o)), o, numFragments, joined;
  }

  lemma JoinEnds(all: Result<(seq<byte>, nat)>, first: nat, now: seq<byte>, was: seq<byte>, start: nat, o: nat,
                 end: nat, tag: byte, k: nat, acc: seq<byte>)
    requires first <= o <= end <= |was| && Joined(now, was, start, o, k, acc) && (o < end ==> now[o] != tag)
    requires SameOutcome(all, first, Join(was[o..end], tag, k, acc), o)
    ensures all == Ok((acc, o - first)) && |acc| == o - start - 2 * k
  {
    assert o < end ==> was[o..end][0] == was[o] == now[o];
  }

  /** What the first fragment, of `n` bytes, and those behind it amount to. */
  function FromFragments(was: seq<byte>, start: nat, end: nat, n: nat): Result<Next>
    requires start + 2 + n <= end <= |was|
  {
    var rest := Join(was[start + 2 + n..end], was[start], 1, was[start + 2..start + 2 + n]);
    if rest.Err? then Err(rest.error) else Ok(Next(Item(was[start], rest.value.0), 2 + n + rest.value.1))
  }

  lemma ReadItemUnfolds(was: seq<byte>, start: nat, end: nat)
    requires start < end <= |was|
    ensures var spec := ReadItem(was[start..end]);
            if end - start < 2 then spec == Err(InvalidData)
            else
              var n: nat := was[start + 1];
              spec == if end - start - 2 < n then Err(InvalidData) else FromFragments(was, start, end, n)
  {
    var b := was[start..end];
    if end - start >= 2 {
      var n: nat := was[start + 1];
      assert b[0] == was[start] && b[1] == n;
      if end - start - 2 >= n {
        SliceOfSlice(was, start, end, 2, 2 + n);
        SliceOfSlice(was, start, end, 2 + n, end - start);
        assert b[2 + n..] == b[2 + n..end - start];
      }
    }
  }

  /** Only bytes of the request between `start` and `end` have changed. */
  predicate Within(was: seq<byte>, now: seq<byte>, start: nat, end: nat) {
    |now| == |was| && forall i :: 0 <= i < |was| && !(start <= i < end) ==> now[i] == was[i]
  }

  /** The outcome of reading an item in place: the value stays inside the item's own bytes. */
  predicate Read(was: seq<byte>, now: seq<byte>, start: nat, end: nat, spec: Result<Next>, r: Result<Found>) {
    if spec.Err? then r == Err(InvalidData) && Within(was, now, start, end)
    else
      var next := start + spec.value.consumed;
      && r == Ok(Found(spec.value.item.tag, Region(start, |spec.value.item.value|), next))
      && |spec.value.item.value| + 2 <= spec.value.consumed
      && Within(was, now, start, next) && Holds(now, r.value.value, spec.value.item.value)
  }

  /** Reads the item at `start` of a request that ends at `end`. */
  method GetNext(buffer: array<byte>, start: nat, end: nat) returns (r: Result<Found>)
    requires start < end <= buffer.Length
    modifies buffer
    ensures Read(old(buffer[..]), buffer[..], start, end, ReadItem(old(buffer[..])[start..end]), r)
  {
    ghost var was := buffer[..];
    ReadItemUnfolds(was, start, end);
    var maxBytes := end - start;
    if maxBytes < 2 {
      return Err(InvalidData);
    }
    var tag := buffer[start];
    var numFragmentBytes: nat := buffer[start + 1];
    if maxBytes - 2 < numFragmentBytes {
      return Err(InvalidData);
    }
    r := GetFragments(buffer, was, start, end, tag, numFragmentBytes);
  }

  /** The first fragment and those behind it. */
  method GetFragments(buffer: array<byte>, ghost was: seq<byte>, start: nat, end: nat, tag: byte, n: nat)
    returns (r: Result<Found>)
    requires was == buffer[..] && start + 2 + n <= end <= buffer.Length && tag == was[start]
    modifies buffer
    ensures Read(was, buffer[..], start, end, FromFragments(was, start, end, n), r)
  {
    var first := JoinFirst(buffer, was, start, n);
    ghost var at, k, joined;
    ghost var acc := was[start + 2..first];
    r, at, k, joined := JoinAll(buffer, was, start, end, first, tag, acc, Join(was[first..end], tag, 1, acc));
    ReadFromJoined(was, buffer[..], start, end, n, at, k, joined, r);
  }

  lemma ReadFromJoined(was: seq<byte>, now: seq<byte>, start: nat, end: nat, n: nat,
                       at: nat, k: nat, joined: seq<byte>, r: Result<Found>)
    requires start + 2 + n <= end <= |was| && at <= end && k >= 1 && Joined(now, was, start, at, k, joined)
    requires var first := start + 2 + n;
             r == Outcome(Join(was[first..end], was[start], 1, was[start + 2..first]), start, first, was[start])
    requires r.Ok? ==> r.value == Found(was[start], Region(start, |joined|), at)
                       && joined == Join(was[start + 2 + n..end], was[start], 1, was[start + 2..start + 2 + n]).value.0
    ensures Read(was, now, start, end, FromFragments(was, start, end, n), r)
  {
    JoinedHolds(now, was, start, at, end, k, joined);
  }

  method JoinFirst(buffer: array<byte>, ghost was: seq<byte>, start: nat, n: nat) returns (first: nat)
    requires was == buffer[..] && start + 2 + n <= buffer.Length
    modifies buffer
    ensures first == start + 2 + n && Joined(buffer[..], was, start, first, 1, was[start + 2..first])
  {
    assert [] + was[start + 2..start + 2 + n] == was[start + 2..start + 2 + n];
    first := JoinFragment(buffer, was, start, start, 0, n, []);
  }

  /** Two header bytes have become free behind the value, so there is room for its NUL. */
  lemma JoinedHolds(now: seq<byte>, was: seq<byte>, start: nat, o: nat, end: nat, k: nat, acc: seq<byte>)
    requires k >= 1 && Joined(now, was, start, o, k, acc) && o <= end
    ensures Holds(now, Region(start, |acc|), acc) && Within(was, now, start, o) && Within(was, now, start, end)
    ensures |acc| + 2 <= o - start
  {
  }
}
