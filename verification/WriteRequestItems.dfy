/** What a write request says, read off the list of TLV items it consists of. */
module WriteRequestItems {
  import opened Base
  import opened Tlv
  import opened WriteRequest

  // ------------------------------------------------------------------ items by type

  predicate HasItem(items: seq<Item>, tag: byte) {
    exists k :: 0 <= k < |items| && items[k].tag == tag
  }

  /** The first item of a type comes at this place. */
  function IndexOf(items: seq<Item>, tag: byte): (k: nat)
    ensures k <= |items| && (k < |items| <==> HasItem(items, tag))
    ensures k < |items| ==> items[k].tag == tag
    ensures forall j :: 0 <= j < k ==> items[j].tag != tag
  {
    if items == [] || items[0].tag == tag then 0
    else
      var k := IndexOf(items[1..], tag);
      assert forall j :: 0 < j < |items| ==> items[j] == items[1..][j - 1];
      k + 1
  }

  function ValueOf(items: seq<Item>, tag: byte): seq<byte>
    requires HasItem(items, tag)
  {
    items[IndexOf(items, tag)].value
  }

  /** No type that is looked for comes twice; a second item of the type next to the first would be joined to it. */
  predicate Distinct(items: seq<Item>) {
    && (forall k :: 0 < k < |items| ==> items[k - 1].tag != items[k].tag)
    && (forall j, k :: 0 <= j < k < |items| && IsSought(items[j].tag) ==> items[j].tag != items[k].tag)
  }

  lemma FirstItemOf(items: seq<Item>, tag: byte)
    requires items != []
    ensures HasItem(items, tag) <==> items[0].tag == tag || HasItem(items[1..], tag)
    ensures HasItem(items, tag) ==>
              ValueOf(items, tag) == if items[0].tag == tag then items[0].value else ValueOf(items[1..], tag)
  {
  }

  /** `v` has exactly the sought items of the list, besides those in `found`. */
  predicate Collects(items: seq<Item>, found: Values, v: Values) {
    && (forall t :: t in v <==> t in found || (IsSought(t) && HasItem(items, t)))
    && (forall t :: t in v ==> v[t] == if t in found then found[t] else ValueOf(items, t))
  }

  lemma CollectsMore(items: seq<Item>, found: Values, v: Values)
    requires items != [] && IsSought(items[0].tag) && items[0].tag !in found
    requires Collects(items[1..], found[items[0].tag := items[0].value], v)
    requires !HasItem(items[1..], items[0].tag)
    ensures Collects(items, found, v)
  {
    forall t: byte
      ensures t in v <==> t in found || (IsSought(t) && HasItem(items, t))
      ensures t in v ==> v[t] == if t in found then found[t] else ValueOf(items, t)
    {
      FirstItemOf(items, t);
    }
  }

  lemma CollectsSkipped(items: seq<Item>, found: Values, v: Values)
    requires items != [] && !IsSought(items[0].tag) && Collects(items[1..], found, v)
    requires forall t :: t in found ==> IsSought(t)
    ensures Collects(items, found, v)
  {
    forall t: byte
      ensures t in v <==> t in found || (IsSought(t) && HasItem(items, t))
      ensures t in v ==> v[t] == if t in found then found[t] else ValueOf(items, t)
    {
      FirstItemOf(items, t);
    }
  }

  lemma {:induction false} CollectedItems(items: seq<Item>, found: Values)
    requires Distinct(items) && forall t :: t in found ==> IsSought(t) && !HasItem(items, t)
    ensures CollectItems(items, found).Ok? && Collects(items, found, CollectItems(items, found).value)
    decreases |items|
  {
    if items != [] {
      var rest, tag := items[1..], items[0].tag;
      assert Distinct(rest);
      assert !(IsSought(tag) && HasItem(rest, tag));
      forall t | t in found
        ensures t != tag && !HasItem(rest, t)
      {
        FirstItemOf(items, t);
      }
      if IsSought(tag) {
        CollectedItems(rest, found[tag := items[0].value]);
        CollectsMore(items, found, CollectItems(items, found).value);
      } else {
        CollectedItems(rest, found);
        CollectsSkipped(items, found, CollectItems(items, found).value);
      }
    }
  }

  // ------------------------------------------------------------------ which part comes first

  lemma {:induction false} OrderOfItems(items: seq<Item>)
    requires Distinct(items)
    ensures AuthFirst(EncodeAll(items)) <==>
              HasItem(items, AUTHORIZATION_DATA) && IndexOf(items, AUTHORIZATION_DATA) < IndexOf(items, VALUE)
    decreases |items|
  {
    if items != [] {
      var rest := EncodeAll(items[1..]);
      if rest != [] {
        StartsWithTag(items[1..]);
      }
      ReadEncoded(items[0], rest);
      assert EncodeAll(items)[|Encode(items[0])|..] == rest;
      assert Distinct(items[1..]);
      OrderOfItems(items[1..]);
      FirstItemOf(items, AUTHORIZATION_DATA);
    }
  }

  // ------------------------------------------------------------------ the request

  predicate Is(items: seq<Item>, tag: byte, value: seq<byte>) {
    HasItem(items, tag) && ValueOf(items, tag) == value
  }

  /** The list is a request: with a value, and every other item it may have as it should be. */
  predicate Acceptable(items: seq<Item>, supportsAuth: bool) {
    && HasItem(items, VALUE)
    && (HasItem(items, ORIGIN) ==> Is(items, ORIGIN, [0]) || Is(items, ORIGIN, [1]))
    && (HasItem(items, AUTHORIZATION_DATA) && supportsAuth ==> HasItem(items, ORIGIN))
    && (HasItem(items, TTL) ==> |ValueOf(items, TTL)| == 1)
    && (HasItem(items, RETURN_RESPONSE) ==> Is(items, RETURN_RESPONSE, [1]))
  }

  /** What it says. */
  predicate Says(items: seq<Item>, supportsAuth: bool, q: Request)
    requires Acceptable(items, supportsAuth)
  {
    && q.value == ValueOf(items, VALUE)
    && (q.returnResponse <==> HasItem(items, RETURN_RESPONSE))
    && (q.remote <==> Is(items, ORIGIN, [1]))
    && (q.auth.Some? <==> supportsAuth && HasItem(items, AUTHORIZATION_DATA))
    && (q.auth.Some? ==> && q.auth.value.data == ValueOf(items, AUTHORIZATION_DATA)
                         && (q.auth.value.isFirst <==> IndexOf(items, AUTHORIZATION_DATA) < IndexOf(items, VALUE)))
    && (if HasItem(items, TTL) then ValueOf(items, TTL) == [q.ttl] else q.ttl == 0)
  }

  /**
    The bytes of a list of items are read as a request exactly when the list is one, and then as saying
    what the list says.
  */
  lemma RequestSaysItems(items: seq<Item>, supportsAuth: bool)
    requires Distinct(items)
    ensures var r := ReadRequest(EncodeAll(items), supportsAuth);
            && (r.Ok? <==> Acceptable(items, supportsAuth))
            && (r.Ok? ==> Says(items, supportsAuth, r.value))
  {
    EncodedItemsCollected(items, map[]);
    CollectedItems(items, map[]);
    OrderOfItems(items);
    InterpretedItems(items, CollectItems(items, map[]).value, supportsAuth, AuthFirst(EncodeAll(items)));
  }

  lemma InterpretedItems(items: seq<Item>, v: Values, supportsAuth: bool, authFirst: bool)
    requires Collects(items, map[], v)
    requires authFirst <==>
               HasItem(items, AUTHORIZATION_DATA) && IndexOf(items, AUTHORIZATION_DATA) < IndexOf(items, VALUE)
    ensures var r := Interpret(v, supportsAuth, authFirst);
            && (r.Ok? <==> Acceptable(items, supportsAuth))
            && (r.Ok? ==> Says(items, supportsAuth, r.value))
  {
    assert forall t :: IsSought(t) ==> (t in v <==> HasItem(items, t));
  }

  /** A second item of a type that is looked for makes the request invalid, wherever it comes. */
  lemma DuplicateRejected(items: seq<Item>, supportsAuth: bool, j: nat, k: nat)
    requires j < k < |items| && items[j].tag == items[k].tag && IsSought(items[j].tag)
    requires forall n :: 0 < n < |items| ==> items[n - 1].tag != items[n].tag
    ensures ReadRequest(EncodeAll(items), supportsAuth).Err?
  {
    EncodedItemsCollected(items, map[]);
    DuplicateItem(items, map[], j, k);
  }

  lemma {:induction false} DuplicateItem(items: seq<Item>, found: Values, j: nat, k: nat)
    requires j < k < |items| && items[j].tag == items[k].tag && IsSought(items[j].tag)
    ensures CollectItems(items, found).Err?
    decreases |items|
  {
    var next := if IsSought(items[0].tag) then found[items[0].tag := items[0].value] else found;
    if j > 0 {
      DuplicateItem(items[1..], next, j - 1, k - 1);
    } else {
      FoundItem(items[1..], next, k - 1);
    }
  }

  lemma {:induction false} FoundItem(items: seq<Item>, found: Values, k: nat)
    requires k < |items| && IsSought(items[k].tag) && items[k].tag in found
    ensures CollectItems(items, found).Err?
    decreases |items|
  {
    if k > 0 {
      FoundItem(items[1..], if IsSought(items[0].tag) then found[items[0].tag := items[0].value] else found, k - 1);
    }
  }
}
