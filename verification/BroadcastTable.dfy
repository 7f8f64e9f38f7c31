/**
  Stored broadcast configuration: which characteristics broadcast, and how often. One record in the
  key-value store holds the accessory ID and then, sorted by instance ID, three bytes for each
  characteristic. First the record as bytes and what the operations do to it, then the proof that
  all of this is a finite map from instance IDs to intervals, then the code.
*/
module BroadcastTable {
  import opened Base

  const AID: u16 := 1

  /** Size of the local buffer, one byte more than the longest accepted record. */
  const BUFFER_BYTES := 2 + 3 * 42 + 1

  const CAPACITY := 41

  predicate IsValidInterval(interval: byte) {
    1 <= interval <= 3
  }

  datatype Item = Item(cid: u16, interval: byte)

  // ------------------------------------------------------------------ records

  predicate IsRecord(b: seq<byte>) {
    |b| >= 2 && (|b| - 2) % 3 == 0
  }

  function Word(b: seq<byte>, i: nat): u16
    requires i + 1 < |b|
  {
    ReadLittle16([b[i], b[i + 1]])
  }

  function ItemAt(b: seq<byte>, k: nat): Item
    requires 2 + 3 * k + 2 < |b|
  {
    Item(Word(b, 2 + 3 * k), b[2 + 3 * k + 2])
  }

  function Items(b: seq<byte>): (items: seq<Item>)
    requires IsRecord(b)
    ensures |b| == 2 + 3 * |items|
  {
    seq((|b| - 2) / 3, k requires 0 <= k < (|b| - 2) / 3 => ItemAt(b, k))
  }

  function ItemBytes(item: Item): (b: seq<byte>)
    ensures |b| == 3
  {
    WriteLittle16(item.cid) + [item.interval]
  }

  /** The first item at or behind `k` whose instance ID is not smaller. */
  function Position(items: seq<Item>, cid: u16, k: nat): (p: nat)
    requires k <= |items|
    ensures k <= p <= |items|
    ensures forall j :: k <= j < p ==> items[j].cid < cid
    ensures p < |items| ==> items[p].cid >= cid
    decreases |items| - k
  {
    if k == |items| || items[k].cid >= cid then k else Position(items, cid, k + 1)
  }

  predicate Has(items: seq<Item>, cid: u16) {
    var p := Position(items, cid, 0);
    p < |items| && items[p].cid == cid
  }

  /** The record with an item moved in before item `p`. */
  function Inserted(b: seq<byte>, p: nat, item: Item): (r: seq<byte>)
    requires 2 + 3 * p <= |b|
  {
    b[..2 + 3 * p] + ItemBytes(item) + b[2 + 3 * p..]
  }

  function Overwritten(b: seq<byte>, p: nat, interval: byte): (r: seq<byte>)
    requires 2 + 3 * p + 2 < |b|
  {
    b[2 + 3 * p + 2 := interval]
  }

  function Removed(b: seq<byte>, p: nat): (r: seq<byte>)
    requires 2 + 3 * p + 3 <= |b|
  {
    b[..2 + 3 * p] + b[2 + 3 * p + 3..]
  }

  lemma InsertedItems(b: seq<byte>, p: nat, item: Item)
    requires IsRecord(b) && p <= |Items(b)|
    ensures var r := Inserted(b, p, item);
            IsRecord(r) && r[..2] == b[..2] && Items(r) == Items(b)[..p] + [item] + Items(b)[p..]
  {
    var r := Inserted(b, p, item);
    assert Items(r)[p] == item;
    assert forall k :: p < k < |Items(r)| ==> ItemAt(r, k) == ItemAt(b, k - 1);
  }

  lemma OverwrittenItems(b: seq<byte>, p: nat, interval: byte)
    requires IsRecord(b) && p < |Items(b)|
    ensures var r := Overwritten(b, p, interval);
            IsRecord(r) && r[..2] == b[..2] && Items(r) == Items(b)[p := Item(Items(b)[p].cid, interval)]
  {
  }

  lemma RemovedItems(b: seq<byte>, p: nat)
    requires IsRecord(b) && p < |Items(b)|
    ensures var r := Removed(b, p);
            IsRecord(r) && r[..2] == b[..2] && Items(r) == Items(b)[..p] + Items(b)[p + 1..]
  {
    var r := Removed(b, p);
    assert forall k :: p <= k < |Items(r)| ==> ItemAt(r, k) == ItemAt(b, k + 1);
  }

  // ------------------------------------------------------------------ operations on the store

  /** The record under the one key in use, and which of the two accesses fail. */
  type Store = Option<seq<byte>>

  datatype Io = Io(readFails: bool, writeFails: bool)

  function Load(s: Store, io: Io): (r: Result<Store>)
    ensures r.Ok? && r.value.Some? ==> r.value == s && IsRecord(s.value) && Word(s.value, 0) == AID
  {
    if io.readFails then Err(Unknown)
    else if s.None? then Ok(None)
    else if !IsRecord(s.value) || |s.value| >= BUFFER_BYTES then Err(Unknown)
    else if Word(s.value, 0) != AID then Ok(None)
    else Ok(s)
  }

  function Get(s: Store, cid: u16, io: Io): Result<Option<byte>> {
    match Load(s, io)
    case Err(e) => Err(e)
    case Ok(None) => Ok(None)
    case Ok(Some(b)) =>
      var items := Items(b);
      var p := Position(items, cid, 0);
      if !Has(items, cid) then Ok(None)
      else if !IsValidInterval(items[p].interval) then Err(Unknown)
      else Ok(Some(items[p].interval))
  }

  /** What an operation does to the loaded record. */
  datatype Edit = Refused | Unchanged | Changed(record: seq<byte>)

  function EnableEdit(b: seq<byte>, cid: u16, interval: byte): (e: Edit)
    requires IsRecord(b)
  {
    var items := Items(b);
    var p := Position(items, cid, 0);
    if Has(items, cid) then
      if !IsValidInterval(items[p].interval) then Refused
      else if items[p].interval == interval then Unchanged
      else Changed(Overwritten(b, p, interval))
    else if |b| >= BUFFER_BYTES - 1 - 3 then Refused
    else Changed(Inserted(b, p, Item(cid, interval)))
  }

  function DisableEdit(b: seq<byte>, cid: u16): (e: Edit)
    requires IsRecord(b)
  {
    var items := Items(b);
    var p := Position(items, cid, 0);
    if !Has(items, cid) then Unchanged
    else if !IsValidInterval(items[p].interval) then Refused
    else Changed(Removed(b, p))
  }

  /** A record without items is removed from the store. */
  function Apply(s: Store, e: Edit, io: Io): (Store, Option<Error>) {
    match e
    case Refused => (s, Some(Unknown))
    case Unchanged => (s, None)
    case Changed(record) =>
      if io.writeFails then (s, Some(Unknown))
      else (if |record| == 2 then None else Some(record), None)
  }

  function Enable(s: Store, cid: u16, interval: byte, io: Io): (Store, Option<Error>) {
    var r := Load(s, io);
    if r.Err? then (s, Some(r.error))
    else
      Apply(s, EnableEdit(if r.value.None? then WriteLittle16(AID) else r.value.value, cid, interval), io)
  }

  function Disable(s: Store, cid: u16, io: Io): (Store, Option<Error>) {
    match Load(s, io)
    case Err(e) => (s, Some(e))
    case Ok(None) => (s, None)
    case Ok(Some(b)) => Apply(s, DisableEdit(b, cid), io)
  }

  // ------------------------------------------------------------------ sorted items as a map

  predicate Sorted(items: seq<Item>) {
    forall j, k :: 0 <= j < k < |items| ==> items[j].cid < items[k].cid
  }

  function Table(items: seq<Item>): map<u16, byte> {
    if items == [] then map[]
    else
      var last := items[|items| - 1];
      Table(items[..|items| - 1])[last.cid := last.interval]
  }

  lemma {:induction false} TableAppends(a: seq<Item>, b: seq<Item>)
    ensures Table(a + b) == Table(a) + Table(b)
    decreases |b|
  {
    if b == [] {
      assert a + b == a;
    } else {
      assert (a + b)[..|a + b| - 1] == a + b[..|b| - 1];
      TableAppends(a, b[..|b| - 1]);
    }
  }

  /** Every key is the instance ID of an item. */
  lemma {:induction false} TableKeys(items: seq<Item>, cid: u16)
    requires cid in Table(items)
    ensures exists k :: 0 <= k < |items| && items[k].cid == cid
    decreases |items|
  {
    if cid == items[|items| - 1].cid {
    } else {
      TableKeys(items[..|items| - 1], cid);
    }
  }

  lemma {:induction false} TableSize(items: seq<Item>)
    requires Sorted(items)
    ensures |Table(items)| == |items|
    decreases |items|
  {
    if items != [] {
      var front, last := items[..|items| - 1], items[|items| - 1];
      TableSize(front);
      if last.cid in Table(front) {
        TableKeys(front, last.cid);
      }
    }
  }

  /** All of `left` smaller and all of `right` larger than `cid`. */
  predicate Around(left: seq<Item>, cid: u16, right: seq<Item>) {
    && (forall item :: item in left ==> item.cid < cid)
    && (forall item :: item in right ==> item.cid > cid)
  }

  lemma MergeUpdated(m: map<u16, byte>, cid: u16, interval: byte, n: map<u16, byte>)
    requires cid !in n
    ensures m[cid := interval] + n == (m + n)[cid := interval]
  {
  }

  /** An item in its place between smaller and larger ones adds one binding to the map. */
  lemma TableAround(left: seq<Item>, item: Item, right: seq<Item>)
    requires Around(left, item.cid, right)
    ensures item.cid !in Table(left + right)
    ensures Table(left + [item] + right) == Table(left + right)[item.cid := item.interval]
  {
    if item.cid in Table(left) {
      TableKeys(left, item.cid);
    }
    if item.cid in Table(right) {
      TableKeys(right, item.cid);
    }
    TableAppends(left, right);
    TableAppends(left + [item], right);
    assert (left + [item])[..|left|] == left;
    MergeUpdated(Table(left), item.cid, item.interval, Table(right));
  }

  lemma Exchanged(items: seq<Item>, p: nat, item: Item)
    requires p < |items|
    ensures items[p := item] == items[..p] + [item] + items[p + 1..]
  {
  }

  /** Where the scan stops, a sorted sequence splits into smaller and larger instance IDs. */
  lemma SplitAt(items: seq<Item>, cid: u16)
    requires Sorted(items)
    ensures var p := Position(items, cid, 0);
            if Has(items, cid) then
              && Around(items[..p], cid, items[p + 1..])
              && items == items[..p] + [Item(cid, items[p].interval)] + items[p + 1..]
            else
              && Around(items[..p], cid, items[p..])
              && items == items[..p] + items[p..]
  {
    var p := Position(items, cid, 0);
    var q := if Has(items, cid) then p + 1 else p;
    forall item | item in items[q..]
      ensures item.cid > cid
    {
      var k :| q <= k < |items| && items[k] == item;
      assert p < k ==> items[p].cid < items[k].cid;
    }
    if Has(items, cid) {
      Exchanged(items, p, items[p]);
    }
  }

  lemma SortedAround(left: seq<Item>, item: Item, right: seq<Item>)
    requires Around(left, item.cid, right) && Sorted(left + right)
    ensures Sorted(left + [item] + right)
  {
    var r := left + [item] + right;
    forall j, k | 0 <= j < k < |r|
      ensures r[j].cid < r[k].cid
    {
      var n := |left|;
      assert k < n ==> (left + right)[j].cid < (left + right)[k].cid;
      assert j > n ==> (left + right)[j - 1].cid < (left + right)[k - 1].cid;
      assert j < n ==> left[j] in left;
      assert k > n ==> right[k - n - 1] in right;
    }
  }

  /** The early exit of the scan misses nothing in sorted items. */
  lemma HasIsMembership(items: seq<Item>, cid: u16)
    requires Sorted(items)
    ensures Has(items, cid) <==> cid in Table(items)
    ensures Has(items, cid) ==> Table(items)[cid] == items[Position(items, cid, 0)].interval
  {
    var p := Position(items, cid, 0);
    SplitAt(items, cid);
    if Has(items, cid) {
      TableAround(items[..p], Item(cid, items[p].interval), items[p + 1..]);
    } else {
      TableAround(items[..p], Item(cid, 0), items[p..]);
    }
  }

  lemma InsertedIsUpdate(items: seq<Item>, cid: u16, interval: byte)
    requires Sorted(items) && !Has(items, cid)
    ensures var p := Position(items, cid, 0);
            var r := items[..p] + [Item(cid, interval)] + items[p..];
            Sorted(r) && Table(r) == Table(items)[cid := interval]
  {
    var p := Position(items, cid, 0);
    SplitAt(items, cid);
    TableAround(items[..p], Item(cid, interval), items[p..]);
    SortedAround(items[..p], Item(cid, interval), items[p..]);
  }

  /** Taking an item out, or exchanging it for one with the same instance ID. */
  lemma TableWithout(left: seq<Item>, item: Item, right: seq<Item>)
    requires Around(left, item.cid, right)
    ensures Table(left + right) == Table(left + [item] + right) - {item.cid}
  {
    TableAround(left, item, right);
  }

  lemma SortedWithout(left: seq<Item>, item: Item, right: seq<Item>)
    requires Sorted(left + [item] + right)
    ensures Sorted(left + right)
  {
    var s, r := left + [item] + right, left + right;
    forall j, k | 0 <= j < k < |r|
      ensures r[j].cid < r[k].cid
    {
      var n := |left|;
      assert s[if j < n then j else j + 1].cid < s[if k < n then k else k + 1].cid;
    }
  }

  lemma RemovedIsRemoval(items: seq<Item>, cid: u16)
    requires Sorted(items) && Has(items, cid)
    ensures var p := Position(items, cid, 0);
            var r := items[..p] + items[p + 1..];
            Sorted(r) && Table(r) == Table(items) - {cid}
  {
    var p := Position(items, cid, 0);
    var item := Item(cid, items[p].interval);
    SplitAt(items, cid);
    TableWithout(items[..p], item, items[p + 1..]);
    SortedWithout(items[..p], item, items[p + 1..]);
  }

  lemma TableExchanged(left: seq<Item>, item: Item, interval: byte, right: seq<Item>)
    requires Around(left, item.cid, right)
    ensures Table(left + [Item(item.cid, interval)] + right) == Table(left + [item] + right)[item.cid := interval]
  {
    TableAround(left, item, right);
    TableAround(left, Item(item.cid, interval), right);
  }

  lemma OverwrittenIsUpdate(items: seq<Item>, cid: u16, interval: byte)
    requires Sorted(items) && Has(items, cid)
    ensures var r := items[Position(items, cid, 0) := Item(cid, interval)];
            Sorted(r) && Table(r) == Table(items)[cid := interval]
  {
    var p := Position(items, cid, 0);
    var item := Item(cid, items[p].interval);
    SplitAt(items, cid);
    Exchanged(items, p, Item(cid, interval));
    SortedWithout(items[..p], item, items[p + 1..]);
    SortedAround(items[..p], Item(cid, interval), items[p + 1..]);
    TableExchanged(items[..p], item, interval, items[p + 1..]);
  }

  // ------------------------------------------------------------------ refinement

  predicate ValidIntervals(items: seq<Item>) {
    forall item :: item in items ==> IsValidInterval(item.interval)
  }

  predicate GoodRecord(b: seq<byte>) {
    && IsRecord(b) && Word(b, 0) == AID && |Items(b)| <= CAPACITY
    && Sorted(Items(b)) && ValidIntervals(Items(b))
  }

  /** A record the operations write: never empty, sorted, at most 41 items. */
  predicate WellFormed(s: Store) {
    s.Some? ==> GoodRecord(s.value) && |s.value| > 2
  }

  function StoredItems(s: Store): seq<Item>
    requires WellFormed(s)
  {
    if s.None? then [] else Items(s.value)
  }

  function Contents(s: Store): map<u16, byte>
    requires WellFormed(s)
  {
    Table(StoredItems(s))
  }

  /** Reading is map lookup. */
  lemma GetIsLookup(s: Store, cid: u16, io: Io)
    requires WellFormed(s)
    ensures var m := Contents(s);
            Get(s, cid, io) == if io.readFails then Err(Unknown)
                               else Ok(if cid in m then Some(m[cid]) else None)
  {
    HasIsMembership(StoredItems(s), cid);
  }

  lemma InsertedRecord(b: seq<byte>, cid: u16, interval: byte)
    requires GoodRecord(b) && !Has(Items(b), cid) && |Items(b)| < CAPACITY && IsValidInterval(interval)
    ensures var r := Inserted(b, Position(Items(b), cid, 0), Item(cid, interval));
            GoodRecord(r) && |r| > 2 && Table(Items(r)) == Table(Items(b))[cid := interval]
  {
    var p := Position(Items(b), cid, 0);
    InsertedItems(b, p, Item(cid, interval));
    InsertedIsUpdate(Items(b), cid, interval);
    ValidInserted(Items(b), p, Item(cid, interval));
  }

  lemma ValidInserted(items: seq<Item>, p: nat, item: Item)
    requires p <= |items| && ValidIntervals(items) && IsValidInterval(item.interval)
    ensures ValidIntervals(items[..p] + [item] + items[p..])
  {
  }

  lemma OverwrittenRecord(b: seq<byte>, cid: u16, interval: byte)
    requires GoodRecord(b) && Has(Items(b), cid) && IsValidInterval(interval)
    ensures var r := Overwritten(b, Position(Items(b), cid, 0), interval);
            GoodRecord(r) && |r| == |b| && Table(Items(r)) == Table(Items(b))[cid := interval]
  {
    var p := Position(Items(b), cid, 0);
    OverwrittenItems(b, p, interval);
    OverwrittenIsUpdate(Items(b), cid, interval);
  }

  lemma RemovedRecord(b: seq<byte>, cid: u16)
    requires GoodRecord(b) && Has(Items(b), cid)
    ensures var r := Removed(b, Position(Items(b), cid, 0));
            GoodRecord(r) && |r| == |b| - 3 && Table(Items(r)) == Table(Items(b)) - {cid}
  {
    var p := Position(Items(b), cid, 0);
    RemovedItems(b, p);
    RemovedIsRemoval(Items(b), cid);
  }

  lemma EmptyRecord()
    ensures GoodRecord(WriteLittle16(AID)) && Items(WriteLittle16(AID)) == []
  {
  }

  /** `e` replaces the map `m` of a record by `m'`. */
  predicate Edits(m: map<u16, byte>, e: Edit, m': map<u16, byte>) {
    match e
    case Refused => false
    case Unchanged => m' == m
    case Changed(record) => GoodRecord(record) && Table(Items(record)) == m'
  }

  lemma EnableEdits(b: seq<byte>, cid: u16, interval: byte)
    requires GoodRecord(b) && IsValidInterval(interval)
    ensures var m, e := Table(Items(b)), EnableEdit(b, cid, interval);
            && (e.Refused? <==> cid !in m && |m| == CAPACITY)
            && (e.Unchanged? <==> cid in m && m[cid] == interval)
            && (!e.Refused? ==> Edits(m, e, m[cid := interval]))
            && (e.Changed? ==> |e.record| > 2)
  {
    TableSize(Items(b));
    HasIsMembership(Items(b), cid);
    if Has(Items(b), cid) {
      OverwrittenRecord(b, cid, interval);
    } else if |Items(b)| < CAPACITY {
      InsertedRecord(b, cid, interval);
    }
  }

  lemma DisableEdits(b: seq<byte>, cid: u16)
    requires GoodRecord(b)
    ensures var m, e := Table(Items(b)), DisableEdit(b, cid);
            && (e.Changed? <==> cid in m)
            && Edits(m, e, m - {cid})
  {
    HasIsMembership(Items(b), cid);
    if Has(Items(b), cid) {
      RemovedRecord(b, cid);
    }
  }

  lemma ApplyKeeps(s: Store, e: Edit, io: Io, m: map<u16, byte>)
    requires WellFormed(s) && Edits(Contents(s), e, m)
    ensures var (s', error) := Apply(s, e, io);
            && WellFormed(s')
            && (error.None? ==> Contents(s') == m)
            && (error.Some? <==> e.Changed? && io.writeFails)
  {
  }

  /** Enabling is map update; a full table refuses a new instance ID; any failure leaves the store as it was. */
  lemma EnableIsUpdate(s: Store, cid: u16, interval: byte, io: Io)
    requires WellFormed(s) && IsValidInterval(interval)
    ensures var m := Contents(s);
            var (s', error) := Enable(s, cid, interval, io);
            && WellFormed(s')
            && (error.None? ==> Contents(s') == m[cid := interval])
            && (error.Some? ==> s' == s && error == Some(Unknown))
            && (error.Some? <==> || io.readFails
                                 || (cid !in m && |m| == CAPACITY)
                                 || (io.writeFails && (cid !in m || m[cid] != interval)))
  {
    EmptyRecord();
    var b := if s.None? then WriteLittle16(AID) else s.value;
    EnableEdits(b, cid, interval);
    if !EnableEdit(b, cid, interval).Refused? {
      ApplyKeeps(s, EnableEdit(b, cid, interval), io, Contents(s)[cid := interval]);
    }
  }

  /** Disabling is map removal; the last removal removes the record itself. */
  lemma DisableIsRemoval(s: Store, cid: u16, io: Io)
    requires WellFormed(s)
    ensures var m := Contents(s);
            var (s', error) := Disable(s, cid, io);
            && WellFormed(s')
            && (error.None? ==> Contents(s') == m - {cid})
            && (error.Some? ==> s' == s && error == Some(Unknown))
            && (error.Some? <==> io.readFails || (io.writeFails && cid in m))
  {
    if s.Some? {
      DisableEdits(s.value, cid);
      ApplyKeeps(s, DisableEdit(s.value, cid), io, Contents(s) - {cid});
    }
  }

  /** The last of sorted items has the largest key. */
  lemma LastKey(items: seq<Item>)
    requires Sorted(items) && items != []
    ensures var last := items[|items| - 1];
            && last.cid in Table(items) && (forall cid :: cid in Table(items) ==> cid <= last.cid)
            && Table(items)[last.cid] == last.interval
            && Table(items[..|items| - 1]) == Table(items) - {last.cid}
  {
    var front, last := items[..|items| - 1], items[|items| - 1];
    forall cid | cid in Table(front)
      ensures cid < last.cid
    {
      TableKeys(front, cid);
    }
    UpdateRemoved(Table(front), last.cid, last.interval);
  }

  lemma SameLast(a: seq<Item>, b: seq<Item>)
    requires Sorted(a) && Sorted(b) && a != [] && b != [] && Table(a) == Table(b)
    ensures a[|a| - 1] == b[|b| - 1] && Table(a[..|a| - 1]) == Table(b[..|b| - 1])
    ensures Sorted(a[..|a| - 1]) && Sorted(b[..|b| - 1])
  {
    LastKey(a);
    LastKey(b);
  }

  lemma SameFront(a: seq<Item>, b: seq<Item>)
    requires a != [] && b != [] && a[..|a| - 1] == b[..|b| - 1] && a[|a| - 1] == b[|b| - 1]
    ensures a == b
  {
    assert a == a[..|a| - 1] + [a[|a| - 1]];
    assert b == b[..|b| - 1] + [b[|b| - 1]];
  }

  /** Sorted items are determined by their map. */
  lemma {:induction false} TableInjective(a: seq<Item>, b: seq<Item>)
    requires Sorted(a) && Sorted(b) && Table(a) == Table(b)
    ensures a == b
    decreases |a|
  {
    if a == [] {
      TableSize(b);
    } else if b == [] {
      TableSize(a);
    } else {
      SameLast(a, b);
      TableInjective(a[..|a| - 1], b[..|b| - 1]);
      SameFront(a, b);
    }
  }

  lemma {:induction false} ItemsInjective(a: seq<byte>, b: seq<byte>)
    requires IsRecord(a) && IsRecord(b) && Items(a) == Items(b) && Word(a, 0) == Word(b, 0)
    ensures a == b
  {
    ReadLittle16Injective([a[0], a[1]]);
    ReadLittle16Injective([b[0], b[1]]);
    forall i | 2 <= i < |a|
      ensures a[i] == b[i]
    {
      var k := (i - 2) / 3;
      assert ItemAt(a, k) == Items(a)[k] == Items(b)[k] == ItemAt(b, k);
      ReadLittle16Injective([a[2 + 3 * k], a[2 + 3 * k + 1]]);
      ReadLittle16Injective([b[2 + 3 * k], b[2 + 3 * k + 1]]);
    }
  }

  /** The representation is canonical: the map determines the stored bytes. */
  lemma ContentsInjective(s: Store, t: Store)
    requires WellFormed(s) && WellFormed(t) && Contents(s) == Contents(t)
    ensures s == t
  {
    TableInjective(StoredItems(s), StoredItems(t));
    if s.Some? && t.Some? {
      ItemsInjective(s.value, t.value);
    }
  }

  /** Disabling what was just newly enabled restores the store byte for byte. */
  lemma DisableUndoesEnable(s: Store, cid: u16, interval: byte)
    requires WellFormed(s) && IsValidInterval(interval)
    requires cid !in Contents(s) && |Contents(s)| < CAPACITY
    ensures var ok := Io(false, false); Disable(Enable(s, cid, interval, ok).0, cid, ok) == (s, None)
  {
    var ok := Io(false, false);
    EnableIsUpdate(s, cid, interval, ok);
    DisableRestores(s, Enable(s, cid, interval, ok).0, cid, interval);
  }

  lemma UpdateRemoved(m: map<u16, byte>, cid: u16, interval: byte)
    requires cid !in m
    ensures m[cid := interval] - {cid} == m
  {
  }

  lemma DisableRestores(s: Store, e: Store, cid: u16, interval: byte)
    requires WellFormed(s) && WellFormed(e)
    requires cid !in Contents(s) && Contents(e) == Contents(s)[cid := interval]
    ensures Disable(e, cid, Io(false, false)) == (s, None)
  {
    DisableIsRemoval(e, cid, Io(false, false));
    UpdateRemoved(Contents(s), cid, interval);
    ContentsInjective(Disable(e, cid, Io(false, false)).0, s);
  }

  // ------------------------------------------------------------------ records byte for byte

  /** The first characteristic makes a record: accessory ID 1, instance ID, both little endian, interval. */
  lemma FirstRecord(cid: u16, interval: byte)
    requires IsValidInterval(interval)
    ensures Enable(None, cid, interval, Io(false, false)) == (Some([1, 0, cid % 0x100, cid / 0x100, interval]), None)
  {
    EmptyRecord();
    var b := WriteLittle16(AID);
    assert b == [1, 0] && Items(b) == [] && !Has(Items(b), cid);
    assert Inserted(b, 0, Item(cid, interval)) == [1, 0, cid % 0x100, cid / 0x100, interval];
  }

  /** Reading any record: what another accessory left is nobody's, a bad length or interval an error. */
  lemma AnyRecordRead(b: seq<byte>, cid: u16)
    ensures var r := Get(Some(b), cid, Io(false, false));
            if |b| < 2 || |b| % 3 != 2 || |b| >= 129 then r == Err(Unknown)
            else if b[0] != 1 || b[1] != 0 then r == Ok(None)
            else r.Err? || (r.value.Some? ==> 1 <= r.value.value <= 3)
  {
    if |b| >= 2 {
      assert Word(b, 0) == AID <==> b[0] == 1 && b[1] == 0;
    }
  }

  /** An item with an interval that does not exist is reported by every operation, and left alone. */
  lemma InvalidIntervalRefused(b: seq<byte>, cid: u16, interval: byte)
    requires IsRecord(b) && |b| < BUFFER_BYTES && Word(b, 0) == AID && Has(Items(b), cid)
    requires !IsValidInterval(Items(b)[Position(Items(b), cid, 0)].interval)
    ensures var ok, s := Io(false, false), Some(b);
            && Get(s, cid, ok) == Err(Unknown)
            && Enable(s, cid, interval, ok) == (s, Some(Unknown)) && Disable(s, cid, ok) == (s, Some(Unknown))
  {
  }

  /** What another accessory left is overwritten by the first enable, and not touched by a disable. */
  lemma ForeignRecordReplaced(b: seq<byte>, cid: u16, interval: byte, io: Io)
    requires IsRecord(b) && |b| < BUFFER_BYTES && Word(b, 0) != AID && !io.readFails
    ensures Disable(Some(b), cid, io) == (Some(b), None)
    ensures var (s, error) := Enable(Some(b), cid, interval, io);
            if error.None? then s == Enable(None, cid, interval, io).0 else io.writeFails && s == Some(b)
  {
    EmptyRecord();
    assert Items(WriteLittle16(AID)) == [];
  }

  // ------------------------------------------------------------------ runs

  datatype Op = EnableOp(cid: u16, interval: byte, io: Io) | DisableOp(cid: u16, io: Io)

  predicate Legal(o: Op) {
    o.EnableOp? ==> IsValidInterval(o.interval)
  }

  function Do(s: Store, o: Op): Store {
    match o
    case EnableOp(cid, interval, io) => Enable(s, cid, interval, io).0
    case DisableOp(cid, io) => Disable(s, cid, io).0
  }

  function Run(s: Store, ops: seq<Op>): Store
    decreases |ops|
  {
    if ops == [] then s else Run(Do(s, ops[0]), ops[1..])
  }

  /** The same operation on a bounded map. */
  function MapDo(m: map<u16, byte>, o: Op): map<u16, byte> {
    if o.io.readFails || o.io.writeFails then m
    else match o
      case EnableOp(cid, interval, io) => if cid !in m && |m| == CAPACITY then m else m[cid := interval]
      case DisableOp(cid, io) => m - {cid}
  }

  function MapRun(m: map<u16, byte>, ops: seq<Op>): map<u16, byte>
    decreases |ops|
  {
    if ops == [] then m else MapRun(MapDo(m, ops[0]), ops[1..])
  }

  lemma EnableRefinesMap(s: Store, cid: u16, interval: byte, io: Io)
    requires WellFormed(s) && IsValidInterval(interval)
    ensures WellFormed(Enable(s, cid, interval, io).0)
    ensures Contents(Enable(s, cid, interval, io).0) == MapDo(Contents(s), EnableOp(cid, interval, io))
  {
    EnableIsUpdate(s, cid, interval, io);
    Idempotent(Contents(s), cid, interval);
  }

  lemma DisableRefinesMap(s: Store, cid: u16, io: Io)
    requires WellFormed(s)
    ensures WellFormed(Disable(s, cid, io).0)
    ensures Contents(Disable(s, cid, io).0) == MapDo(Contents(s), DisableOp(cid, io))
  {
    DisableIsRemoval(s, cid, io);
    Idempotent(Contents(s), cid, 0);
  }

  lemma Idempotent(m: map<u16, byte>, cid: u16, interval: byte)
    ensures cid in m && m[cid] == interval ==> m[cid := interval] == m
    ensures cid !in m ==> m - {cid} == m
  {
  }

  /** Every run of enables and disables, with any I/O failures, is a run of the bounded map. */
  lemma {:induction false} RunRefinesMap(s: Store, ops: seq<Op>)
    requires WellFormed(s) && forall o :: o in ops ==> Legal(o)
    ensures WellFormed(Run(s, ops)) && Contents(Run(s, ops)) == MapRun(Contents(s), ops)
    decreases |ops|
  {
    if ops != [] {
      assert Legal(ops[0]);
      match ops[0] {
        case EnableOp(cid, interval, io) => EnableRefinesMap(s, cid, interval, io);
        case DisableOp(cid, io) => DisableRefinesMap(s, cid, io);
      }
      RunRefinesMap(Do(s, ops[0]), ops[1..]);
    }
  }
}
