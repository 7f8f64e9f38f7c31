/**
  Service type indices: the n-th service of a type, counted over the primary accessory and then the
  bridged ones. Numbering a service and finding the service of a number must be inverse.
*/
module ServiceIndex {
  import opened Base

  /** Services and accessories are compared by identity. */
  class Service {
    const serviceType: nat

    constructor (serviceType: nat)
      ensures this.serviceType == serviceType
    {
      this.serviceType := serviceType;
    }
  }

  /** A missing service list is empty. */
  class Accessory {
    const services: seq<Service>

    constructor (services: seq<Service>)
      ensures this.services == services
    {
      this.services := services;
    }
  }

  datatype Entry = Entry(service: Service, accessory: Accessory)

  /** HAPServiceTypeIndex is a 16-bit counter; reaching this bound fails an assertion. */
  const LIMIT := 0x1_0000

  // ------------------------------------------------------------------ the numbering

  function EntriesOf(a: Accessory, services: seq<Service>): (es: seq<Entry>)
    ensures |es| == |services|
  {
    seq(|services|, k requires 0 <= k < |services| => Entry(services[k], a))
  }

  /** All services in the order of the search. */
  function AllEntries(accessories: seq<Accessory>): seq<Entry> {
    if accessories == [] then []
    else EntriesOf(accessories[0], accessories[0].services) + AllEntries(accessories[1..])
  }

  /** The entries of one type, in order: the position in this list is the index. */
  function Matching(es: seq<Entry>, serviceType: nat): seq<Entry> {
    if es == [] then []
    else (if es[0].service.serviceType == serviceType then [es[0]] else []) + Matching(es[1..], serviceType)
  }

  /** Where an entry is found first. */
  function First(es: seq<Entry>, e: Entry): (p: nat)
    requires e in es
    ensures p < |es| && es[p] == e && e !in es[..p]
  {
    if es[0] == e then 0
    else
      var p := First(es[1..], e);
      assert es[..p + 1] == [es[0]] + es[1..][..p];
      p + 1
  }

  function Index(es: seq<Entry>, e: Entry): nat
    requires e in es
  {
    |Matching(es[..First(es, e)], e.service.serviceType)|
  }

  lemma {:induction false} MatchingAppends(a: seq<Entry>, b: seq<Entry>, t: nat)
    ensures Matching(a + b, t) == Matching(a, t) + Matching(b, t)
    decreases |a|
  {
    if a == [] {
      assert a + b == b;
    } else {
      var head := if a[0].service.serviceType == t then [a[0]] else [];
      assert (a + b)[1..] == a[1..] + b;
      MatchingAppends(a[1..], b, t);
      assert head + Matching(a[1..], t) + Matching(b, t) == head + (Matching(a[1..], t) + Matching(b, t));
    }
  }

  /** A list of entries around one of the type splits its numbering there. */
  lemma MatchingSplits(es: seq<Entry>, p: nat)
    requires p < |es|
    ensures var t := es[p].service.serviceType;
            Matching(es, t) == Matching(es[..p], t) + [es[p]] + Matching(es[p + 1..], t)
  {
    var t := es[p].service.serviceType;
    assert es == es[..p] + es[p..];
    MatchingAppends(es[..p], es[p..], t);
    assert es[p..][1..] == es[p + 1..];
  }

  lemma {:induction false} MatchingMembers(es: seq<Entry>, t: nat, e: Entry)
    ensures e in Matching(es, t) <==> e in es && e.service.serviceType == t
    decreases |es|
  {
    if es != [] {
      MatchingMembers(es[1..], t, e);
    }
  }

  // ------------------------------------------------------------------ inverse

  /** Looking up the index of a service gives the service back. */
  lemma IndexThenLookup(es: seq<Entry>, e: Entry)
    requires e in es
    ensures Index(es, e) < |Matching(es, e.service.serviceType)|
    ensures Matching(es, e.service.serviceType)[Index(es, e)] == e
  {
    MatchingSplits(es, First(es, e));
  }

  /** The index of a service is the first position at which the lookup gives it. */
  lemma IndexIsFirst(es: seq<Entry>, e: Entry, k: nat)
    requires e in es && k < |Matching(es, e.service.serviceType)|
    requires Matching(es, e.service.serviceType)[k] == e
    ensures Index(es, e) <= k
  {
    var t, p := e.service.serviceType, First(es, e);
    MatchingSplits(es, p);
    var before := Matching(es[..p], t);
    if k < |before| {
      assert before[k] == e;
      MatchingMembers(es[..p], t, e);
      assert false;
    }
  }

  /**
    Numbering what a lookup gave returns the number exactly when the same service of the same
    accessory does not already have a smaller one.
  */
  lemma LookupThenIndex(es: seq<Entry>, t: nat, k: nat)
    requires k < |Matching(es, t)|
    ensures var e := Matching(es, t)[k];
            && e in es && e.service.serviceType == t
            && (Index(es, e) == k <==> e !in Matching(es, t)[..k])
  {
    var m := Matching(es, t);
    var e := m[k];
    MatchingMembers(es, t, e);
    IndexThenLookup(es, e);
    IndexIsFirst(es, e, k);
    if e in m[..k] {
      var j :| 0 <= j < k && m[j] == e;
      IndexIsFirst(es, e, j);
    }
  }

  predicate NoDuplicates(es: seq<Entry>) {
    forall j, k :: 0 <= j < k < |es| ==> es[j] != es[k]
  }

  lemma {:induction false} MatchingNoDuplicates(es: seq<Entry>, t: nat)
    requires NoDuplicates(es)
    ensures NoDuplicates(Matching(es, t))
    decreases |es|
  {
    if es != [] {
      MatchingNoDuplicates(es[1..], t);
      MatchingMembers(es[1..], t, es[0]);
    }
  }

  /** Without repeated services every number below the count makes the round trip. */
  lemma EveryIndexRoundTrips(es: seq<Entry>, t: nat, k: nat)
    requires NoDuplicates(es) && k < |Matching(es, t)|
    ensures Matching(es, t)[k] in es && Index(es, Matching(es, t)[k]) == k
  {
    LookupThenIndex(es, t, k);
    MatchingNoDuplicates(es, t);
  }

  // ------------------------------------------------------------------ the code

  /** How a counting loop leaves: stopped at its entry, ran through, or overflowed. */
  datatype Scan = Found(index: nat) | Passed(count: nat) | Overflow

  /** Counting entries of the type of `e` up to `e` itself. */
  function ScanFor(es: seq<Entry>, e: Entry, count: nat): Scan {
    if es == [] then Passed(count)
    else if es[0] == e then Found(count)
    else if es[0].service.serviceType != e.service.serviceType then ScanFor(es[1..], e, count)
    else if count + 1 == LIMIT then Overflow
    else ScanFor(es[1..], e, count + 1)
  }

  lemma {:induction false} ScanForAppends(a: seq<Entry>, b: seq<Entry>, e: Entry, count: nat)
    ensures var r := ScanFor(a, e, count);
            ScanFor(a + b, e, count) == if r.Passed? then ScanFor(b, e, r.count) else r
    decreases |a|
  {
    if a == [] {
      assert a + b == b;
    } else {
      assert (a + b)[1..] == a[1..] + b;
      ScanForAppends(a[1..], b, e, count);
      ScanForAppends(a[1..], b, e, count + 1);
    }
  }

  /** The scan finds the index, unless it is out of range of the counter or the service is missing. */
  lemma {:induction false} ScanForIsIndex(es: seq<Entry>, e: Entry, count: nat)
    requires count < LIMIT
    ensures var r := ScanFor(es, e, count);
            && (e in es && count + Index(es, e) < LIMIT ==> r == Found(count + Index(es, e)))
            && (e in es && count + Index(es, e) >= LIMIT ==> r == Overflow)
            && (e !in es ==> !r.Found?)
    decreases |es|
  {
    if es != [] && es[0] != e {
      var t := e.service.serviceType;
      var matches := es[0].service.serviceType == t;
      if e in es {
        var p := First(es, e);
        FirstInTail(es, e);
        assert es[..p][1..] == es[1..][..p - 1];
      }
      if !matches {
        ScanForIsIndex(es[1..], e, count);
      } else if count + 1 < LIMIT {
        ScanForIsIndex(es[1..], e, count + 1);
      }
    } else if es != [] {
      assert es[..0] == [];
    }
  }

  lemma FirstInTail(es: seq<Entry>, e: Entry)
    requires e in es && es[0] != e
    ensures e in es[1..] && First(es, e) == First(es[1..], e) + 1
  {
  }

  /** The 16-bit increment. */
  function Increment(n: nat): nat {
    if n + 1 == LIMIT then 0 else n + 1
  }

  method ScanAccessory(acc: Accessory, service: Service, accessory: Accessory, start: nat) returns (r: Scan)
    requires start < LIMIT
    ensures r == ScanFor(EntriesOf(acc, acc.services), Entry(service, accessory), start)
    ensures r.Passed? ==> r.count < LIMIT
  {
    ghost var es, e := EntriesOf(acc, acc.services), Entry(service, accessory);
    var serviceTypeIndex: nat := start;
    var i := 0;
    assert es[0..] == es;
    while i < |acc.services|
      invariant 0 <= i <= |acc.services| && serviceTypeIndex < LIMIT
      invariant ScanFor(es, e, start) == ScanFor(es[i..], e, serviceTypeIndex)
    {
      assert es[i..][1..] == es[i + 1..];
      var svc := acc.services[i];
      if svc == service && acc == accessory {
        return Found(serviceTypeIndex);
      }
      if svc.serviceType == service.serviceType {
        serviceTypeIndex := Increment(serviceTypeIndex);
        if serviceTypeIndex == 0 {
          return Overflow;
        }
      }
      i := i + 1;
    }
    return Passed(serviceTypeIndex);
  }

  /** None when the call is fatal: the service is missing, or its index does not fit. */
  method GetServiceTypeIndex(primary: Accessory, bridged: seq<Accessory>, service: Service, accessory: Accessory)
    returns (r: Option<nat>)
    ensures var es, e := AllEntries([primary] + bridged), Entry(service, accessory);
            r == if e in es && Index(es, e) < LIMIT then Some(Index(es, e)) else None
  {
    ghost var es, e := AllEntries([primary] + bridged), Entry(service, accessory);
    ScanForIsIndex(es, e, 0);
    assert ([primary] + bridged)[1..] == bridged[0..] == bridged;
    ScanForAppends(EntriesOf(primary, primary.services), AllEntries(bridged), e, 0);
    var scan := ScanAccessory(primary, service, accessory, 0);
    var j := 0;
    while j < |bridged| && scan.Passed?
      invariant 0 <= j <= |bridged| && (scan.Passed? ==> scan.count < LIMIT)
      invariant ScanFor(es, e, 0) == if scan.Passed? then ScanFor(AllEntries(bridged[j..]), e, scan.count) else scan
    {
      assert bridged[j..][1..] == bridged[j + 1..];
      ScanForAppends(EntriesOf(bridged[j], bridged[j].services), AllEntries(bridged[j + 1..]), e, scan.count);
      scan := ScanAccessory(bridged[j], service, accessory, scan.count);
      j := j + 1;
    }
    return if scan.Found? then Some(scan.index) else None;
  }

  /** How the counting-down loop leaves. */
  datatype Pick = Picked(entry: Entry) | Left(left: nat)

  function PickFrom(es: seq<Entry>, t: nat, k: nat): Pick {
    if es == [] then Left(k)
    else if es[0].service.serviceType != t then PickFrom(es[1..], t, k)
    else if k == 0 then Picked(es[0])
    else PickFrom(es[1..], t, k - 1)
  }

  lemma {:induction false} PickFromAppends(a: seq<Entry>, b: seq<Entry>, t: nat, k: nat)
    ensures var r := PickFrom(a, t, k);
            PickFrom(a + b, t, k) == if r.Left? then PickFrom(b, t, r.left) else r
    decreases |a|
  {
    if a == [] {
      assert a + b == b;
    } else {
      assert (a + b)[1..] == a[1..] + b;
      PickFromAppends(a[1..], b, t, if a[0].service.serviceType == t && k > 0 then k - 1 else k);
    }
  }

  /** Counting down picks the entry of that number. */
  lemma {:induction false} PickFromIsLookup(es: seq<Entry>, t: nat, k: nat)
    ensures var m := Matching(es, t);
            PickFrom(es, t, k) == if k < |m| then Picked(m[k]) else Left(k - |m|)
    decreases |es|
  {
    if es != [] {
      PickFromIsLookup(es[1..], t, if es[0].service.serviceType == t && k > 0 then k - 1 else k);
    }
  }

  method PickFromAccessory(acc: Accessory, serviceType: nat, start: nat) returns (r: Pick)
    ensures r == PickFrom(EntriesOf(acc, acc.services), serviceType, start)
  {
    ghost var es := EntriesOf(acc, acc.services);
    var serviceTypeIndex: nat := start;
    var i := 0;
    assert es[0..] == es;
    while i < |acc.services|
      invariant 0 <= i <= |acc.services|
      invariant PickFrom(es, serviceType, start) == PickFrom(es[i..], serviceType, serviceTypeIndex)
    {
      assert es[i..][1..] == es[i + 1..];
      var svc := acc.services[i];
      if svc.serviceType == serviceType {
        if serviceTypeIndex == 0 {
          return Picked(Entry(svc, acc));
        }
        serviceTypeIndex := serviceTypeIndex - 1;
      }
      i := i + 1;
    }
    return Left(serviceTypeIndex);
  }

  /** None when the call is fatal: there are not that many services of the type. */
  method GetServiceFromServiceTypeIndex(primary: Accessory, bridged: seq<Accessory>, serviceType: nat, index: nat)
    returns (r: Option<Entry>)
    requires index < LIMIT
    ensures var m := Matching(AllEntries([primary] + bridged), serviceType);
            r == if index < |m| then Some(m[index]) else None
  {
    ghost var es := AllEntries([primary] + bridged);
    PickFromIsLookup(es, serviceType, index);
    assert ([primary] + bridged)[1..] == bridged[0..] == bridged;
    PickFromAppends(EntriesOf(primary, primary.services), AllEntries(bridged), serviceType, index);
    var pick := PickFromAccessory(primary, serviceType, index);
    var j := 0;
    while j < |bridged| && pick.Left?
      invariant 0 <= j <= |bridged|
      invariant PickFrom(es, serviceType, index)
             == if pick.Left? then PickFrom(AllEntries(bridged[j..]), serviceType, pick.left) else pick
    {
      assert bridged[j..][1..] == bridged[j + 1..];
      PickFromAppends(EntriesOf(bridged[j], bridged[j].services), AllEntries(bridged[j + 1..]), serviceType, pick.left);
      pick := PickFromAccessory(bridged[j], serviceType, pick.left);
      j := j + 1;
    }
    return if pick.Picked? then Some(pick.entry) else None;
  }

  method CountInAccessory(acc: Accessory, serviceType: nat, start: nat) returns (r: Option<nat>)
    requires start < LIMIT
    ensures var n := start + |Matching(EntriesOf(acc, acc.services), serviceType)|;
            r == if n < LIMIT then Some(n) else None
  {
    ghost var es := EntriesOf(acc, acc.services);
    var serviceTypeIndex: nat := start;
    var i := 0;
    assert es[0..] == es;
    while i < |acc.services|
      invariant 0 <= i <= |acc.services| && serviceTypeIndex < LIMIT
      invariant start + |Matching(es, serviceType)| == serviceTypeIndex + |Matching(es[i..], serviceType)|
    {
      assert es[i..][1..] == es[i + 1..];
      if acc.services[i].serviceType == serviceType {
        serviceTypeIndex := Increment(serviceTypeIndex);
        if serviceTypeIndex == 0 {
          assert |Matching(es[i..], serviceType)| == 1 + |Matching(es[i + 1..], serviceType)|;
          return None;
        }
      }
      i := i + 1;
    }
    assert es[i..] == [];
    return Some(serviceTypeIndex);
  }

  /** None when the counter overflows, which fails an assertion. */
  method GetNumServiceInstances(primary: Accessory, bridged: seq<Accessory>, serviceType: nat) returns (r: Option<nat>)
    ensures var n := |Matching(AllEntries([primary] + bridged), serviceType)|;
            r == if n < LIMIT then Some(n) else None
  {
    ghost var n := |Matching(AllEntries([primary] + bridged), serviceType)|;
    assert ([primary] + bridged)[1..] == bridged[0..] == bridged;
    MatchingAppends(EntriesOf(primary, primary.services), AllEntries(bridged), serviceType);
    r := CountInAccessory(primary, serviceType, 0);
    var j := 0;
    while j < |bridged| && r.Some?
      invariant 0 <= j <= |bridged|
      invariant r.Some? ==> r.value < LIMIT && n == r.value + |Matching(AllEntries(bridged[j..]), serviceType)|
      invariant r.None? ==> n >= LIMIT
    {
      assert bridged[j..][1..] == bridged[j + 1..];
      MatchingAppends(EntriesOf(bridged[j], bridged[j].services), AllEntries(bridged[j + 1..]), serviceType);
      r := CountInAccessory(bridged[j], serviceType, r.value);
      j := j + 1;
    }
  }
}
