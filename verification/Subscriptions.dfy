/**
  Event subscriptions of the connected controller (sections 7.4.4.5.3 and 7.4.6.1 of the HomeKit
  Accessory Protocol Specification R14): they live in the GATT table, before, during and after a
  security session, while the application is told about them only within one. This module is the
  machine on values with its properties; `SubscriptionTable` is the code.
*/
module Subscriptions {
  import opened Base

  /** An entry of the GATT table; the first unused one ends it. */
  datatype Attribute =
    | Unused
    | ServiceOnly
    | Characteristic(supportsEvents: bool, readRequiresAdmin: bool, iidFits: bool)

  datatype Call = Subscribe(i: nat) | Unsubscribe(i: nat)

  /**
    `active` is the session's flag, `pairingMissing` that its pairing has been removed meanwhile;
    `calls` is what the application has been told so far. After a failed precondition nothing follows.
  */
  datatype State = State(attributes: seq<Attribute>, subscribed: seq<bool>, connected: bool,
                         active: bool, transient: bool, pairingMissing: bool, calls: seq<Call>, failed: bool)

  /**
    HAPSessionIsSecured also looks for the pairing in the store, unless the session is transient.
    `readFails`: the store reports an error or a record of the wrong size.
  */
  predicate IsSecured(s: State, readFails: bool) {
    s.active && (s.transient || (!s.pairingMissing && !readFails))
  }

  predicate SupportsEvents(a: Attribute) {
    a.Characteristic? && a.supportsEvents
  }

  /** The used part of the table. */
  function Used(attributes: seq<Attribute>): (n: nat)
    ensures n <= |attributes|
    ensures forall i :: 0 <= i < n ==> attributes[i] != Unused
    ensures n < |attributes| ==> attributes[n] == Unused
  {
    if attributes == [] || attributes[0] == Unused then 0 else 1 + Used(attributes[1..])
  }

  predicate WellFormed(s: State) {
    && |s.subscribed| == |s.attributes|
    && (forall i :: 0 <= i < |s.subscribed| && s.subscribed[i] ==>
                      i < Used(s.attributes) && SupportsEvents(s.attributes[i]))
    && (s.active ==> s.connected)
  }

  /** The subscribed characteristics below `n`, in table order. */
  function Listed(subscribed: seq<bool>, n: nat): (l: seq<nat>)
    requires n <= |subscribed|
    ensures forall i: nat :: i in l <==> i < n && subscribed[i]
    ensures forall j, k :: 0 <= j < k < |l| ==> l[j] < l[k]
  {
    if n == 0 then []
    else
      var l := Listed(subscribed, n - 1);
      assert forall k :: 0 <= k < |l| ==> l[k] in l;
      if subscribed[n - 1] then l + [n - 1] else l
  }

  function SubscribeCalls(l: seq<nat>): (c: seq<Call>)
    ensures |c| == |l| && forall k :: 0 <= k < |l| ==> c[k] == Subscribe(l[k])
  {
    if l == [] then [] else SubscribeCalls(l[..|l| - 1]) + [Subscribe(l[|l| - 1])]
  }

  function UnsubscribeCalls(l: seq<nat>): (c: seq<Call>)
    ensures |c| == |l| && forall k :: 0 <= k < |l| ==> c[k] == Unsubscribe(l[k])
  {
    if l == [] then [] else UnsubscribeCalls(l[..|l| - 1]) + [Unsubscribe(l[|l| - 1])]
  }

  function NoneSubscribed(n: nat): (b: seq<bool>)
    ensures |b| == n && forall i :: 0 <= i < n ==> !b[i]
  {
    if n == 0 then [] else NoneSubscribed(n - 1) + [false]
  }

  // ------------------------------------------------------------------ steps

  /**
    `readFails` is about the look-up that decides whether the application is informed (`WriteCcc`) or
    a precondition holds (`Accept`), `startFails` about those while Pair Setup or Pair Verify runs,
    which is possible only as long as the session does not count as secured.
  */
  datatype Step =
    | Connect | Disconnect | WriteCcc(i: nat, enable: bool, readFails: bool)
    | Accept(transient: bool, startFails: bool, readFails: bool) | Invalidate | RemovePairing

  predicate Enabled(s: State, step: Step) {
    && !s.failed
    && match step
       case Connect => !s.connected
       case Disconnect => s.connected
       case WriteCcc(i, _, _) => s.connected && i < Used(s.attributes) && SupportsEvents(s.attributes[i])
       case Accept(_, startFails, _) => s.connected && !IsSecured(s, startFails)
       case Invalidate => s.connected
       case RemovePairing => true
  }

  function SetEnabled(s: State, i: nat, enable: bool, readFails: bool): (r: State)
    requires WellFormed(s) && i < Used(s.attributes) && SupportsEvents(s.attributes[i])
    ensures WellFormed(r)
  {
    if s.subscribed[i] == enable then s
    else
      var r := s.(subscribed := s.subscribed[i := enable]);
      if IsSecured(r, readFails) then r.(calls := r.calls + [if enable then Subscribe(i) else Unsubscribe(i)]) else r
  }

  /** The application learns what was subscribed before the session was secured. */
  function Announce(s: State): (r: State)
    requires WellFormed(s)
    ensures WellFormed(r)
  {
    s.(calls := s.calls + SubscribeCalls(Listed(s.subscribed, |s.subscribed|)))
  }

  /**
    Pair Verify demands that no session is active; what it or Pair Setup has activated has to count
    as secured when it is accepted.
  */
  function AcceptSession(s: State, transient: bool, readFails: bool): (r: State)
    requires WellFormed(s) && s.connected
    ensures WellFormed(r)
  {
    if s.active && !transient then s.(failed := true)
    else
      var r := s.(active := true, transient := transient, pairingMissing := false);
      if !IsSecured(r, readFails) then r.(failed := true) else Announce(r)
  }

  /** Subscriptions outlive the session; the application is told that they have ended. */
  function InvalidateSession(s: State): (r: State)
    requires WellFormed(s)
    ensures WellFormed(r) && !r.active
  {
    if s.active then
      s.(active := false, transient := false, calls := s.calls + UnsubscribeCalls(Listed(s.subscribed, |s.subscribed|)))
    else s.(transient := false)
  }

  function Next(s: State, step: Step): (r: State)
    requires WellFormed(s) && Enabled(s, step)
    ensures WellFormed(r) && r.attributes == s.attributes
  {
    match step
    case Connect =>
      s.(connected := true, active := false, transient := false, subscribed := NoneSubscribed(|s.attributes|))
    case Disconnect =>
      InvalidateSession(s).(connected := false, subscribed := NoneSubscribed(|s.attributes|))
    case WriteCcc(i, enable, readFails) => SetEnabled(s, i, enable, readFails)
    case Accept(transient, _, readFails) => AcceptSession(s, transient, readFails)
    case Invalidate => InvalidateSession(s)
    case RemovePairing => s.(pairingMissing := true)
  }

  function Run(s: State, steps: seq<Step>): State
    requires WellFormed(s) && Possible(s, steps)
    decreases |steps|
  {
    if steps == [] then s else Run(Next(s, steps[0]), steps[1..])
  }

  predicate Possible(s: State, steps: seq<Step>)
    requires WellFormed(s)
    decreases |steps|
  {
    steps == [] || (Enabled(s, steps[0]) && Possible(Next(s, steps[0]), steps[1..]))
  }

  // ------------------------------------------------------------------ what each step does to the table

  /** A write of the descriptor subscribes or unsubscribes its characteristic, in any state of the session. */
  lemma WriteChangesSubscription(s: State, i: nat, enable: bool, readFails: bool)
    requires WellFormed(s) && Enabled(s, WriteCcc(i, enable, readFails))
    ensures var n := Next(s, WriteCcc(i, enable, readFails));
            && n.subscribed == s.subscribed[i := enable]
            && n == s.(subscribed := n.subscribed, calls := n.calls)
            && n.calls == if IsSecured(s, readFails) && s.subscribed[i] != enable then
                            s.calls + [if enable then Subscribe(i) else Unsubscribe(i)]
                          else s.calls
  {
  }

  /** Other steps leave the table alone, but for a connection, at whose ends it is empty. */
  lemma TableOutlivesSession(s: State, step: Step)
    requires WellFormed(s) && Enabled(s, step) && !step.WriteCcc?
    ensures var n := Next(s, step);
            if step.Connect? || step.Disconnect? then true !in n.subscribed else n.subscribed == s.subscribed
  {
  }

  /** A connection begins without a session; it has one from an acceptance to an invalidation or its end. */
  lemma SessionsBeginAndEnd(s: State, step: Step)
    requires WellFormed(s) && Enabled(s, step)
    ensures var n := Next(s, step);
            && n.connected == (if step.Connect? then true else if step.Disconnect? then false else s.connected)
            && (step.Connect? || step.Disconnect? || step.Invalidate? ==> !n.active && !n.transient)
            && (step.Accept? && !n.failed ==> n.active && n.transient == step.transient && IsSecured(n, step.readFails))
            && (step.WriteCcc? || step.RemovePairing? ==> n.active == s.active && n.transient == s.transient)
            && (step.RemovePairing? && !s.transient ==> !IsSecured(n, false))
  {
  }

  // ------------------------------------------------------------------ the application's view

  /** The last call about a characteristic decides. */
  predicate AppSubscribed(calls: seq<Call>, i: nat)
    decreases |calls|
  {
    calls != [] && (if calls[|calls| - 1].i == i then calls[|calls| - 1].Subscribe?
                    else AppSubscribed(calls[..|calls| - 1], i))
  }

  /** No call repeats what the application already knows. */
  predicate Alternates(calls: seq<Call>)
    decreases |calls|
  {
    calls == []
    || (Alternates(calls[..|calls| - 1])
        && (calls[|calls| - 1].Subscribe? <==> !AppSubscribed(calls[..|calls| - 1], calls[|calls| - 1].i)))
  }

  lemma CallAppended(calls: seq<Call>, c: Call)
    ensures forall j: nat :: AppSubscribed(calls + [c], j) == if c.i == j then c.Subscribe? else AppSubscribed(calls, j)
    ensures Alternates(calls + [c]) <==> Alternates(calls) && (c.Subscribe? <==> !AppSubscribed(calls, c.i))
  {
    assert (calls + [c])[..|calls|] == calls;
  }

  /** The subscribed set seen by the application is the table's within a session and empty otherwise. */
  ghost predicate Synchronized(s: State)
    requires WellFormed(s)
  {
    && (forall i: nat :: i < |s.subscribed| ==> AppSubscribed(s.calls, i) == (s.active && s.subscribed[i]))
    && (forall i: nat :: i >= |s.subscribed| ==> !AppSubscribed(s.calls, i))
    && Alternates(s.calls)
  }

  /** A session is accepted over an active one, or cannot be seen to be secured. */
  predicate Fails(s: State, step: Step) {
    step.Accept? && !step.transient && (s.active || step.readFails)
  }

  /**
    A step the application is not properly told about. Its session is still active but does not count
    as secured, the pairing being gone or not readable: a change of a subscription stays unannounced,
    or a transient session announces again what was never withdrawn.
  */
  predicate Blind(s: State, step: Step)
    requires WellFormed(s) && Enabled(s, step)
  {
    s.active
    && match step
       case WriteCcc(i, enable, readFails) => !IsSecured(s, readFails) && s.subscribed[i] != enable
       case Accept(transient, _, _) => transient && exists i :: 0 <= i < |s.subscribed| && s.subscribed[i]
       case _ => false
  }

  lemma {:induction false} SubscribeAll(calls: seq<Call>, l: seq<nat>)
    requires forall j, k :: 0 <= j < k < |l| ==> l[j] < l[k]
    requires Alternates(calls)
    ensures forall i: nat :: AppSubscribed(calls + SubscribeCalls(l), i) == (i in l || AppSubscribed(calls, i))
    ensures Alternates(calls + SubscribeCalls(l)) <==> forall i :: i in l ==> !AppSubscribed(calls, i)
    decreases |l|
  {
    if l == [] {
      assert calls + SubscribeCalls(l) == calls;
    } else {
      var front, last := l[..|l| - 1], l[|l| - 1];
      SubscribeAll(calls, front);
      CallAppended(calls + SubscribeCalls(front), Subscribe(last));
      assert calls + SubscribeCalls(l) == calls + SubscribeCalls(front) + [Subscribe(last)];
      assert forall i: nat :: i in l <==> i in front || i == last;
      assert last !in front;
    }
  }

  lemma {:induction false} UnsubscribeAll(calls: seq<Call>, l: seq<nat>)
    requires forall j, k :: 0 <= j < k < |l| ==> l[j] < l[k]
    requires Alternates(calls) && forall i :: i in l ==> AppSubscribed(calls, i)
    ensures forall i: nat :: AppSubscribed(calls + UnsubscribeCalls(l), i) == (i !in l && AppSubscribed(calls, i))
    ensures Alternates(calls + UnsubscribeCalls(l))
    decreases |l|
  {
    if l == [] {
      assert calls + UnsubscribeCalls(l) == calls;
    } else {
      var front, last := l[..|l| - 1], l[|l| - 1];
      UnsubscribeAll(calls, front);
      CallAppended(calls + UnsubscribeCalls(front), Unsubscribe(last));
      assert calls + UnsubscribeCalls(l) == calls + UnsubscribeCalls(front) + [Unsubscribe(last)];
      assert forall i: nat :: i in l <==> i in front || i == last;
      assert last !in front;
    }
  }

  lemma InvalidateKeeps(s: State)
    requires WellFormed(s) && Synchronized(s)
    ensures Synchronized(InvalidateSession(s))
    ensures forall i: nat :: !AppSubscribed(InvalidateSession(s).calls, i)
  {
    if s.active {
      UnsubscribeAll(s.calls, Listed(s.subscribed, |s.subscribed|));
    }
  }

  lemma AcceptKeeps(s: State, step: Step)
    requires WellFormed(s) && Synchronized(s) && Enabled(s, step) && step.Accept? && !Fails(s, step)
    ensures Synchronized(Next(s, step)) <==> !Blind(s, step)
  {
    var l := Listed(s.subscribed, |s.subscribed|);
    SubscribeAll(s.calls, l);
    var r := Next(s, step);
    assert r.calls == s.calls + SubscribeCalls(l) && r.active && r.subscribed == s.subscribed;
    if Blind(s, step) {
      var i :| 0 <= i < |s.subscribed| && s.subscribed[i];
      assert i in l && AppSubscribed(s.calls, i);
    }
  }

  lemma WriteKeeps(s: State, i: nat, enable: bool, readFails: bool)
    requires WellFormed(s) && Synchronized(s) && Enabled(s, WriteCcc(i, enable, readFails))
    ensures Synchronized(SetEnabled(s, i, enable, readFails)) <==> !Blind(s, WriteCcc(i, enable, readFails))
  {
    var r := SetEnabled(s, i, enable, readFails);
    if s.subscribed[i] != enable {
      if IsSecured(s, readFails) {
        AnnouncedWriteKeeps(s, r, i, if enable then Subscribe(i) else Unsubscribe(i));
      } else {
        assert r.calls == s.calls && r.subscribed[i] != s.subscribed[i];
        assert AppSubscribed(s.calls, i) == (s.active && s.subscribed[i]);
        assert forall j :: 0 <= j < |s.subscribed| && j != i ==> r.subscribed[j] == s.subscribed[j];
      }
    }
  }

  lemma AnnouncedWriteKeeps(s: State, r: State, i: nat, c: Call)
    requires WellFormed(s) && WellFormed(r) && Synchronized(s) && s.active && i < |s.subscribed|
    requires c.i == i && s.subscribed[i] != c.Subscribe?
    requires r == s.(subscribed := s.subscribed[i := c.Subscribe?], calls := s.calls + [c])
    ensures Synchronized(r)
  {
    CallAppended(s.calls, c);
    assert AppSubscribed(s.calls, i) == s.subscribed[i];
  }

  /**
    A precondition fails exactly in the cases named; every other step keeps the application in step
    with the table exactly when it is not blind.
  */
  lemma NextKeeps(s: State, step: Step)
    requires WellFormed(s) && Synchronized(s) && Enabled(s, step)
    ensures Next(s, step).failed <==> Fails(s, step)
    ensures !Fails(s, step) ==> (Synchronized(Next(s, step)) <==> !Blind(s, step))
  {
    match step
    case Connect =>
    case Disconnect => InvalidateKeeps(s);
    case WriteCcc(i, enable, readFails) => WriteKeeps(s, i, enable, readFails);
    case Accept(transient, startFails, readFails) => if !Fails(s, step) { AcceptKeeps(s, step); }
    case Invalidate => InvalidateKeeps(s);
    case RemovePairing =>
  }

  /** No step of the run fails or is blind. */
  predicate SeesEverything(s: State, steps: seq<Step>)
    requires WellFormed(s) && Possible(s, steps)
    decreases |steps|
  {
    steps == []
    || (!Fails(s, steps[0]) && !Blind(s, steps[0]) && SeesEverything(Next(s, steps[0]), steps[1..]))
  }

  /** After every step the application is in step. */
  ghost predicate InStepThroughout(s: State, steps: seq<Step>)
    requires WellFormed(s) && Possible(s, steps)
    decreases |steps|
  {
    && !s.failed && Synchronized(s)
    && (steps == [] || InStepThroughout(Next(s, steps[0]), steps[1..]))
  }

  lemma {:induction false} InStepExactly(s: State, steps: seq<Step>)
    requires WellFormed(s) && !s.failed && Synchronized(s) && Possible(s, steps)
    ensures InStepThroughout(s, steps) <==> SeesEverything(s, steps)
    decreases |steps|
  {
    if steps != [] {
      NextKeeps(s, steps[0]);
      var r := Next(s, steps[0]);
      if !Fails(s, steps[0]) && !Blind(s, steps[0]) {
        InStepExactly(r, steps[1..]);
      } else if Fails(s, steps[0]) {
        assert r.failed;
      } else {
        assert !Synchronized(r);
      }
    }
  }

  lemma {:induction false} RunKeeps(s: State, steps: seq<Step>)
    requires WellFormed(s) && !s.failed && Synchronized(s) && Possible(s, steps) && SeesEverything(s, steps)
    ensures var r := Run(s, steps); WellFormed(r) && !r.failed && Synchronized(r)
    decreases |steps|
  {
    if steps != [] {
      NextKeeps(s, steps[0]);
      RunKeeps(Next(s, steps[0]), steps[1..]);
    }
  }

  /** What a caller can see to: the store keeps a session's pairing, readable, while the session is active. */
  predicate StoreServes(s: State, step: Step) {
    match step
    case WriteCcc(_, _, readFails) => readFails ==> !s.active || s.transient
    case Accept(transient, startFails, readFails) => (startFails ==> !s.active) && (readFails ==> transient)
    case RemovePairing => !s.active
    case _ => true
  }

  predicate PairingsOutliveSessions(s: State, steps: seq<Step>)
    requires WellFormed(s) && Possible(s, steps)
    decreases |steps|
  {
    steps == [] || (StoreServes(s, steps[0]) && PairingsOutliveSessions(Next(s, steps[0]), steps[1..]))
  }

  lemma {:induction false} NothingIsBlind(s: State, steps: seq<Step>)
    requires WellFormed(s) && Possible(s, steps) && PairingsOutliveSessions(s, steps)
    requires s.active ==> IsSecured(s, false)
    ensures SeesEverything(s, steps)
    decreases |steps|
  {
    if steps != [] {
      NothingIsBlind(Next(s, steps[0]), steps[1..]);
    }
  }

  function Initial(attributes: seq<Attribute>): (s: State)
    ensures WellFormed(s)
  {
    State(attributes, NoneSubscribed(|attributes|), false, false, false, false, [], false)
  }

  /**
    Over any interleaving of subscription writes, sessions and connections, as long as pairings
    outlive their sessions and stay readable: within a session the application's set is the table's,
    otherwise it is empty, and the calls about each characteristic alternate, starting with a
    subscribe.
  */
  lemma ApplicationInStep(attributes: seq<Attribute>, steps: seq<Step>)
    requires Possible(Initial(attributes), steps) && PairingsOutliveSessions(Initial(attributes), steps)
    ensures var s := Run(Initial(attributes), steps); WellFormed(s) && !s.failed && Synchronized(s)
  {
    NothingIsBlind(Initial(attributes), steps);
    RunKeeps(Initial(attributes), steps);
  }

  /** After a disconnect the application holds no subscription. */
  lemma DisconnectLeavesNone(s: State, i: nat)
    requires WellFormed(s) && Synchronized(s) && Enabled(s, Disconnect)
    ensures !AppSubscribed(Next(s, Disconnect).calls, i)
  {
    InvalidateKeeps(s);
  }

  /** A connection with one characteristic, in a verified session. */
  function Opened(a: Attribute): (s: State)
    requires SupportsEvents(a)
    ensures WellFormed(s)
  {
    State([a], [false], true, true, false, false, [], false)
  }

  lemma SessionOpens(a: Attribute, rest: seq<Step>)
    requires SupportsEvents(a) && Possible(Opened(a), rest)
    ensures var steps := [Connect] + ([Accept(false, false, false)] + rest);
            Possible(Initial([a]), steps) && Run(Initial([a]), steps) == Run(Opened(a), rest)
  {
    var s1 := Opened(a).(active := false);
    assert Listed([false], 1) == [];
    assert Next(s1, Accept(false, false, false)) == Opened(a);
    RunStep(s1, Accept(false, false, false), rest);
    assert NoneSubscribed(1) == [false];
    assert Next(Initial([a]), Connect) == s1;
    RunStep(Initial([a]), Connect, [Accept(false, false, false)] + rest);
  }

  /** A subscription is made unseen, then its session is invalidated. */
  lemma UnseenWrite(s: State, readFails: bool)
    requires WellFormed(s) && |s.attributes| == 1 && SupportsEvents(s.attributes[0]) && s.subscribed == [false]
    requires s.connected && s.active && !s.failed && s.calls == [] && !IsSecured(s, readFails)
    ensures var steps := [WriteCcc(0, true, readFails)] + ([Invalidate] + []);
            Possible(s, steps) && Run(s, steps).calls == [Unsubscribe(0)]
  {
    var r := Next(s, WriteCcc(0, true, readFails));
    assert r == s.(subscribed := [true]);
    InvalidatedAlone(r);
    RunStep(r, Invalidate, []);
    RunStep(s, WriteCcc(0, true, readFails), [Invalidate] + []);
  }

  lemma InvalidatedAlone(s: State)
    requires WellFormed(s) && s.active && s.subscribed == [true] && s.calls == []
    ensures InvalidateSession(s).calls == [Unsubscribe(0)]
  {
    assert Listed([true], 1) == [0];
    assert UnsubscribeCalls([0]) == [Unsubscribe(0)];
  }

  /**
    When the pairing goes first, a subscription made before the session is invalidated ends with an
    unsubscribe call that no subscribe call preceded.
  */
  lemma RemovedPairingBreaksAlternation(a: Attribute)
    requires SupportsEvents(a)
    ensures var steps := [Connect, Accept(false, false, false), RemovePairing, WriteCcc(0, true, false), Invalidate];
            && Possible(Initial([a]), steps)
            && Run(Initial([a]), steps).calls == [Unsubscribe(0)] && !Alternates([Unsubscribe(0)])
  {
    var t := [WriteCcc(0, true, false)] + ([Invalidate] + []);
    UnseenWrite(Next(Opened(a), RemovePairing), false);
    RunStep(Opened(a), RemovePairing, t);
    SessionOpens(a, [RemovePairing] + t);
    AloneDoesNotAlternate();
    var steps := [Connect] + ([Accept(false, false, false)] + ([RemovePairing] + t));
    assert steps == [Connect, Accept(false, false, false), RemovePairing, WriteCcc(0, true, false), Invalidate];
  }

  /** So does a subscription during which the pairing cannot be read. */
  lemma UnreadablePairingBreaksAlternation(a: Attribute)
    requires SupportsEvents(a)
    ensures var steps := [Connect, Accept(false, false, false), WriteCcc(0, true, true), Invalidate];
            && Possible(Initial([a]), steps)
            && Run(Initial([a]), steps).calls == [Unsubscribe(0)] && !Alternates([Unsubscribe(0)])
  {
    var t := [WriteCcc(0, true, true)] + ([Invalidate] + []);
    UnseenWrite(Opened(a), true);
    SessionOpens(a, t);
    AloneDoesNotAlternate();
    var steps := [Connect] + ([Accept(false, false, false)] + t);
    assert steps == [Connect, Accept(false, false, false), WriteCcc(0, true, true), Invalidate];
  }

  /** And a pairing that cannot be read while Pair Verify runs lets it start over an active session. */
  lemma UnreadablePairingFailsPrecondition(a: Attribute)
    requires SupportsEvents(a)
    ensures var steps := [Connect, Accept(false, false, false), Accept(false, true, false)];
            Possible(Initial([a]), steps) && Run(Initial([a]), steps).failed
  {
    var t := [Accept(false, true, false)] + [];
    assert Next(Opened(a), Accept(false, true, false)).failed;
    RunStep(Opened(a), Accept(false, true, false), []);
    SessionOpens(a, t);
    assert [Connect] + ([Accept(false, false, false)] + t)
           == [Connect, Accept(false, false, false), Accept(false, true, false)];
  }

  lemma AloneDoesNotAlternate()
    ensures !Alternates([Unsubscribe(0)])
  {
    CallAppended([], Unsubscribe(0));
    assert [] + [Unsubscribe(0)] == [Unsubscribe(0)];
  }

  lemma RunStep(s: State, step: Step, rest: seq<Step>)
    requires WellFormed(s) && Enabled(s, step) && Possible(Next(s, step), rest)
    ensures Possible(s, [step] + rest) && Run(s, [step] + rest) == Run(Next(s, step), rest)
  {
    assert ([step] + rest)[1..] == rest;
  }
}
