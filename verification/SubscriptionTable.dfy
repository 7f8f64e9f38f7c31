/** The code of event subscriptions: loops over the GATT table that set flags and call the application. */
module SubscriptionTable {
  import opened Base
  import S = Subscriptions

  // ------------------------------------------------------------------ sending events

  /** What is found when an entry's event is due: the pairing's record, the controller's rights, the platform. */
  datatype Reply = Reply(readFails: bool, admin: bool, ready: bool)

  type Replies = nat -> Reply

  /** The entries an event is due for, as far as the table goes. */
  predicate Due(a: S.Attribute, subscribed: bool, pending: bool) {
    S.SupportsEvents(a) && a.iidFits && subscribed && pending
  }

  /** Events are sent in a session that counts as secured and is not transient. */
  predicate Open(s: S.State, readFails: bool) {
    S.IsSecured(s, readFails) && !s.transient
  }

  predicate Permitted(a: S.Attribute, r: Reply) {
    a.Characteristic? && a.readRequiresAdmin ==> r.admin
  }

  /** A due entry that ends the loop: nothing may be sent any more, or the platform is busy. */
  predicate Ends(s: S.State, a: S.Attribute, r: Reply) {
    !Open(s, r.readFails) || (Permitted(a, r) && !r.ready)
  }

  /** What the loop does with an entry. */
  datatype Verdict = Skip | End | Indicate

  function Judge(s: S.State, pending: seq<bool>, i: nat, r: Reply): Verdict
    requires |s.subscribed| == |pending| == |s.attributes| && i < |pending|
  {
    if s.attributes[i].Unused? then End
    else if !Due(s.attributes[i], s.subscribed[i], pending[i]) then Skip
    else if Ends(s, s.attributes[i], r) then End
    else if Permitted(s.attributes[i], r) then Indicate
    else Skip
  }

  /** The entries from `k` on whose event is sent, in order. */
  function Sent(s: S.State, pending: seq<bool>, k: nat, replies: Replies): (l: seq<nat>)
    requires |s.subscribed| == |pending| == |s.attributes| && k <= |pending|
    ensures forall i: nat :: i in l ==> k <= i < |pending|
    ensures forall a, b :: 0 <= a < b < |l| ==> l[a] < l[b]
    decreases |pending| - k
  {
    if k == |pending| || Judge(s, pending, k, replies(k)) == End then []
    else
      var l := Sent(s, pending, k + 1, replies);
      assert forall b :: 0 <= b < |l| ==> l[b] in l;
      if Judge(s, pending, k, replies(k)) == Indicate then [k] + l else l
  }

  function Cleared(pending: seq<bool>, sent: seq<nat>): (r: seq<bool>)
    ensures |r| == |pending|
    ensures forall i: nat :: i < |r| ==> r[i] == (pending[i] && i !in sent)
  {
    seq(|pending|, i requires 0 <= i < |pending| => pending[i] && i !in sent)
  }

  /**
    An event is sent exactly when its entry is used, due and permitted, and neither it nor a due entry
    before it ends the loop.
  */
  lemma {:induction false} SentExactly(s: S.State, pending: seq<bool>, k: nat, replies: Replies, i: nat)
    requires |s.subscribed| == |pending| == |s.attributes| && k <= i
    requires k <= S.Used(s.attributes)
    ensures i in Sent(s, pending, k, replies) <==>
            && i < S.Used(s.attributes) && Due(s.attributes[i], s.subscribed[i], pending[i])
            && Permitted(s.attributes[i], replies(i))
            && forall j :: k <= j <= i && Due(s.attributes[j], s.subscribed[j], pending[j]) ==>
                 !Ends(s, s.attributes[j], replies(j))
    decreases |s.attributes| - k
  {
    if k < S.Used(s.attributes) {
      if k < i {
        SentExactly(s, pending, k + 1, replies, i);
      }
    }
  }

  /** In a session that may send, with a platform that can and a controller that may read, a raised event is sent. */
  lemma RaisedEventIsSent(s: S.State, pending: seq<bool>, i: nat, replies: Replies)
    requires S.WellFormed(s) && |pending| == |s.attributes| && i < |s.attributes| && s.subscribed[i]
    requires s.attributes[i].iidFits
    requires forall j :: 0 <= j <= i ==> Open(s, replies(j).readFails) && replies(j).ready && replies(j).admin
    ensures i in Sent(s, pending[i := true], 0, replies)
  {
    SentExactly(s, pending[i := true], 0, replies, i);
  }

  /** What is sent is pending and subscribed, in a session that is neither transient nor short of rights. */
  lemma SentMeans(s: S.State, pending: seq<bool>, i: nat, replies: Replies)
    requires S.WellFormed(s) && |pending| == |s.attributes| && i in Sent(s, pending, 0, replies)
    ensures i < |s.attributes| && s.subscribed[i] && pending[i] && s.attributes[i].Characteristic?
    ensures s.attributes[i].supportsEvents && s.attributes[i].iidFits
    ensures s.attributes[i].readRequiresAdmin ==> replies(i).admin
    ensures s.active && !s.transient && !s.pairingMissing && !replies(i).readFails && replies(i).ready
  {
    SentExactly(s, pending, 0, replies, i);
  }

  // ------------------------------------------------------------------ the code

  class Manager {
    const attributes: seq<S.Attribute>
    const centralSubscribed: array<bool>
    const pendingEvent: array<bool>
    var connected: bool
    var active: bool
    var transient: bool
    var pairingMissing: bool
    var failed: bool

    /** The subscribe and unsubscribe handlers of the application, in the order they are called. */
    ghost var calls: seq<S.Call>

    ghost predicate Valid()
      reads this, centralSubscribed
    {
      && centralSubscribed != pendingEvent
      && centralSubscribed.Length == pendingEvent.Length == |attributes|
      && S.WellFormed(Model())
    }

    ghost function Model(): S.State
      reads this, centralSubscribed
    {
      S.State(attributes, centralSubscribed[..], connected, active, transient, pairingMissing, calls, failed)
    }

    constructor (attributes: seq<S.Attribute>)
      ensures Valid() && fresh(centralSubscribed) && fresh(pendingEvent)
      ensures Model() == S.Initial(attributes)
    {
      this.attributes := attributes;
      centralSubscribed := new bool[|attributes|](_ => false);
      pendingEvent := new bool[|attributes|](_ => false);
      connected, active, transient, pairingMissing, calls, failed := false, false, false, false, [], false;
      new;
      assert centralSubscribed[..] == S.NoneSubscribed(|attributes|);
    }

    method IsSecured(readFails: bool) returns (r: bool)
      ensures r == S.IsSecured(Model(), readFails)
    {
      if !active {
        return false;
      }
      if transient {
        return true;
      }
      if readFails {
        return false;
      }
      return !pairingMissing;
    }

    /** Entries behind the first unused one are never set, so stopping there clears all of them. */
    method ResetEventState()
      requires Valid()
      modifies centralSubscribed, pendingEvent
      ensures Valid() && Model() == old(Model()).(subscribed := S.NoneSubscribed(|attributes|))
      ensures forall i :: 0 <= i < S.Used(attributes) ==> !pendingEvent[i]
    {
      var i := 0;
      while i < |attributes|
        invariant 0 <= i <= S.Used(attributes)
        invariant forall j :: 0 <= j < i ==> !centralSubscribed[j] && !pendingEvent[j]
        invariant forall j :: i <= j < |attributes| ==> centralSubscribed[j] == old(centralSubscribed[j])
      {
        if attributes[i].Unused? {
          break;
        }
        centralSubscribed[i] := false;
        pendingEvent[i] := false;
        i := i + 1;
      }
      assert centralSubscribed[..] == S.NoneSubscribed(|attributes|);
    }

    /** Sends pending events until the session or the platform does not allow it. */
    method SendPendingEventNotifications(replies: Replies) returns (ghost sent: seq<nat>)
      requires Valid()
      modifies pendingEvent
      ensures sent == old(Sent(Model(), pendingEvent[..], 0, replies))
      ensures pendingEvent[..] == Cleared(old(pendingEvent[..]), sent)
    {
      var i: nat := 0;
      sent := [];
      ghost var was, s := pendingEvent[..], Model();
      while i < |attributes|
        invariant 0 <= i <= |attributes|
        invariant Sent(s, was, 0, replies) == sent + Sent(s, was, i, replies)
        invariant forall k: nat :: k in sent ==> k < i
        invariant pendingEvent[..] == Cleared(was, sent)
      {
        var verdict := JudgeEntry(i, replies(i));
        SameVerdict(s, was, sent, i, replies);
        if verdict == End {
          break;
        }
        if verdict == Indicate {
          ghost var before := pendingEvent[..];
          pendingEvent[i] := false;
          assert pendingEvent[..] == before[i := false];
          sent := sent + [i];
        }
        i := i + 1;
      }
    }

    /** One turn of the loop: the flag it looks at is still the original one, and `sent` grows as specified. */
    static lemma SameVerdict(s: S.State, was: seq<bool>, sent: seq<nat>, i: nat, replies: Replies)
      requires |s.subscribed| == |was| == |s.attributes| && i < |was| && i !in sent
      ensures var v := Judge(s, Cleared(was, sent), i, replies(i));
              && (v == End ==> sent + Sent(s, was, i, replies) == sent)
              && (v == Skip ==> sent + Sent(s, was, i, replies) == sent + Sent(s, was, i + 1, replies))
              && (v == Indicate ==> sent + Sent(s, was, i, replies) == (sent + [i]) + Sent(s, was, i + 1, replies))
      ensures Cleared(was, sent)[i := false] == Cleared(was, sent + [i])
    {
      var rest := Sent(s, was, i + 1, replies);
      assert sent + ([i] + rest) == (sent + [i]) + rest;
      assert Judge(s, Cleared(was, sent), i, replies(i)) == Judge(s, was, i, replies(i));
    }

    method JudgeEntry(i: nat, reply: Reply) returns (v: Verdict)
      requires Valid() && i < |attributes|
      ensures v == Judge(Model(), pendingEvent[..], i, reply)
    {
      if attributes[i].Unused? {
        return End;
      }
      if attributes[i].ServiceOnly? || !attributes[i].supportsEvents || !attributes[i].iidFits
         || !centralSubscribed[i] || !pendingEvent[i] {
        return Skip;
      }
      var isSecured := IsSecured(reply.readFails);
      if !isSecured {
        return End;
      }
      if active && transient {
        return End;
      }
      if attributes[i].readRequiresAdmin && !reply.admin {
        return Skip;
      }
      return if reply.ready then Indicate else End;
    }

    /** The pending flags after the loop, given those before it. */
    ghost function Remaining(pending: seq<bool>, replies: Replies): seq<bool>
      requires Valid() && |pending| == |attributes|
      reads this, centralSubscribed
    {
      Cleared(pending, Sent(Model(), pending, 0, replies))
    }

    /** Schedules an event and tries to send it. */
    method RaiseEvent(i: nat, replies: Replies)
      requires Valid() && i < S.Used(attributes) && S.SupportsEvents(attributes[i])
      modifies pendingEvent
      ensures pendingEvent[..] == Remaining(old(pendingEvent[..])[i := true], replies)
    {
      pendingEvent[i] := true;
      assert pendingEvent[..] == old(pendingEvent[..])[i := true];
      ghost var sent := SendPendingEventNotifications(replies);
    }

    method SetNotificationsEnabled(i: nat, enable: bool, readFails: bool, replies: Replies)
      requires Valid() && i < S.Used(attributes) && S.SupportsEvents(attributes[i])
      modifies this, centralSubscribed, pendingEvent
      ensures Valid() && Model() == S.SetEnabled(old(Model()), i, enable, readFails)
      ensures pendingEvent[..] == if old(centralSubscribed[i]) == enable then old(pendingEvent[..])
                                  else Remaining(old(pendingEvent[..]), replies)
    {
      if centralSubscribed[i] == enable {
        return;
      }
      centralSubscribed[i] := enable;
      assert centralSubscribed[..] == old(centralSubscribed[..])[i := enable];
      var isSecured := IsSecured(readFails);
      if isSecured {
        if enable {
          calls := calls + [S.Subscribe(i)];
        } else {
          calls := calls + [S.Unsubscribe(i)];
        }
      }
      ghost var sent := SendPendingEventNotifications(replies);
    }

    /** A write to the configuration descriptor: two bytes, only the indication bit may be set. */
    method HandleCccWrite(i: nat, bytes: seq<byte>, readFails: bool, replies: Replies) returns (error: Option<Error>)
      requires Valid() && !failed && connected && i < S.Used(attributes) && S.SupportsEvents(attributes[i])
      modifies this, centralSubscribed, pendingEvent
      ensures Valid()
      ensures error.None? <==> bytes == [0, 0] || bytes == [2, 0]
      ensures Model() == if error.None? then S.Next(old(Model()), S.WriteCcc(i, bytes[0] == 2, readFails))
                         else old(Model())
      ensures pendingEvent[..] ==
              if error.None? && old(centralSubscribed[i]) != (bytes[0] == 2) then
                Remaining(old(pendingEvent[..]), replies)
              else old(pendingEvent[..])
    {
      if |bytes| != 2 {
        return Some(InvalidData);
      }
      var v := ReadLittle16(bytes);
      if v - (if v / 2 % 2 == 1 then 2 else 0) != 0 {
        return Some(InvalidData);
      }
      var eventsEnabled := v / 2 % 2 != 0;
      SetNotificationsEnabled(i, eventsEnabled, readFails, replies);
      return None;
    }

    /** Tells the application about every subscription of the used table, or about its end. */
    method InformApplication(subscribe: bool)
      requires Valid()
      modifies `calls
      ensures var l := S.Listed(centralSubscribed[..], |attributes|);
              calls == old(calls) + if subscribe then S.SubscribeCalls(l) else S.UnsubscribeCalls(l)
    {
      ghost var b := centralSubscribed[..];
      ghost var made: seq<S.Call> := [];
      var i := 0;
      while i < |attributes|
        invariant 0 <= i <= S.Used(attributes)
        invariant calls == old(calls) + made
        invariant made == Calls(subscribe, S.Listed(b, i))
      {
        if attributes[i].Unused? {
          break;
        }
        if attributes[i].Characteristic? && attributes[i].supportsEvents && centralSubscribed[i] {
          Append(subscribe, S.Listed(b, i), i);
          ghost var c := if subscribe then S.Subscribe(i) else S.Unsubscribe(i);
          calls, made := calls + [c], made + [c];
        }
        i := i + 1;
      }
      NothingListedBehind(attributes, b, i);
    }

    static ghost function Calls(subscribe: bool, l: seq<nat>): seq<S.Call> {
      if subscribe then S.SubscribeCalls(l) else S.UnsubscribeCalls(l)
    }

    static lemma Append(subscribe: bool, l: seq<nat>, i: nat)
      ensures Calls(subscribe, l + [i])
              == Calls(subscribe, l) + [if subscribe then S.Subscribe(i) else S.Unsubscribe(i)]
    {
      assert (l + [i])[..|l|] == l;
    }

    static lemma {:induction false} NothingListedBehind(attributes: seq<S.Attribute>, subscribed: seq<bool>, n: nat)
      requires |subscribed| == |attributes| && S.Used(attributes) <= n <= |attributes|
      requires forall i :: 0 <= i < |subscribed| && subscribed[i] ==> i < S.Used(attributes)
      ensures S.Listed(subscribed, |attributes|) == S.Listed(subscribed, n)
      decreases |attributes| - n
    {
      if n < |attributes| {
        NothingListedBehind(attributes, subscribed, n + 1);
      }
    }

    method Activate(isTransient: bool)
      requires Valid() && connected
      modifies `active, `transient, `pairingMissing
      ensures Valid()
      ensures Model() == old(Model()).(active := true, transient := isTransient, pairingMissing := false)
    {
      active, transient, pairingMissing := true, isTransient, false;
    }

    method HandleSessionAccept(readFails: bool, replies: Replies)
      requires Valid() && connected && !failed
      modifies this, pendingEvent
      ensures Valid()
      ensures Model() == var s := old(Model()); if S.IsSecured(s, readFails) then S.Announce(s) else s.(failed := true)
      ensures pendingEvent[..] == if failed then old(pendingEvent[..]) else Remaining(old(pendingEvent[..]), replies)
    {
      var isSecured := IsSecured(readFails);
      if !isSecured {
        failed := true;
        return;
      }
      InformApplication(true);
      ghost var sent := SendPendingEventNotifications(replies);
    }

    /** What Pair Verify or, for a transient session, Pair Setup does to the session. */
    method Accept(isTransient: bool, ghost startFails: bool, readFails: bool, replies: Replies)
      requires Valid() && S.Enabled(Model(), S.Accept(isTransient, startFails, readFails))
      modifies this, pendingEvent
      ensures Valid() && Model() == S.Next(old(Model()), S.Accept(isTransient, startFails, readFails))
      ensures pendingEvent[..] == if failed then old(pendingEvent[..]) else Remaining(old(pendingEvent[..]), replies)
    {
      if !isTransient && active {
        failed := true;
        return;
      }
      Activate(isTransient);
      HandleSessionAccept(readFails, replies);
    }

    method InvalidateSession()
      requires Valid()
      modifies this
      ensures Valid() && Model() == S.InvalidateSession(old(Model()))
    {
      if active {
        InformApplication(false);
      }
      active, transient := false, false;
    }

    method HandleConnectedCentral()
      requires Valid() && !connected && !failed
      modifies this, centralSubscribed, pendingEvent
      ensures Valid() && Model() == S.Next(old(Model()), S.Connect)
      ensures forall i :: 0 <= i < S.Used(attributes) ==> !pendingEvent[i]
    {
      ResetEventState();
      connected := true;
      active, transient := false, false;
    }

    method HandleDisconnectedCentral()
      requires Valid() && connected && !failed
      modifies this, centralSubscribed, pendingEvent
      ensures Valid() && Model() == S.Next(old(Model()), S.Disconnect)
      ensures forall i :: 0 <= i < S.Used(attributes) ==> !pendingEvent[i]
    {
      InvalidateSession();
      connected := false;
      ResetEventState();
    }
  }
}
