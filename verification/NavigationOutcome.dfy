/**
 What every history of pending navigations comes to, read off its calls alone: who listens, which request
 still waits, and which listener took which request.
 */
module NavigationOutcome {
  import opened Wrappers
  import opened QueueNavigation

  predicate Requests(e: Event, t: Target) {
    e.target == t && e.action.Request?
  }

  predicate Joins(e: Event, t: Target, l: Listener) {
    e.target == t && e.action == Subscribe(l)
  }

  predicate Leaves(e: Event, t: Target, l: Listener) {
    e.target == t && e.action == Unsubscribe(l)
  }

  // ---------- who listens ----------

  /** The listener subscribes at place i and never leaves again. */
  ghost predicate StaysFrom(events: seq<Event>, t: Target, l: Listener, i: nat) {
    i < |events| && Joins(events[i], t, l) && forall j | i < j < |events| :: !Leaves(events[j], t, l)
  }

  /** The listener is subscribed, and has its turn from place i, subscribing again having no effect. */
  ghost predicate JoinedAt(events: seq<Event>, t: Target, l: Listener, i: nat) {
    StaysFrom(events, t, l, i) && forall j: nat | j < i :: !StaysFrom(events, t, l, j)
  }

  /** Of the subscribed listeners, the one subscribed longest that accepts. */
  ghost predicate Taker(events: seq<Event>, t: Target, at: nat, answers: Answers, l: Listener) {
    answers(at, l) &&
    exists i: nat :: JoinedAt(events, t, l, i) &&
                     forall other, j: nat | j < i && JoinedAt(events, t, other, j) :: !answers(at, other)
  }

  ghost predicate NobodyTakes(events: seq<Event>, t: Target, at: nat, answers: Answers) {
    forall l, i: nat | JoinedAt(events, t, l, i) :: !answers(at, l)
  }

  lemma StaysOneMore(events: seq<Event>, e: Event, t: Target, l: Listener, i: nat)
    ensures StaysFrom(events + [e], t, l, i) <==>
            !Leaves(e, t, l) && (StaysFrom(events, t, l, i) || (i == |events| && Joins(e, t, l)))
  {
    var more := events + [e];
    assert more[|events|] == e && forall k | 0 <= k < |events| :: more[k] == events[k];
  }

  ghost predicate Subscribed(events: seq<Event>, t: Target, l: Listener) {
    exists i: nat :: JoinedAt(events, t, l, i)
  }

  lemma {:induction false} StaysIsSubscribed(events: seq<Event>, t: Target, l: Listener, i: nat)
    requires StaysFrom(events, t, l, i)
    ensures Subscribed(events, t, l)
  {
    if j: nat :| j < i && StaysFrom(events, t, l, j) {
      StaysIsSubscribed(events, t, l, j);
    } else {
      assert JoinedAt(events, t, l, i);
    }
  }

  lemma JoinedOneMore(events: seq<Event>, e: Event, t: Target, l: Listener, i: nat)
    ensures JoinedAt(events + [e], t, l, i) <==>
            if Leaves(e, t, l) then false
            else if Joins(e, t, l) && !Subscribed(events, t, l) then i == |events|
            else JoinedAt(events, t, l, i)
    ensures JoinedAt(events, t, l, i) ==> i < |events|
  {
    forall j: nat
      ensures StaysFrom(events + [e], t, l, j) <==>
              !Leaves(e, t, l) && (StaysFrom(events, t, l, j) || (j == |events| && Joins(e, t, l)))
      ensures StaysFrom(events, t, l, j) ==> j < |events| && Subscribed(events, t, l)
    {
      StaysOneMore(events, e, t, l, j);
      if StaysFrom(events, t, l, j) { StaysIsSubscribed(events, t, l, j); }
    }
    hide StaysFrom;
  }

  /** Exactly the subscribed listeners, in the order of their turns. */
  ghost predicate ListenersTold(listeners: seq<Listener>, events: seq<Event>, t: Target) {
    && (forall l, i: nat | JoinedAt(events, t, l, i) :: l in listeners)
    && (forall l | l in listeners :: Subscribed(events, t, l))
    && forall a: nat, b: nat, i: nat, j: nat | a < b < |listeners| ::
         JoinedAt(events, t, listeners[a], i) && JoinedAt(events, t, listeners[b], j) ==> i < j
  }

  lemma {:induction false} RemovedKeepsOrder(listeners: seq<Listener>, l: Listener, a: nat, b: nat)
    requires a < b < |Removed(listeners, l)|
    ensures var left := Removed(listeners, l);
            exists c: nat, d: nat :: c < d < |listeners| && listeners[c] == left[a] && listeners[d] == left[b]
  {
    var rest := listeners[1..];
    if listeners[0] == l {
      RemovedKeepsOrder(rest, l, a, b);
      var c: nat, d: nat :| c < d < |rest| && rest[c] == Removed(rest, l)[a] && rest[d] == Removed(rest, l)[b];
      assert listeners[c + 1] == rest[c] && listeners[d + 1] == rest[d];
    } else if a > 0 {
      RemovedKeepsOrder(rest, l, a - 1, b - 1);
      var c: nat, d: nat :| c < d < |rest| && rest[c] == Removed(rest, l)[a - 1] && rest[d] == Removed(rest, l)[b - 1];
      assert listeners[c + 1] == rest[c] && listeners[d + 1] == rest[d];
    } else {
      assert Removed(rest, l)[b - 1] in rest;
      var d: nat :| d < |rest| && rest[d] == Removed(rest, l)[b - 1];
      assert listeners[0] == Removed(listeners, l)[0] && listeners[d + 1] == rest[d];
    }
  }

  lemma SameListeners(listeners: seq<Listener>, events: seq<Event>, e: Event, t: Target)
    requires ListenersTold(listeners, events, t)
    requires e.target != t || e.action.Request? || (e.action.Subscribe? && e.action.listener in listeners)
    ensures ListenersTold(listeners, events + [e], t)
  {
    forall l, i: nat ensures JoinedAt(events + [e], t, l, i) <==> JoinedAt(events, t, l, i) {
      JoinedOneMore(events, e, t, l, i);
    }
    hide JoinedAt;
  }

  lemma JoinTold(listeners: seq<Listener>, events: seq<Event>, e: Event, t: Target, l: Listener)
    requires ListenersTold(listeners, events, t) && Joins(e, t, l) && l !in listeners
    ensures ListenersTold(listeners + [l], events + [e], t)
  {
    var more := events + [e];
    forall x, i: nat
      ensures JoinedAt(more, t, x, i) <==> if x == l then i == |events| else JoinedAt(events, t, x, i)
      ensures JoinedAt(events, t, x, i) ==> i < |events|
    {
      JoinedOneMore(events, e, t, x, i);
    }
    hide JoinedAt;
    forall x | x in listeners + [l] ensures Subscribed(more, t, x) {
      if x == l {
        assert JoinedAt(more, t, l, |events|);
      } else {
        var i: nat :| JoinedAt(events, t, x, i);
        assert JoinedAt(more, t, x, i);
      }
    }
  }

  lemma LeaveTold(listeners: seq<Listener>, events: seq<Event>, e: Event, t: Target, l: Listener)
    requires ListenersTold(listeners, events, t) && Leaves(e, t, l)
    ensures ListenersTold(Removed(listeners, l), events + [e], t)
  {
    var more, left := events + [e], Removed(listeners, l);
    forall x, i: nat ensures JoinedAt(more, t, x, i) <==> x != l && JoinedAt(events, t, x, i) {
      JoinedOneMore(events, e, t, x, i);
    }
    hide JoinedAt;
    hide Removed;
    forall x | x in left ensures Subscribed(more, t, x) {
      var i: nat :| JoinedAt(events, t, x, i);
      assert JoinedAt(more, t, x, i);
    }
    forall a: nat, b: nat, i: nat, j: nat | a < b < |left|
      ensures JoinedAt(more, t, left[a], i) && JoinedAt(more, t, left[b], j) ==> i < j
    {
      RemovedKeepsOrder(listeners, l, a, b);
    }
  }

  lemma ListenersOneMore(r: Run, events: seq<Event>, e: Event, answers: Answers, t: Target)
    requires ListenersTold(r.lane.listeners, events, t)
    ensures ListenersTold(RunStep(r, e, answers, t).lane.listeners, events + [e], t)
  {
    hide ListenersTold, Removed, FirstAccepting;
    var listeners := r.lane.listeners;
    if e.target == t && e.action.Unsubscribe? {
      LeaveTold(listeners, events, e, t, e.action.listener);
    } else if e.target == t && e.action.Subscribe? && e.action.listener !in listeners {
      JoinTold(listeners, events, e, t, e.action.listener);
    } else {
      SameListeners(listeners, events, e, t);
    }
  }

  /** After any history the lane's listeners are those subscribed, in the order of their turns. */
  lemma {:induction false} ListenersAreTheSubscribed(events: seq<Event>, answers: Answers, t: Target)
    ensures ListenersTold(RunOf(events, answers, t).lane.listeners, events, t)
  {
    if events != [] {
      hide ListenersTold, RunStep;
      var front, last := events[..|events| - 1], events[|events| - 1];
      ListenersAreTheSubscribed(front, answers, t);
      ListenersOneMore(RunOf(front, answers, t), front, last, answers, t);
      assert events == front + [last];
    }
  }

  /** The listener a replay finds is the taker. */
  lemma FirstIsTaker(listeners: seq<Listener>, events: seq<Event>, t: Target, at: nat, answers: Answers)
    requires ListenersTold(listeners, events, t)
    ensures var found := FirstAccepting(listeners, at, answers);
            (forall l: Listener :: found == Some(l) <==> Taker(events, t, at, answers, l)) &&
            (found == None <==> NobodyTakes(events, t, at, answers))
  {
    var found := FirstAccepting(listeners, at, answers);
    AskedInOrder(listeners, at, answers);
    assert forall l, i: nat, j: nat :: JoinedAt(events, t, l, i) && JoinedAt(events, t, l, j) ==> i == j;
    hide JoinedAt, FirstAccepting;
    if found.Some? {
      var a: nat :| a < |listeners| && found == Some(listeners[a]) &&
                    forall b | 0 <= b < a :: !answers(at, listeners[b]);
      var i: nat :| JoinedAt(events, t, listeners[a], i);
      forall other, j: nat | j < i && JoinedAt(events, t, other, j) ensures !answers(at, other) {
        var b: nat :| b < |listeners| && listeners[b] == other;
      }
      assert Taker(events, t, at, answers, listeners[a]);
      forall l: Listener | Taker(events, t, at, answers, l) ensures l == listeners[a] {
        var j: nat :| JoinedAt(events, t, l, j) &&
                      forall other, k: nat | k < j && JoinedAt(events, t, other, k) :: !answers(at, other);
        var b: nat :| b < |listeners| && listeners[b] == l;
      }
    } else {
      forall l: Listener ensures !Taker(events, t, at, answers, l) {
        if i: nat :| JoinedAt(events, t, l, i) { assert l in listeners; }
      }
    }
  }

  // ---------- which request waits ----------

  /** The lane's request in hand is offered: it is made, or a listener subscribes. */
  predicate Offers(e: Event, t: Target) {
    e.target == t && !e.action.Unsubscribe?
  }

  /** No listener of the lane took what was offered at any place from i on. */
  ghost predicate RefusedFrom(events: seq<Event>, answers: Answers, t: Target, i: nat) {
    forall k | i <= k < |events| && Offers(events[k], t) :: NobodyTakes(events[..k + 1], t, events[k].at, answers)
  }

  /** The request made at place i still waits: no later one of its lane, and whoever was asked refused. */
  ghost predicate WaitsSince(events: seq<Event>, answers: Answers, t: Target, i: nat) {
    && i < |events| && Requests(events[i], t)
    && (forall j | i < j < |events| :: !Requests(events[j], t))
    && RefusedFrom(events, answers, t, i)
  }

  function RequestOf(e: Event): Pending
    requires e.action.Request?
  {
    Pending(e.at, e.action.payload)
  }

  ghost predicate Waits(events: seq<Event>, answers: Answers, t: Target, p: Pending) {
    exists i: nat :: WaitsSince(events, answers, t, i) && p == RequestOf(events[i])
  }

  lemma RefusedOneMore(events: seq<Event>, e: Event, answers: Answers, t: Target, i: nat)
    requires i <= |events|
    ensures RefusedFrom(events + [e], answers, t, i) <==>
            RefusedFrom(events, answers, t, i) && (Offers(e, t) ==> NobodyTakes(events + [e], t, e.at, answers))
  {
    hide NobodyTakes;
    var more := events + [e];
    assert more[..|events| + 1] == more && more[|events|] == e;
    assert forall k | 0 <= k < |events| :: more[k] == events[k] && more[..k + 1] == events[..k + 1];
  }

  lemma WaitsOneMore(events: seq<Event>, e: Event, answers: Answers, t: Target, p: Pending)
    ensures Waits(events + [e], answers, t, p) <==>
            (if Requests(e, t) then p == RequestOf(e) else Waits(events, answers, t, p)) &&
            (Offers(e, t) ==> NobodyTakes(events + [e], t, e.at, answers))
  {
    var more := events + [e];
    assert more[|events|] == e && forall k | 0 <= k < |events| :: more[k] == events[k];
    forall i: nat | i <= |events|
      ensures RefusedFrom(more, answers, t, i) <==>
              RefusedFrom(events, answers, t, i) && (Offers(e, t) ==> NobodyTakes(more, t, e.at, answers))
    {
      RefusedOneMore(events, e, answers, t, i);
    }
    assert RefusedFrom(events, answers, t, |events|);
    hide RefusedFrom, NobodyTakes;
    if Requests(e, t) {
      assert WaitsSince(more, answers, t, |events|) <==> NobodyTakes(more, t, e.at, answers);
    } else {
      forall i: nat
        ensures WaitsSince(more, answers, t, i) <==>
                WaitsSince(events, answers, t, i) && (Offers(e, t) ==> NobodyTakes(more, t, e.at, answers))
      {
      }
    }
  }

  /** What is pending, and the lane's listeners. */
  ghost predicate LaneTold(lane: Lane, events: seq<Event>, answers: Answers, t: Target) {
    ListenersTold(lane.listeners, events, t) &&
    forall p :: lane.pending == Some(p) <==> Waits(events, answers, t, p)
  }

  // ---------- who took which request ----------

  /** The next event hands the request made by it, or still waiting, to its taker. */
  ghost predicate Hands(events: seq<Event>, e: Event, answers: Answers, t: Target, a: Accept) {
    && a.target == t && Offers(e, t)
    && (if Requests(e, t) then a.request == RequestOf(e) else Waits(events, answers, t, a.request))
    && Taker(events + [e], t, e.at, answers, a.taker)
  }

  lemma StepHands(r: Run, events: seq<Event>, e: Event, answers: Answers, t: Target)
    requires LaneTold(r.lane, events, answers, t)
    ensures var r' := RunStep(r, e, answers, t);
            LaneTold(r'.lane, events + [e], answers, t) &&
            (forall a :: Hands(events, e, answers, t, a) ==> r'.accepted == r.accepted + [a]) &&
            ((forall a :: !Hands(events, e, answers, t, a)) ==> r'.accepted == r.accepted)
  {
    var more := events + [e];
    var r' := RunStep(r, e, answers, t);
    ListenersOneMore(r, events, e, answers, t);
    FirstIsTaker(r'.lane.listeners, more, t, e.at, answers);
    forall p
      ensures Waits(more, answers, t, p) <==>
              (if Requests(e, t) then p == RequestOf(e) else Waits(events, answers, t, p)) &&
              (Offers(e, t) ==> NobodyTakes(more, t, e.at, answers))
    {
      WaitsOneMore(events, e, answers, t, p);
    }
    hide ListenersTold, Waits, NobodyTakes, Taker, FirstAccepting, Removed, Added;
    var found := FirstAccepting(r'.lane.listeners, e.at, answers);
    var hand := InHand(r.lane, e);
    if Offers(e, t) && found.Some? && hand.Some? {
      assert Hands(events, e, answers, t, Accept(t, hand.value, found.value));
    }
  }

  /** Main result, for every history: a request is pending exactly when it is the lane's latest and every
      listener subscribed then refused it when it was made and at each subscription since. */
  lemma {:induction false} PendingIff(events: seq<Event>, answers: Answers, t: Target)
    ensures LaneTold(RunOf(events, answers, t).lane, events, answers, t)
  {
    if events != [] {
      var front, last := events[..|events| - 1], events[|events| - 1];
      assert events == front + [last];
      assert RunOf(events, answers, t) == RunStep(RunOf(front, answers, t), last, answers, t);
      hide LaneTold, RunStep, RunOf, Hands;
      PendingIff(front, answers, t);
      StepHands(RunOf(front, answers, t), front, last, answers, t);
    }
  }

  /** Main result, for every call after any history: it delivers a request exactly when one is made by it or
      waits and a subscribed listener accepts, and then to the one subscribed longest that does. */
  lemma CallDeliversIff(events: seq<Event>, e: Event, answers: Answers, t: Target)
    ensures var was, now := RunOf(events, answers, t).accepted, RunOf(events + [e], answers, t).accepted;
            (forall a :: Hands(events, e, answers, t, a) ==> now == was + [a]) &&
            ((forall a :: !Hands(events, e, answers, t, a)) ==> now == was)
  {
    PendingIff(events, answers, t);
    StepHands(RunOf(events, answers, t), events, e, answers, t);
    assert (events + [e])[..|events|] == events;
    hide LaneTold, RunStep, Hands;
  }

  ghost predicate HandedAt(events: seq<Event>, answers: Answers, t: Target, a: Accept, k: nat) {
    k < |events| && Hands(events[..k], events[k], answers, t, a)
  }

  ghost predicate Handed(events: seq<Event>, answers: Answers, t: Target, a: Accept) {
    exists k: nat :: HandedAt(events, answers, t, a, k)
  }

  lemma HandedOneMore(events: seq<Event>, e: Event, answers: Answers, t: Target, a: Accept)
    ensures Handed(events + [e], answers, t, a) <==>
            Handed(events, answers, t, a) || Hands(events, e, answers, t, a)
  {
    hide Hands;
    var more := events + [e];
    assert more[..|events|] == events && more[|events|] == e;
    assert forall k | 0 <= k < |events| :: more[k] == events[k] && more[..k] == events[..k];
    forall k: nat
      ensures HandedAt(more, answers, t, a, k) <==>
              HandedAt(events, answers, t, a, k) || (k == |events| && Hands(events, e, answers, t, a))
    {
    }
    assert HandedAt(more, answers, t, a, |events|) <==> Hands(events, e, answers, t, a);
    hide HandedAt;
  }

  lemma CallAdds(events: seq<Event>, e: Event, answers: Answers, t: Target, a: Accept)
    ensures a in RunOf(events + [e], answers, t).accepted <==>
            a in RunOf(events, answers, t).accepted || Hands(events, e, answers, t, a)
  {
    CallDeliversIff(events, e, answers, t);
    hide *;
    var was, now := RunOf(events, answers, t).accepted, RunOf(events + [e], answers, t).accepted;
    if given :| Hands(events, e, answers, t, given) {
      assert now == was + [given] && now[|was|] == given;
      if Hands(events, e, answers, t, a) { assert now == was + [a] && now[|was|] == a; }
    }
  }

  /** The deliveries of a whole history are exactly those of its calls. */
  lemma {:induction false} AcceptedIff(events: seq<Event>, answers: Answers, t: Target, a: Accept)
    ensures a in RunOf(events, answers, t).accepted <==> Handed(events, answers, t, a)
  {
    if events != [] {
      hide *;
      var front, last := events[..|events| - 1], events[|events| - 1];
      assert events == front + [last];
      AcceptedIff(front, answers, t, a);
      HandedOneMore(front, last, answers, t, a);
      CallAdds(front, last, answers, t, a);
    }
  }
}
