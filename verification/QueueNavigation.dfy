/**
 The pending navigation of queue-push-navigation.ts: three lanes, each with one pending request and an
 insertion-ordered set of listeners that accept or refuse it.  Listeners do not call back in.
 */
module QueueNavigation {
  import opened Wrappers

  datatype Target = Owner | Customer | Guest

  datatype Payload = Payload(salonId: string, queueEntryId: string)

  /** A listener function, by identity. */
  type Listener = nat

  /** A request carries its place in the history, so that equal payloads stay apart. */
  datatype Pending = Pending(at: nat, payload: Payload)

  datatype Lane = Lane(pending: Option<Pending>, listeners: seq<Listener>)

  const FRESH := Lane(None, [])

  /** Whether a listener, asked at a point of the history, accepts. */
  type Answers = (nat, Listener) -> bool

  /** The first of the listeners, in insertion order, that accepts. */
  function FirstAccepting(listeners: seq<Listener>, at: nat, answers: Answers): (taker: Option<Listener>)
    ensures taker.Some? ==> taker.value in listeners && answers(at, taker.value)
    ensures taker.None? ==> forall l :: l in listeners ==> !answers(at, l)
  {
    if listeners == [] then None
    else if answers(at, listeners[0]) then Some(listeners[0])
    else FirstAccepting(listeners[1..], at, answers)
  }

  lemma {:induction false} AskedInOrder(listeners: seq<Listener>, at: nat, answers: Answers)
    ensures FirstAccepting(listeners, at, answers).Some? ==>
              exists i :: 0 <= i < |listeners| && FirstAccepting(listeners, at, answers) == Some(listeners[i]) &&
                          forall j | 0 <= j < i :: !answers(at, listeners[j])
  {
    if listeners != [] && !answers(at, listeners[0]) {
      AskedInOrder(listeners[1..], at, answers);
      if FirstAccepting(listeners, at, answers).Some? {
        var i :| 0 <= i < |listeners[1..]| && FirstAccepting(listeners[1..], at, answers) == Some(listeners[1..][i]) &&
                 forall j | 0 <= j < i :: !answers(at, listeners[1..][j]);
        assert listeners[i + 1] == listeners[1..][i];
        assert forall j | 0 < j <= i :: listeners[j] == listeners[1..][j - 1];
      }
    }
  }

  function Replayed(lane: Lane, at: nat, answers: Answers): (Lane, Option<Listener>) {
    if lane.pending.None? then (lane, None) else
    var taker := FirstAccepting(lane.listeners, at, answers);
    (if taker.Some? then lane.(pending := None) else lane, taker)
  }

  /** Set.add: a listener already there keeps its place. */
  function Added(listeners: seq<Listener>, l: Listener): seq<Listener> {
    if l in listeners then listeners else listeners + [l]
  }

  function Removed(listeners: seq<Listener>, l: Listener): (r: seq<Listener>)
    ensures forall x :: x in r <==> x in listeners && x != l
  {
    if listeners == [] then []
    else if listeners[0] == l then Removed(listeners[1..], l)
    else [listeners[0]] + Removed(listeners[1..], l)
  }

  datatype Action = Request(payload: Payload) | Subscribe(listener: Listener) | Unsubscribe(listener: Listener)

  /** at is the event's place in the history of all lanes. */
  datatype Event = Event(at: nat, target: Target, action: Action)

  function LaneStep(lane: Lane, e: Event, answers: Answers): (Lane, Option<Listener>) {
    match e.action
    case Request(payload) => Replayed(lane.(pending := Some(Pending(e.at, payload))), e.at, answers)
    case Subscribe(l) => Replayed(lane.(listeners := Added(lane.listeners, l)), e.at, answers)
    case Unsubscribe(l) => (lane.(listeners := Removed(lane.listeners, l)), None)
  }

  /** A request of a target, taken by one listener. */
  datatype Accept = Accept(target: Target, request: Pending, taker: Listener)

  function TakenBy(accepted: seq<Accept>, t: Target): seq<Accept> {
    if accepted == [] then [] else
    var last := accepted[|accepted| - 1];
    TakenBy(accepted[..|accepted| - 1], t) + if last.target == t then [last] else []
  }

  lemma TakenByAppend(accepted: seq<Accept>, a: Accept, t: Target)
    ensures TakenBy(accepted + [a], t) == TakenBy(accepted, t) + if a.target == t then [a] else []
  {
    assert (accepted + [a])[..|accepted|] == accepted;
  }

  lemma NothingTaken(t: Target)
    ensures TakenBy([], t) == []
  {
  }

  /** The request a step offers to the listeners. */
  function InHand(lane: Lane, e: Event): Option<Pending> {
    if e.action.Request? then Some(Pending(e.at, e.action.payload)) else lane.pending
  }

  /** A step that delivers delivers the request in hand. */
  lemma TakerHasRequest(lane: Lane, e: Event, answers: Answers)
    ensures LaneStep(lane, e, answers).1.Some? ==> InHand(lane, e).Some?
  {
  }

  datatype Run = Run(lane: Lane, accepted: seq<Accept>)

  function RunStep(r: Run, e: Event, answers: Answers, t: Target): Run {
    if e.target != t then r else
    var (lane, taker) := LaneStep(r.lane, e, answers);
    var request := InHand(r.lane, e);
    Run(lane, r.accepted + if taker.Some? && request.Some? then [Accept(t, request.value, taker.value)] else [])
  }

  lemma RunStepAppends(lane: Lane, accepted: seq<Accept>, e: Event, answers: Answers, t: Target)
    ensures var r := RunStep(Run(lane, []), e, answers, t);
            RunStep(Run(lane, accepted), e, answers, t) == Run(r.lane, accepted + r.accepted)
  {
    hide LaneStep;
  }

  /** What one lane has become and has delivered. */
  function RunOf(events: seq<Event>, answers: Answers, t: Target): Run {
    if events == [] then Run(FRESH, []) else
    RunStep(RunOf(events[..|events| - 1], answers, t), events[|events| - 1], answers, t)
  }

  // ---------- the program ----------

  class Navigation {
    var pendingOwner: Option<Pending>
    var pendingCustomer: Option<Pending>
    var pendingGuest: Option<Pending>
    var ownerListeners: seq<Listener>
    var customerListeners: seq<Listener>
    var guestListeners: seq<Listener>

    constructor ()
      ensures forall t :: LaneOf(t) == FRESH
    {
      pendingOwner, pendingCustomer, pendingGuest := None, None, None;
      ownerListeners, customerListeners, guestListeners := [], [], [];
    }

    ghost function LaneOf(t: Target): Lane
      reads this
    {
      match t
      case Owner => Lane(pendingOwner, ownerListeners)
      case Customer => Lane(pendingCustomer, customerListeners)
      case Guest => Lane(pendingGuest, guestListeners)
    }

    method SetPending(t: Target, p: Option<Pending>)
      modifies this
      ensures LaneOf(t) == old(LaneOf(t)).(pending := p)
      ensures forall u | u != t :: LaneOf(u) == old(LaneOf(u))
    {
      match t {
        case Owner => pendingOwner := p;
        case Customer => pendingCustomer := p;
        case Guest => pendingGuest := p;
      }
    }

    method SetListeners(t: Target, ls: seq<Listener>)
      modifies this
      ensures LaneOf(t) == old(LaneOf(t)).(listeners := ls)
      ensures forall u | u != t :: LaneOf(u) == old(LaneOf(u))
    {
      match t {
        case Owner => ownerListeners := ls;
        case Customer => customerListeners := ls;
        case Guest => guestListeners := ls;
      }
    }

    method Replay(t: Target, at: nat, answers: Answers) returns (taker: Option<Listener>)
      modifies this
      ensures (LaneOf(t), taker) == Replayed(old(LaneOf(t)), at, answers)
      ensures forall u | u != t :: LaneOf(u) == old(LaneOf(u))
    {
      var pending := if t == Owner then pendingOwner else if t == Customer then pendingCustomer else pendingGuest;
      if pending.None? {
        return None;
      }
      var listeners :=
        if t == Owner then ownerListeners else if t == Customer then customerListeners else guestListeners;
      for i := 0 to |listeners|
        invariant LaneOf(t) == old(LaneOf(t)) && forall u | u != t :: LaneOf(u) == old(LaneOf(u))
        invariant FirstAccepting(listeners, at, answers) == FirstAccepting(listeners[i..], at, answers)
      {
        if answers(at, listeners[i]) {
          SetPending(t, None);
          return Some(listeners[i]);
        }
        assert listeners[i..][1..] == listeners[i + 1..];
      }
      return None;
    }

    method RequestNavigation(t: Target, payload: Payload, at: nat, answers: Answers) returns (taker: Option<Listener>)
      modifies this
      ensures (LaneOf(t), taker) == LaneStep(old(LaneOf(t)), Event(at, t, Request(payload)), answers)
      ensures forall u | u != t :: LaneOf(u) == old(LaneOf(u))
    {
      SetPending(t, Some(Pending(at, payload)));
      taker := Replay(t, at, answers);
    }

    method SubscribeNavigation(t: Target, l: Listener, at: nat, answers: Answers) returns (taker: Option<Listener>)
      modifies this
      ensures (LaneOf(t), taker) == LaneStep(old(LaneOf(t)), Event(at, t, Subscribe(l)), answers)
      ensures forall u | u != t :: LaneOf(u) == old(LaneOf(u))
    {
      var listeners :=
        if t == Owner then ownerListeners else if t == Customer then customerListeners else guestListeners;
      SetListeners(t, Added(listeners, l));
      taker := Replay(t, at, answers);
    }

    /** The function subscribe returns. */
    method UnsubscribeNavigation(t: Target, l: Listener, at: nat, answers: Answers)
      modifies this
      ensures LaneOf(t) == LaneStep(old(LaneOf(t)), Event(at, t, Unsubscribe(l)), answers).0
      ensures forall u | u != t :: LaneOf(u) == old(LaneOf(u))
    {
      var listeners :=
        if t == Owner then ownerListeners else if t == Customer then customerListeners else guestListeners;
      SetListeners(t, Removed(listeners, l));
    }

    method Handle(e: Event, answers: Answers) returns (accepted: Option<Accept>)
      modifies this
      ensures forall t :: Run(LaneOf(t), if accepted.Some? then TakenBy([accepted.value], t) else []) ==
                          RunStep(Run(old(LaneOf(t)), []), e, answers, t)
    {
      hide Replayed;
      hide TakenBy;
      var pending :=
        if e.action.Request? then Some(Pending(e.at, e.action.payload))
        else if e.target == Owner then pendingOwner else if e.target == Customer then pendingCustomer else pendingGuest;
      var taker := None;
      match e.action {
        case Request(payload) => taker := RequestNavigation(e.target, payload, e.at, answers);
        case Subscribe(l) => taker := SubscribeNavigation(e.target, l, e.at, answers);
        case Unsubscribe(l) => UnsubscribeNavigation(e.target, l, e.at, answers);
      }
      assert (LaneOf(e.target), taker) == LaneStep(old(LaneOf(e.target)), e, answers);
      TakerHasRequest(old(LaneOf(e.target)), e, answers);
      hide LaneStep;
      accepted := if taker.Some? then Some(Accept(e.target, pending.value, taker.value)) else None;
      if accepted.Some? {
        forall t ensures TakenBy([accepted.value], t) == if t == e.target then [accepted.value] else [] {
          TakenByAppend([], accepted.value, t);
          NothingTaken(t);
          assert [] + [accepted.value] == [accepted.value];
        }
      }
    }

    /** Any sequence of calls; accepted lists who took which request, in order. */
    method RunAll(events: seq<Event>, answers: Answers) returns (accepted: seq<Accept>)
      requires forall t :: LaneOf(t) == FRESH
      modifies this
      ensures forall t :: Run(LaneOf(t), TakenBy(accepted, t)) == RunOf(events, answers, t)
    {
      hide RunStep;
      hide TakenBy;
      hide LaneOf;
      accepted := [];
      forall t ensures TakenBy([], t) == [] { NothingTaken(t); }
      for i := 0 to |events|
        invariant forall t :: Run(LaneOf(t), TakenBy(accepted, t)) == RunOf(events[..i], answers, t)
      {
        assert events[..i + 1][..i] == events[..i];
        ghost var was := accepted;
        label Before:
        var one := Handle(events[i], answers);
        accepted := accepted + if one.Some? then [one.value] else [];
        forall t ensures Run(LaneOf(t), TakenBy(accepted, t)) == RunOf(events[..i + 1], answers, t) {
          RunStepAppends(old@Before(LaneOf(t)), TakenBy(was, t), events[i], answers, t);
          if one.Some? {
            TakenByAppend(was, one.value, t);
            TakenByAppend([], one.value, t);
            assert [] + [one.value] == [one.value];
          } else {
            assert accepted == was;
          }
        }
      }
      assert events[..|events|] == events;
    }
  }

  // ---------- whole histories ----------

  /** Lanes do not affect each other: a lane only sees its own events. */
  function Only(events: seq<Event>, t: Target): seq<Event> {
    if events == [] then [] else
    var last := events[|events| - 1];
    Only(events[..|events| - 1], t) + if last.target == t then [last] else []
  }

  lemma {:induction false} LanesAreIndependent(events: seq<Event>, answers: Answers, t: Target)
    ensures RunOf(Only(events, t), answers, t) == RunOf(events, answers, t)
  {
    if events != [] {
      var front, last := events[..|events| - 1], events[|events| - 1];
      LanesAreIndependent(front, answers, t);
      if last.target == t {
        assert (Only(front, t) + [last])[..|Only(front, t)|] == Only(front, t);
      } else {
        assert Only(events, t) == Only(front, t);
      }
    }
  }

  /** Events come in the order of their places. */
  ghost predicate InOrder(events: seq<Event>) {
    forall i, j | 0 <= i < j < |events| :: events[i].at < events[j].at
  }

  ghost predicate Requested(events: seq<Event>, t: Target, p: Pending) {
    Event(p.at, t, Request(p.payload)) in events
  }

  ghost predicate Delivered(r: Run, p: Pending) {
    exists a :: a in r.accepted && a.request == p
  }

  /** A later request of the same lane. */
  ghost predicate Superseded(events: seq<Event>, t: Target, p: Pending) {
    exists q :: Requested(events, t, q) && q.at > p.at
  }

  /** Accepted requests are requests of the lane, in their order and each at most once; what is pending is
      the lane's last request, not yet accepted. */
  ghost predicate Orderly(events: seq<Event>, r: Run, t: Target) {
    && (forall a :: a in r.accepted ==> a.target == t && Requested(events, t, a.request))
    && (forall i, j | 0 <= i < j < |r.accepted| :: r.accepted[i].request.at < r.accepted[j].request.at)
    && (r.lane.pending.Some? ==> Requested(events, t, r.lane.pending.value))
    && (forall a :: a in r.accepted && r.lane.pending.Some? ==> a.request.at < r.lane.pending.value.at)
    && (forall q :: Requested(events, t, q) && r.lane.pending.Some? ==> q.at <= r.lane.pending.value.at)
  }

  /** No request is lost but by a later one of its lane. */
  ghost predicate NoneLost(events: seq<Event>, r: Run, t: Target) {
    forall p :: Requested(events, t, p) ==> Delivered(r, p) || r.lane.pending == Some(p) || Superseded(events, t, p)
  }

  lemma RequestedMore(events: seq<Event>, e: Event, t: Target, p: Pending)
    ensures Requested(events + [e], t, p) <==> Requested(events, t, p) || e == Event(p.at, t, Request(p.payload))
  {
  }

  lemma StepIsOrderly(front: seq<Event>, events: seq<Event>, r: Run, last: Event, answers: Answers, t: Target)
    requires Orderly(front, r, t)
    requires forall p ::
               Requested(events, t, p) <==> Requested(front, t, p) || last == Event(p.at, t, Request(p.payload))
    requires forall p :: Requested(front, t, p) ==> p.at < last.at
    ensures Orderly(events, RunStep(r, last, answers, t), t)
  {
    hide Requested;
    hide FirstAccepting;
    hide Added;
    hide Removed;
  }

  lemma {:induction false} RunIsOrderly(events: seq<Event>, answers: Answers, t: Target)
    requires InOrder(events)
    ensures Orderly(events, RunOf(events, answers, t), t)
  {
    if events != [] {
      var front, last := events[..|events| - 1], events[|events| - 1];
      RunIsOrderly(front, answers, t);
      assert events == front + [last];
      var r := RunOf(front, answers, t);
      hide RunOf;
      forall p ensures Requested(events, t, p) <==> Requested(front, t, p) || last == Event(p.at, t, Request(p.payload))
        ensures Requested(front, t, p) ==> p.at < last.at
      {
        RequestedMore(front, last, t, p);
      }
      StepIsOrderly(front, events, r, last, answers, t);
    }
  }

  lemma StepLosesNone(front: seq<Event>, r: Run, last: Event, answers: Answers, t: Target, p: Pending)
    requires NoneLost(front, r, t) && Requested(front + [last], t, p)
    requires forall e :: e in front ==> e.at < last.at
    ensures var r' := RunStep(r, last, answers, t);
            Delivered(r', p) || r'.lane.pending == Some(p) || Superseded(front + [last], t, p)
  {
    hide FirstAccepting;
    hide Added;
    hide Removed;
    var r' := RunStep(r, last, answers, t);
    assert r.accepted <= r'.accepted;
    if last.target == t && last.action.Request? {
      var q := Pending(last.at, last.action.payload);
      assert Requested(front + [last], t, q);
      if p == q {
        if r'.lane.pending != Some(p) {
          var a := r'.accepted[|r.accepted|];
          assert a in r'.accepted && a.request == p;
        }
      }
    } else if Delivered(r, p) {
      var a :| a in r.accepted && a.request == p;
      assert a in r'.accepted;
    } else if r.lane.pending == Some(p) {
      if r'.lane.pending != Some(p) {
        var a := r'.accepted[|r.accepted|];
        assert a in r'.accepted && a.request == p;
      }
    } else {
      var q :| Requested(front, t, q) && q.at > p.at;
      assert Requested(front + [last], t, q);
    }
  }

  lemma {:induction false} RunLosesNone(events: seq<Event>, answers: Answers, t: Target)
    requires InOrder(events)
    ensures NoneLost(events, RunOf(events, answers, t), t)
  {
    if events != [] {
      var front, last := events[..|events| - 1], events[|events| - 1];
      RunLosesNone(front, answers, t);
      assert events == front + [last];
      var r, r' := RunOf(front, answers, t), RunOf(events, answers, t);
      forall p | Requested(events, t, p)
        ensures Delivered(r', p) || r'.lane.pending == Some(p) || Superseded(events, t, p)
      {
        StepLosesNone(front, r, last, answers, t, p);
      }
    }
  }

  /** The fate of each request of a lane, over any history. */
  lemma EveryRequestOnce(events: seq<Event>, answers: Answers, t: Target, p: Pending)
    requires InOrder(events) && Requested(events, t, p)
    ensures var r := RunOf(events, answers, t);
            (Delivered(r, p) || r.lane.pending == Some(p) || Superseded(events, t, p)) &&
            !(Delivered(r, p) && r.lane.pending == Some(p)) &&
            (r.lane.pending == Some(p) ==> !Superseded(events, t, p)) &&
            (forall i, j | 0 <= i < |r.accepted| && 0 <= j < |r.accepted| ::
               r.accepted[i].request == p && r.accepted[j].request == p ==> i == j)
  {
    RunIsOrderly(events, answers, t);
    RunLosesNone(events, answers, t);
    hide RunOf;
  }
}
