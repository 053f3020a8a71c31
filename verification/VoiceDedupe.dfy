/**
 The announcement claims of booking-voice-dedupe.ts: an event is spoken unless the same event, booking
 and fingerprint was claimed in the last five minutes.  Old claims are dropped on every call.
 */
module VoiceDedupe {
  import opened Wrappers

  const WINDOW := 5 * 60_000

  datatype Event = Created | Rescheduled | Cancelled

  function EventName(e: Event): (name: string)
    ensures ':' !in name
  {
    match e
    case Created => "booking.created"
    case Rescheduled => "booking.rescheduled"
    case Cancelled => "booking.cancelled"
  }

  /** A missing fingerprint reads as the empty one. */
  function Print(fingerprint: Option<string>): string {
    if fingerprint.Some? then fingerprint.value else ""
  }

  function KeyFor(e: Event, booking: string, fingerprint: Option<string>): string {
    EventName(e) + ":" + booking + ":" + Print(fingerprint)
  }

  function Pruned(spoken: map<string, int>, now: int): map<string, int> {
    map k | k in spoken && now - spoken[k] <= WINDOW :: spoken[k]
  }

  datatype Attempt = Attempt(key: string, now: int)

  function Step(spoken: map<string, int>, a: Attempt): (map<string, int>, bool) {
    var kept := Pruned(spoken, a.now);
    if a.key in kept then (kept, false) else (kept[a.key := a.now], true)
  }

  // ---------- the program ----------

  class Dedupe {
    var spokenEvents: map<string, int>

    constructor ()
      ensures spokenEvents == map[]
    {
      spokenEvents := map[];
    }

    method Prune(now: int)
      modifies this
      ensures spokenEvents == Pruned(old(spokenEvents), now)
    {
      var entries := spokenEvents.Keys;
      while entries != {}
        invariant entries <= spokenEvents.Keys <= old(spokenEvents).Keys
        invariant forall k :: k in spokenEvents ==> spokenEvents[k] == old(spokenEvents)[k]
        invariant forall k :: k in old(spokenEvents) && k !in entries ==>
                    (k in spokenEvents <==> now - old(spokenEvents)[k] <= WINDOW)
        decreases |entries|
      {
        var key :| key in entries;
        entries := entries - {key};
        if now - spokenEvents[key] > WINDOW {
          spokenEvents := spokenEvents - {key};
        }
      }
    }

    method Claim(e: Event, booking: string, fingerprint: Option<string>, now: int) returns (granted: bool)
      modifies this
      ensures (spokenEvents, granted) == Step(old(spokenEvents), Attempt(KeyFor(e, booking, fingerprint), now))
    {
      Prune(now);
      var key := KeyFor(e, booking, fingerprint);
      if key in spokenEvents {
        return false;
      }
      spokenEvents := spokenEvents[key := now];
      return true;
    }
  }

  // ---------- whole histories ----------

  /** What is left in the map after these claims. */
  function MapAfter(history: seq<Attempt>): map<string, int> {
    if history == [] then map[] else
    Step(MapAfter(history[..|history| - 1]), history[|history| - 1]).0
  }

  /** The answer the i-th claim got. */
  predicate Granted(history: seq<Attempt>, i: nat)
    requires i < |history|
  {
    Step(MapAfter(history[..i]), history[i]).1
  }

  /** Claim j still stands at claim i: no claim up to i came more than five minutes after it. */
  predicate Stands(history: seq<Attempt>, j: nat, i: nat)
    requires j <= i < |history|
  {
    forall l | j < l <= i :: history[l].now - history[j].now <= 300_000
  }

  lemma StepCases(spoken: map<string, int>, a: Attempt, k: string, t: int)
    ensures var next := Step(spoken, a).0;
            (k in next && next[k] == t) <==>
            if k == a.key && Step(spoken, a).1 then t == a.now
            else k in spoken && spoken[k] == t && a.now - t <= WINDOW
  {
  }

  /** Claim j granted k at t and still stands at the last claim. */
  ghost predicate StandingGrant(history: seq<Attempt>, k: string, t: int, j: nat) {
    j < |history| && history[j] == Attempt(k, t) && Granted(history, j) && Stands(history, j, |history| - 1)
  }

  lemma StandsOneMore(history: seq<Attempt>, k: string, t: int, j: nat)
    requires j + 1 < |history|
    ensures var i := |history| - 1;
            StandingGrant(history, k, t, j) <==> StandingGrant(history[..i], k, t, j) && history[i].now - t <= WINDOW
  {
    hide Step;
    hide MapAfter;
    var i := |history| - 1;
    var before := history[..i];
    assert before[..j] == history[..j] && before[j] == history[j];
    assert forall l | j < l < i :: before[l] == history[l];
    if history[j] == Attempt(k, t) {
      assert Stands(history, j, i) <==> Stands(before, j, i - 1) && history[i].now - t <= WINDOW;
    }
  }

  lemma GrantMeansAbsent(m: map<string, int>, a: Attempt, t: int)
    requires Step(m, a).1
    ensures !(a.key in m && m[a.key] == t && a.now - t <= WINDOW)
  {
  }

  /** The map holds exactly the granted claims that still stand. */
  lemma {:induction false} MapIsWhatStands(history: seq<Attempt>, k: string, t: int)
    ensures var m := MapAfter(history); (k in m && m[k] == t) <==> exists j: nat :: StandingGrant(history, k, t, j)
  {
    if history != [] {
      var i := |history| - 1;
      var before, last := history[..i], history[i];
      var m := MapAfter(before);
      StepCases(m, last, k, t);
      MapIsWhatStands(before, k, t);
      hide MapAfter;
      hide Step;
      forall j: nat | j < i
        ensures StandingGrant(history, k, t, j) <==> StandingGrant(before, k, t, j) && last.now - t <= WINDOW
      {
        StandsOneMore(history, k, t, j);
      }
      assert StandingGrant(history, k, t, i) <==> last == Attempt(k, t) && Granted(history, i);
      if k == last.key && Granted(history, i) {
        GrantMeansAbsent(m, last, t);
      }
    }
  }

  ghost predicate Blocks(history: seq<Attempt>, i: nat, j: nat)
    requires j < i < |history|
  {
    var a := history[i];
    StandingGrant(history[..i], a.key, history[j].now, j) && a.now - history[j].now <= WINDOW
  }

  /** For any clock: refused exactly when an earlier grant of the same key has stood ever since. */
  lemma GrantedIff(history: seq<Attempt>, i: nat)
    requires i < |history|
    ensures Granted(history, i) <==>
            !exists j :: 0 <= j < i && history[j].key == history[i].key && Granted(history, j) && Stands(history, j, i)
  {
    var upTo := history[..i + 1];
    var before, a := upTo[..i], upTo[i];
    assert before == history[..i];
    var m := MapAfter(before);
    forall j | 0 <= j < i
      ensures (history[j].key == a.key && Granted(history, j) && Stands(history, j, i)) <==> Blocks(history, i, j)
    {
      StandsOneMore(upTo, a.key, history[j].now, j);
      assert upTo[..j] == history[..j];
      assert Stands(upTo, j, i) <==> Stands(history, j, i);
    }
    if !Granted(history, i) {
      MapIsWhatStands(before, a.key, m[a.key]);
      var j :| StandingGrant(before, a.key, m[a.key], j);
      assert Blocks(history, i, j);
    }
    if j :| 0 <= j < i && Blocks(history, i, j) {
      MapIsWhatStands(before, a.key, history[j].now);
    }
  }

  ghost predicate Forward(history: seq<Attempt>) {
    forall i, j | 0 <= i <= j < |history| :: history[i].now <= history[j].now
  }

  /** For a clock that never goes back, the pruned map answers as the whole history would. */
  lemma AnswersAsTheFullHistory(history: seq<Attempt>, i: nat)
    requires Forward(history) && i < |history|
    ensures Granted(history, i) <==>
            !exists j :: 0 <= j < i && history[j].key == history[i].key && Granted(history, j) &&
                         history[i].now - history[j].now <= WINDOW
  {
    GrantedIff(history, i);
    forall j | 0 <= j < i ensures Stands(history, j, i) <==> history[i].now - history[j].now <= WINDOW {
      if history[i].now - history[j].now <= WINDOW {
        forall l | j < l <= i ensures history[l].now - history[j].now <= WINDOW {}
      }
    }
  }

  /** A clock stepping back shows the pruning: the repeat at 1 is spoken again. */
  lemma ClockGoingBackForgets()
    ensures var h := [Attempt("a", 0), Attempt("b", WINDOW + 1), Attempt("a", 1)];
            Granted(h, 0) && Granted(h, 2) && h[2].now - h[0].now <= WINDOW
  {
    var h := [Attempt("a", 0), Attempt("b", WINDOW + 1), Attempt("a", 1)];
    var x, y := h[..1], h[..2];
    assert x[..0] == [] && MapAfter(x) == map["a" := 0];
    assert y[..1] == x && MapAfter(y) == map["b" := WINDOW + 1];
  }

  // ---------- keys ----------

  lemma FirstColon(a: string, x: string, b: string, y: string)
    requires ':' !in a && ':' !in b && a + ":" + x == b + ":" + y
    ensures a == b && x == y
  {
    var s := a + ":" + x;
    assert s[|a|] == ':' && (b + ":" + y)[|b|] == ':';
    assert forall k | 0 <= k < |a| :: s[k] == a[k];
    assert forall k | 0 <= k < |b| :: (b + ":" + y)[k] == b[k];
    assert a == s[..|a|] && b == s[..|b|];
    assert x == s[|a| + 1..] && y == s[|b| + 1..];
  }

  lemma NamesDiffer(e: Event, e': Event)
    ensures EventName(e) == EventName(e') <==> e == e'
  {
    assert |EventName(Created)| == 15 && |EventName(Rescheduled)| == 19 && |EventName(Cancelled)| == 17;
  }

  lemma KeyIsNameAndRest(e: Event, b: string, f: Option<string>)
    ensures KeyFor(e, b, f) == EventName(e) + ":" + (b + ":" + Print(f))
  {
    hide EventName, Print;
  }

  lemma SplitKey(e: Event, e': Event, b: string, b': string, f: Option<string>, f': Option<string>)
    ensures KeyFor(e, b, f) == KeyFor(e', b', f') <==> e == e' && b + ":" + Print(f) == b' + ":" + Print(f')
  {
    hide *;
    var rest, rest' := b + ":" + Print(f), b' + ":" + Print(f');
    KeyIsNameAndRest(e, b, f);
    KeyIsNameAndRest(e', b', f');
    NamesDiffer(e, e');
    if KeyFor(e, b, f) == KeyFor(e', b', f') {
      FirstColon(EventName(e), rest, EventName(e'), rest');
    }
  }

  /** Without a colon in the booking ids a key names its event, booking and fingerprint. */
  lemma KeysAreDistinct(e: Event, e': Event, b: string, b': string, f: Option<string>, f': Option<string>)
    requires ':' !in b && ':' !in b'
    ensures KeyFor(e, b, f) == KeyFor(e', b', f') <==> e == e' && b == b' && Print(f) == Print(f')
  {
    SplitKey(e, e', b, b', f, f');
    if b + ":" + Print(f) == b' + ":" + Print(f') { FirstColon(b, Print(f), b', Print(f')); }
  }

  lemma LongerStartsWithShorter(b: string, x: string, b': string, y: string)
    requires b != b' && b + ":" + x == b' + ":" + y
    ensures b + ":" <= b' || b' + ":" <= b
  {
    var s := b + ":" + x;
    assert b == s[..|b|] && b' == s[..|b'|] && b + ":" == s[..|b| + 1];
    assert b' + ":" == (b' + ":" + y)[..|b'| + 1] == s[..|b'| + 1];
  }

  lemma Confuse(e: Event, b: string, b': string)
    requires b + ":" <= b'
    ensures KeyFor(e, b, Some(b'[|b| + 1..] + ":")) == KeyFor(e, b', None)
  {
    var f := Some(b'[|b| + 1..] + ":");
    assert b' == b + ":" + b'[|b| + 1..];
    assert b + ":" + Print(f) == b' + ":" + Print(None);
    SplitKey(e, e, b, b', f, None);
  }

  /** Exactly which two bookings can ever be mistaken for each other. */
  lemma BookingsConfusedIff(e: Event, b: string, b': string)
    requires b != b'
    ensures (exists f, f' :: KeyFor(e, b, f) == KeyFor(e, b', f')) <==> b + ":" <= b' || b' + ":" <= b
  {
    hide KeyFor;
    if f, f' :| KeyFor(e, b, f) == KeyFor(e, b', f') {
      SplitKey(e, e, b, b', f, f');
      LongerStartsWithShorter(b, Print(f), b', Print(f'));
    }
    if b + ":" <= b' { Confuse(e, b, b'); }
    if b' + ":" <= b { Confuse(e, b', b); }
  }
}
