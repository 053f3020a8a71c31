/**
 The shared state of voice-announce.ts, the cached voice list and the throttled warning, and the walk of
 one Hindi announcement through its candidates.  Announcements interleave freely: each awaits the list.
 */
module VoiceAnnounce {
  import opened Wrappers
  import opened VoiceRanking

  const THROTTLE := 5 * 60_000

  /** promised: cachedVoicesPromise is not null. */
  datatype State = State(cached: Option<seq<Voice>>, promised: bool, hadHindi: bool, lastMissing: int)

  const FRESH := State(None, false, false, 0)

  predicate HasHindi(voices: seq<Voice>) {
    exists i | 0 <= i < |voices| :: InFamily(voices[i].language, "hi")
  }

  predicate RecheckDue(s: State, now: int) {
    now - s.lastMissing >= THROTTLE
  }

  function Refreshed(s: State, now: int): State {
    if s.cached.Some? && !s.hadHindi && RecheckDue(s, now) then s.(cached := None, promised := false) else s
  }

  /** Reaching the voice list: the new state and whether the device is queried. */
  function Begun(s: State, now: int, hindi: bool): (State, bool) {
    var seen := if hindi then Refreshed(s, now) else s;
    if seen.cached.None? && !seen.promised then (seen.(promised := true), true) else (seen, false)
  }

  function Listed(s: State, voices: seq<Voice>): State {
    s.(cached := Some(voices), hadHindi := HasHindi(voices))
  }

  function QueryFailed(s: State): State {
    s.(promised := false)
  }

  /** Recording a missing voice: the new state and whether the owner is warned. */
  function Missed(s: State, now: int): (State, bool) {
    if RecheckDue(s, now) then (s.(lastMissing := now), true) else (s, false)
  }

  // ---------- the program ----------

  /** One Hindi announcement: spoken lists the voices it asked the engine to use. */
  class HindiWalk {
    const candidates: seq<Voice>
    var candidateIndex: nat
    var spoken: seq<Voice>

    /** After the first attempt and this many error callbacks. */
    ghost predicate Tried(errors: nat)
      reads this
    {
      candidateIndex == errors && spoken == candidates[..if errors < |candidates| then errors + 1 else |candidates|]
    }

    constructor (candidates: seq<Voice>)
      requires candidates != []
      ensures this.candidates == candidates && Tried(0)
    {
      this.candidates, candidateIndex, spoken := candidates, 0, [];
      new;
      Attempt();
    }

    method Attempt()
      requires candidateIndex < |candidates|
      modifies this`spoken
      ensures spoken == old(spoken) + [candidates[candidateIndex]]
    {
      spoken := spoken + [candidates[candidateIndex]];
    }

    /** The engine's error callback, which may fire any number of times. */
    method OnError(ghost errors: nat) returns (exhausted: bool)
      requires Tried(errors)
      modifies this
      ensures Tried(errors + 1) && exhausted == (errors + 1 >= |candidates|)
    {
      candidateIndex := candidateIndex + 1;
      exhausted := candidateIndex >= |candidates|;
      if !exhausted {
        Attempt();
      }
    }
  }

  class Announcer {
    var cachedVoices: Option<seq<Voice>>
    var cachedVoicesPromise: bool
    var cachedVoicesHadHindi: bool
    var lastHindiVoiceMissingAt: int

    constructor ()
      ensures Snapshot() == FRESH
    {
      cachedVoices, cachedVoicesPromise, cachedVoicesHadHindi, lastHindiVoiceMissingAt := None, false, false, 0;
    }

    ghost function Snapshot(): State
      reads this
    {
      State(cachedVoices, cachedVoicesPromise, cachedVoicesHadHindi, lastHindiVoiceMissingAt)
    }

    method MaybeRefreshStaleNegativeCache(now: int)
      modifies this
      ensures Snapshot() == Refreshed(old(Snapshot()), now)
    {
      if cachedVoices.Some? && !cachedVoicesHadHindi && now - lastHindiVoiceMissingAt >= THROTTLE {
        cachedVoices := None;
        cachedVoicesPromise := false;
      }
    }

    /** The list if it is known; otherwise the caller awaits the one query. */
    method Begin(now: int, hindi: bool) returns (known: Option<seq<Voice>>, query: bool)
      modifies this
      ensures (Snapshot(), query) == Begun(old(Snapshot()), now, hindi) && known == cachedVoices
    {
      if hindi {
        MaybeRefreshStaleNegativeCache(now);
      }
      if cachedVoices.Some? {
        return cachedVoices, false;
      }
      query := !cachedVoicesPromise;
      cachedVoicesPromise := true;
      known := None;
    }

    method VoicesArrived(voices: seq<Voice>)
      modifies this
      ensures Snapshot() == Listed(old(Snapshot()), voices)
    {
      cachedVoices := Some(voices);
      cachedVoicesHadHindi := false;
      for i := 0 to |voices|
        invariant Snapshot() == old(Snapshot()).(cached := Some(voices), hadHindi := HasHindi(voices[..i]))
      {
        assert voices[..i + 1] == voices[..i] + [voices[i]];
        assert forall j | 0 <= j < i :: voices[..i][j] == voices[..i + 1][j];
        assert voices[..i + 1][i] == voices[i];
        if InFamily(voices[i].language, "hi") {
          cachedVoicesHadHindi := true;
        }
      }
      assert voices[..|voices|] == voices;
    }

    method VoicesFailed()
      modifies this
      ensures Snapshot() == QueryFailed(old(Snapshot()))
    {
      cachedVoicesPromise := false;
    }

    method RecordHindiVoiceMissing(now: int) returns (warned: bool)
      modifies this
      ensures (Snapshot(), warned) == Missed(old(Snapshot()), now)
    {
      if now - lastHindiVoiceMissingAt < THROTTLE {
        return false;
      }
      lastHindiVoiceMissingAt := now;
      return true;
    }

    /** A Hindi announcement begun at now, once it has the list; fails says which attempts end in an error. */
    method SpeakHindi(voices: seq<Voice>, requested: string, chosen: Option<string>, now: int, fails: nat -> bool)
      returns (spoken: seq<Voice>, warned: bool)
      modifies this
      ensures var candidates := Preferred(Voices(Candidates(voices, requested)), chosen);
              var n := |spoken|;
              n <= |candidates| && spoken == candidates[..n] && (forall i | 0 <= i < n - 1 :: fails(i)) &&
              if n == 0 || fails(n - 1)
              then n == |candidates| && (Snapshot(), warned) == Missed(old(Snapshot()), now)
              else Snapshot() == old(Snapshot()) && !warned
    {
      var candidates := RankedCandidates(voices, requested);
      candidates := Preferred(candidates, chosen);
      if candidates == [] {
        warned := RecordHindiVoiceMissing(now);
        return [], warned;
      }
      var walk := new HindiWalk(candidates);
      var errors := 0;
      var exhausted := false;
      while !exhausted && fails(errors)
        invariant fresh(walk) && walk.candidates == candidates && walk.Tried(errors)
        invariant forall i | 0 <= i < errors :: fails(i)
        invariant exhausted == (errors >= |candidates|) && errors <= |candidates|
        invariant Snapshot() == old(Snapshot())
        decreases |candidates| - errors
      {
        exhausted := walk.OnError(errors);
        errors := errors + 1;
      }
      spoken, warned := walk.spoken, false;
      if exhausted {
        warned := RecordHindiVoiceMissing(now);
      }
    }
  }

  lemma Twice<T>(s: seq<T>, i: nat, j: nat)
    requires i < j < |s| && s[i] == s[j]
    ensures multiset(s)[s[i]] >= 2
  {
    assert s == s[..i] + [s[i]] + s[i + 1..j] + [s[j]] + s[j + 1..];
  }

  lemma Once<T>(s: seq<T>, p: nat)
    requires p < |s| && forall i, j | 0 <= i < j < |s| :: s[i] != s[j]
    ensures multiset(s)[s[p]] == 1
  {
    assert s == s[..p] + [s[p]] + s[p + 1..];
    assert s[p] !in s[..p] && s[p] !in s[p + 1..];
  }

  lemma PermutedKeys(vs: seq<Voice>, c: seq<Voice>)
    requires multiset(c) == multiset(vs)
    requires forall i, j | 0 <= i < j < |vs| :: KeyOf(vs[i]) != KeyOf(vs[j])
    ensures forall i, j | 0 <= i < j < |c| :: KeyOf(c[i]) != KeyOf(c[j])
  {
    hide KeyOf;
    forall i, j | 0 <= i < j < |c| ensures KeyOf(c[i]) != KeyOf(c[j]) {
      assert c[i] in multiset(c) && c[j] in multiset(c);
      var p :| 0 <= p < |vs| && vs[p] == c[i];
      var q :| 0 <= q < |vs| && vs[q] == c[j];
      if p == q {
        Twice(c, i, j);
        Once(vs, p);
      }
    }
  }

  /** Only family voices are ever spoken with, each at most once and no two of the same key. */
  lemma SpokenAreFamily(voices: seq<Voice>, requested: string, chosen: Option<string>)
    ensures var c := Preferred(Voices(Candidates(voices, requested)), chosen);
            (forall v :: v in c ==> v in voices && InFamily(v.language, PrimarySubtag(requested))) &&
            forall i, j | 0 <= i < j < |c| :: KeyOf(c[i]) != KeyOf(c[j])
  {
    CandidatesExact(voices, requested);
    var es := Candidates(voices, requested);
    var vs := Voices(es);
    hide Candidates;
    forall i, j | 0 <= i < j < |vs| ensures KeyOf(vs[i]) != KeyOf(vs[j]) {
      assert Before(es[i], es[j]) && es[i] in es && es[j] in es;
    }
    forall v | v in vs ensures v in voices && InFamily(v.language, PrimarySubtag(requested)) {
      var i :| 0 <= i < |vs| && vs[i] == v;
      assert es[i] in es;
    }
    PreferredPermutes(vs, chosen);
    var c := Preferred(vs, chosen);
    hide Preferred;
    forall v | v in c ensures v in vs { assert v in multiset(c); }
    PermutedKeys(vs, c);
  }

  // ---------- whole histories ----------

  /** A missing voice is recorded under the time its announcement began, when the list or the last error
      arrives: later, by any delay. */
  datatype Event =
    | Begin(now: int, hindi: bool)
    | Arrive(voices: seq<Voice>)
    | Fail
    | Missing(stamp: int, at: int)

  /** The owner is warned at one time and the warning is remembered under another. */
  datatype Warning = Warning(stamp: int, at: int)

  /** outstanding: device queries not answered yet. */
  datatype Run = Run(state: State, outstanding: nat, warnings: seq<Warning>)

  /** An answer without a query cannot happen and changes nothing. */
  function RunStep(r: Run, e: Event): Run {
    match e
    case Begin(now, hindi) =>
      var (s, query) := Begun(r.state, now, hindi);
      Run(s, r.outstanding + if query then 1 else 0, r.warnings)
    case Arrive(voices) =>
      if r.outstanding == 0 then r else Run(Listed(r.state, voices), r.outstanding - 1, r.warnings)
    case Fail =>
      if r.outstanding == 0 then r else Run(QueryFailed(r.state), r.outstanding - 1, r.warnings)
    case Missing(stamp, at) =>
      var (s, warned) := Missed(r.state, stamp);
      Run(s, r.outstanding, r.warnings + if warned then [Warning(stamp, at)] else [])
  }

  function RunFrom(r: Run, events: seq<Event>): Run
    decreases |events|
  {
    if events == [] then r else RunFrom(RunStep(r, events[0]), events[1..])
  }

  /** At most one query is in flight, exactly while it is promised and unanswered; the Hindi flag tells the
      truth about the cached list; warnings are stamped at least the throttle apart and the last stamp is
      remembered. */
  ghost predicate Sound(r: Run) {
    var s := r.state;
    && r.outstanding == (if s.promised && s.cached.None? then 1 else 0)
    && s.hadHindi == (s.cached.Some? && HasHindi(s.cached.value))
    && (forall i | 0 <= i < |r.warnings| - 1 :: r.warnings[i + 1].stamp - r.warnings[i].stamp >= THROTTLE)
    && s.lastMissing == (if r.warnings == [] then 0 else r.warnings[|r.warnings| - 1].stamp)
  }

  lemma SoundStep(r: Run, e: Event)
    requires Sound(r)
    ensures Sound(RunStep(r, e)) && r.warnings <= RunStep(r, e).warnings
  {
    hide HasHindi;
  }

  lemma {:induction false} RunsKeepSound(r: Run, events: seq<Event>)
    requires Sound(r)
    ensures Sound(RunFrom(r, events)) && r.warnings <= RunFrom(r, events).warnings
    decreases |events|
  {
    hide HasHindi, RunStep, Sound;
    if events != [] {
      SoundStep(r, events[0]);
      RunsKeepSound(RunStep(r, events[0]), events[1..]);
    }
  }

  lemma EveryRun(events: seq<Event>)
    ensures Sound(RunFrom(Run(FRESH, 0, []), events))
  {
    RunsKeepSound(Run(FRESH, 0, []), events);
  }

  /** The stamps of any two warnings of any run are the throttle apart. */
  lemma {:induction false} StampsApart(r: Run, i: nat, j: nat)
    requires Sound(r) && i < j < |r.warnings|
    ensures r.warnings[j].stamp - r.warnings[i].stamp >= (j - i) * THROTTLE
  {
    if i + 1 < j { StampsApart(r, i, j - 1); }
    assert r.warnings[j - 1 + 1].stamp - r.warnings[j - 1].stamp >= THROTTLE;
  }

  /** Exactly when a missing voice warns the owner: five minutes after the stamp of every warning before, and
      after the start of time for the first. */
  lemma WarnsIff(r: Run, stamp: int, at: int)
    requires Sound(r)
    ensures var ws := RunStep(r, Missing(stamp, at)).warnings;
            if (r.warnings == [] ==> stamp >= 300_000) && forall w :: w in r.warnings ==> stamp - w.stamp >= 300_000
            then ws == r.warnings + [Warning(stamp, at)] else ws == r.warnings
  {
    if r.warnings != [] {
      var n := |r.warnings|;
      assert r.warnings[n - 1] in r.warnings;
      forall w | w in r.warnings ensures w.stamp <= r.warnings[n - 1].stamp {
        var i :| 0 <= i < n && r.warnings[i] == w;
        if i < n - 1 { StampsApart(r, i, n - 1); }
      }
    }
  }

  /** Recorded at or after its stamp, and in the order of time. */
  ghost predicate InTime(events: seq<Event>) {
    && (forall i | 0 <= i < |events| :: events[i].Missing? ==> events[i].stamp <= events[i].at)
    && (forall i, j | 0 <= i < j < |events| ::
          events[i].Missing? && events[j].Missing? ==> events[i].at <= events[j].at)
  }

  ghost predicate TimeOrdered(ws: seq<Warning>) {
    && (forall i | 0 <= i < |ws| :: ws[i].stamp <= ws[i].at)
    && (forall i, j | 0 <= i < j < |ws| :: ws[i].at <= ws[j].at)
  }

  /** The events come at or after the warnings. */
  ghost predicate NoEarlier(ws: seq<Warning>, events: seq<Event>) {
    forall i, j | 0 <= i < |ws| && 0 <= j < |events| :: events[j].Missing? ==> ws[i].at <= events[j].at
  }

  lemma NextInTime(r: Run, events: seq<Event>)
    requires events != [] && InTime(events) && TimeOrdered(r.warnings) && NoEarlier(r.warnings, events)
    ensures var ws := RunStep(r, events[0]).warnings;
            InTime(events[1..]) && TimeOrdered(ws) && NoEarlier(ws, events[1..])
  {
    hide Begun, HasHindi;
    var ws := RunStep(r, events[0]).warnings;
    assert ws == r.warnings || (events[0].Missing? && ws == r.warnings + [Warning(events[0].stamp, events[0].at)]);
    hide RunStep;
    assert forall i | 0 <= i < |events[1..]| :: events[1..][i] == events[i + 1];
  }

  lemma {:induction false} WarnedInTime(r: Run, events: seq<Event>)
    requires InTime(events) && TimeOrdered(r.warnings) && NoEarlier(r.warnings, events)
    ensures TimeOrdered(RunFrom(r, events).warnings)
    decreases |events|
  {
    hide InTime, TimeOrdered, NoEarlier, RunStep;
    if events != [] {
      NextInTime(r, events);
      WarnedInTime(RunStep(r, events[0]), events[1..]);
    }
  }

  /** The warnings themselves: two in a row are the throttle apart less the delay of the earlier one, and
      never in reverse. */
  lemma WarningsApart(events: seq<Event>, i: nat)
    requires InTime(events)
    requires i + 1 < |RunFrom(Run(FRESH, 0, []), events).warnings|
    ensures var ws := RunFrom(Run(FRESH, 0, []), events).warnings;
            var delay := ws[i].at - ws[i].stamp;
            delay >= 0 && ws[i + 1].at - ws[i].at >= THROTTLE - delay && ws[i + 1].at >= ws[i].at
  {
    EveryRun(events);
    WarnedInTime(Run(FRESH, 0, []), events);
    var r := RunFrom(Run(FRESH, 0, []), events);
    hide RunFrom;
    StampsApart(r, i, i + 1);
  }

  lemma ThreeSteps(r: Run, a: Event, b: Event, c: Event, more: seq<Event>)
    ensures RunFrom(r, [a, b, c] + more) == RunFrom(RunStep(RunStep(RunStep(r, a), b), c), more)
  {
    hide RunStep;
    assert ([a, b, c] + more)[1..] == [b, c] + more;
    assert ([b, c] + more)[1..] == [c] + more;
    assert ([c] + more)[1..] == more;
    assert RunFrom(r, [a, b, c] + more) == RunFrom(RunStep(r, a), [b, c] + more);
  }

  /** An announcement whose list arrives late by the delay, and the next one, begun a throttle after it. */
  function LateThenPrompt(delay: int): seq<Event> {
    [Begin(THROTTLE, true), Arrive([]), Missing(THROTTLE, THROTTLE + delay)] +
    [Begin(2 * THROTTLE, true), Arrive([]), Missing(2 * THROTTLE, 2 * THROTTLE)]
  }

  lemma LateThenPromptInTime(delay: int)
    requires 0 <= delay <= THROTTLE
    ensures InTime(LateThenPrompt(delay))
  {
  }

  /** No better bound holds: for every delay up to the throttle these two warn that much closer, at last at
      the same moment. */
  lemma DelayBringsWarningsCloser(delay: int)
    requires 0 <= delay <= THROTTLE
    ensures InTime(LateThenPrompt(delay))
    ensures RunFrom(Run(FRESH, 0, []), LateThenPrompt(delay)).warnings ==
            [Warning(THROTTLE, THROTTLE + delay), Warning(2 * THROTTLE, 2 * THROTTLE)]
  {
    LateThenPromptInTime(delay);
    hide InTime;
    var t := THROTTLE;
    var first := [Begin(t, true), Arrive([]), Missing(t, t + delay)];
    var second := [Begin(2 * t, true), Arrive([]), Missing(2 * t, 2 * t)];
    var r0 := Run(FRESH, 0, []);
    var r3 := RunStep(RunStep(RunStep(r0, first[0]), first[1]), first[2]);
    var r6 := RunStep(RunStep(RunStep(r3, second[0]), second[1]), second[2]);
    assert r3 == Run(State(Some([]), true, false, t), 0, [Warning(t, t + delay)]);
    assert r6.warnings == [Warning(t, t + delay), Warning(2 * t, 2 * t)];
    ThreeSteps(r0, first[0], first[1], first[2], second);
    ThreeSteps(r3, second[0], second[1], second[2], []);
    assert second + [] == second;
    assert [second[0], second[1], second[2]] == second && [first[0], first[1], first[2]] == first;
  }

  /** Exactly when an announcement queries the device. */
  lemma QueriesIff(r: Run, now: int, hindi: bool)
    requires Sound(r)
    ensures RunStep(r, Begin(now, hindi)).outstanding > r.outstanding <==>
              match r.state.cached
              case None => r.outstanding == 0
              case Some(voices) => hindi && !HasHindi(voices) && now - r.state.lastMissing >= THROTTLE
  {
    hide HasHindi;
  }

  lemma PositiveStep(r: Run, e: Event)
    requires Sound(r) && r.state.cached.Some? && r.state.hadHindi
    ensures RunStep(r, e).state.cached == r.state.cached && RunStep(r, e).state.hadHindi
    ensures RunStep(r, e).outstanding == 0
  {
    hide HasHindi;
  }

  /** A list with a Hindi voice is kept for good, and the device is never asked again. */
  lemma {:induction false} PositiveIsKept(r: Run, events: seq<Event>)
    requires Sound(r) && r.state.cached.Some? && HasHindi(r.state.cached.value)
    ensures RunFrom(r, events).state.cached == r.state.cached && RunFrom(r, events).outstanding == 0
    decreases |events|
  {
    assert r.state.hadHindi && r.outstanding == 0;
    if events != [] {
      hide HasHindi, RunStep, Sound;
      PositiveStep(r, events[0]);
      SoundStep(r, events[0]);
      var next := RunStep(r, events[0]);
      assert next.state.cached == r.state.cached;
      PositiveIsKept(next, events[1..]);
    }
  }

  /** The flag and the ranking agree: a list without the flag is one no Hindi announcement can use. */
  lemma NegativeMeansSilence(voices: seq<Voice>, requested: string)
    requires PrimarySubtag(requested) == "hi"
    ensures HasHindi(voices) <==> Candidates(voices, requested) != []
  {
    CandidatesExact(voices, requested);
    var r := Candidates(voices, requested);
    if r != [] { assert r[0] in r; }
    hide Candidates;
    if HasHindi(voices) {
      var i :| 0 <= i < |voices| && InFamily(voices[i].language, "hi");
      OnePerKey(voices, requested, i);
    }
  }

  /** Recovery: once the throttle has passed since a list without Hindi was warned about, the next Hindi
      announcement asks again, and a list with Hindi then gives it candidates. */
  lemma RecoversAfterInstall(r: Run, now: int, voices: seq<Voice>, requested: string)
    requires Sound(r) && r.state.cached.Some? && !HasHindi(r.state.cached.value)
    requires now - r.state.lastMissing >= THROTTLE && HasHindi(voices) && PrimarySubtag(requested) == "hi"
    ensures var asked := RunStep(r, Begin(now, true));
            var told := RunStep(asked, Arrive(voices));
            asked.outstanding == 1 && told.state.cached == Some(voices) && told.state.hadHindi &&
            Candidates(voices, requested) != []
  {
    NegativeMeansSilence(voices, requested);
    hide HasHindi;
    hide Candidates;
  }
}
