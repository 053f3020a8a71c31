/**
 Exactly when the API client sends a refresh token again after its successful exchange was received.
 Saves may fail and anything may interleave.
 */
module TokenReuse {
  import opened Wrappers
  import opened ApiClient

  // ---------- in terms of the state ----------

  /** The stored token was already exchanged. */
  ghost predicate Stale(s: State) {
    s.stored.Some? && Spent(s.log, s.stored.value)
  }

  ghost predicate ReadsSpent(s: State, es: seq<Event>)
    requires Runs(s, es)
    decreases |es|
  {
    es != [] &&
    ((es[0].TokenRead? && es[0].ok && Stale(s)) || ReadsSpent(Step(s, es[0]), es[1..]))
  }

  lemma {:induction false} LogGrows(s: State, es: seq<Event>)
    requires Runs(s, es)
    ensures s.log <= After(s, es).log
    decreases |es|
  {
    if es != [] {
      LogGrows(Step(s, es[0]), es[1..]);
      assert s.log <= Step(s, es[0]).log;
    }
  }

  lemma ReuseStays(log: seq<Traffic>, longer: seq<Traffic>)
    requires log <= longer && !NoReuse(log)
    ensures !NoReuse(longer)
  {
    var i, j, t :| 0 <= i < j < |log| && log[i] == ReceivedExchange(t) && log[j] == SentToken(t);
    assert longer[i] == ReceivedExchange(t) && longer[j] == SentToken(t);
  }

  lemma StepReuses(s: State, e: Event)
    requires NoReuse(s.log) && Enabled(s, e)
    ensures NoReuse(Step(s, e).log) <==> !(e.TokenRead? && e.ok && Stale(s))
  {
    var log := Step(s, e).log;
    if e.TokenRead? && e.ok && s.stored.Some? {
      var t := s.stored.value;
      assert log == s.log + [SentToken(t)];
      if Spent(s.log, t) {
        var i :| 0 <= i < |s.log| && s.log[i] == ReceivedExchange(t);
        assert log[i] == ReceivedExchange(t) && log[|s.log|] == SentToken(t);
      } else {
        forall i, j, u | 0 <= i < j < |log| && log[i] == ReceivedExchange(u) ensures log[j] != SentToken(u) {
          assert s.log[i] == ReceivedExchange(u);
        }
      }
    } else if e.Granted? {
      assert forall i | 0 <= i < |s.log| :: log[i] == s.log[i];
    }
  }

  /** Whatever servers and other writers do: a token is reused exactly when some refresh reads a stored
      token that was already exchanged. */
  lemma {:induction false} ReuseIsReadingSpent(s: State, es: seq<Event>)
    requires Runs(s, es) && NoReuse(s.log)
    ensures NoReuse(After(s, es).log) <==> !ReadsSpent(s, es)
    decreases |es|
  {
    if es != [] {
      var s' := Step(s, es[0]);
      StepReuses(s, es[0]);
      hide Step;
      hide NoReuse;
      if NoReuse(s'.log) {
        ReuseIsReadingSpent(s', es[1..]);
      } else {
        LogGrows(s', es[1..]);
        ReuseStays(s'.log, After(s, es).log);
      }
    }
  }

  // ---------- in terms of the events ----------

  /** The server rotates to tokens not exchanged yet, and a login stores a token never used before. */
  ghost predicate Honest(s: State, e: Event)
    requires Enabled(s, e)
  {
    match e
    case Granted(f, _, rotated) => rotated != s.refreshes[f].sent && !Spent(s.log, rotated)
    case SetStored(token) => token.Some? ==> !Spent(s.log, token.value) && SentToken(token.value) !in s.log
    case _ => true
  }

  ghost predicate HonestRun(s: State, es: seq<Event>)
    requires Runs(s, es)
    decreases |es|
  {
    es == [] || (Honest(s, es[0]) && HonestRun(Step(s, es[0]), es[1..]))
  }

  /** Event h reads the token of refresh f, and nothing outside the refreshes wrote a token since. */
  ghost predicate ReadAt(es: seq<Event>, f: nat, h: nat) {
    h < |es| && es[h] == TokenRead(f, true) && forall k | h < k < |es| :: !es[k].SetStored?
  }

  ghost predicate LiveRead(es: seq<Event>, f: nat) {
    exists h: nat :: ReadAt(es, f, h)
  }

  ghost function Live(es: seq<Event>): iset<nat> {
    iset f: nat | LiveRead(es, f)
  }

  /** The save of the refresh that read at h failed at i, and nothing else wrote a token since h. */
  ghost predicate FailedAt(es: seq<Event>, h: nat, i: nat) {
    h < i < |es| && es[i].Saved? && !es[i].ok && ReadAt(es, es[i].flight, h)
  }

  ghost predicate SaveFailed(es: seq<Event>) {
    exists h: nat, i: nat :: FailedAt(es, h, i)
  }

  /** A refresh reads the store at h, its save fails at i, a later refresh reads the store at j, and no
      one else writes a token between the two reads. */
  ghost predicate PatternAt(es: seq<Event>, h: nat, i: nat, j: nat) {
    && h < i < j < |es|
    && es[i].Saved? && !es[i].ok && es[h] == TokenRead(es[i].flight, true)
    && es[j].TokenRead? && es[j].ok
    && forall k | h < k < j :: !es[k].SetStored?
  }

  ghost predicate Repeats(es: seq<Event>) {
    exists h: nat, i: nat, j: nat :: PatternAt(es, h, i, j)
  }

  lemma ReadStep(es: seq<Event>, e: Event, f: nat)
    ensures LiveRead(es + [e], f) <==> e == TokenRead(f, true) || (!e.SetStored? && LiveRead(es, f))
  {
    var more := es + [e];
    assert forall k | 0 <= k < |es| :: more[k] == es[k];
    assert e == TokenRead(f, true) ==> ReadAt(more, f, |es|);
    if h: nat :| ReadAt(more, f, h) {
      if h < |es| { assert ReadAt(es, f, h) && !more[|es|].SetStored?; }
    }
    if h: nat :| ReadAt(es, f, h) {
      if !e.SetStored? { assert ReadAt(more, f, h); }
    }
  }

  lemma FailedStep(es: seq<Event>, e: Event)
    ensures SaveFailed(es + [e]) <==>
            !e.SetStored? && (SaveFailed(es) || (e.Saved? && !e.ok && LiveRead(es, e.flight)))
  {
    var more := es + [e];
    assert forall k | 0 <= k < |es| :: more[k] == es[k];
    if h: nat, i: nat :| FailedAt(more, h, i) {
      assert more[|es|] == e && !e.SetStored? && ReadAt(es, more[i].flight, h);
      if i < |es| { assert FailedAt(es, h, i); }
    }
    if !e.SetStored? {
      if h: nat, i: nat :| FailedAt(es, h, i) { assert FailedAt(more, h, i); }
      if e.Saved? && !e.ok && LiveRead(es, e.flight) {
        var h: nat :| ReadAt(es, e.flight, h);
        assert FailedAt(more, h, |es|);
      }
    }
  }

  lemma PatternEnds(es: seq<Event>, e: Event, h: nat, i: nat, j: nat)
    ensures PatternAt(es + [e], h, i, j) <==>
            PatternAt(es, h, i, j) || (j == |es| && e.TokenRead? && e.ok && FailedAt(es, h, i))
  {
    var more := es + [e];
    assert forall k | 0 <= k < |es| :: more[k] == es[k];
    assert more[|es|] == e;
  }

  lemma RepeatsStep(es: seq<Event>, e: Event)
    ensures Repeats(es + [e]) <==> Repeats(es) || (e.TokenRead? && e.ok && SaveFailed(es))
  {
    forall h: nat, i: nat, j: nat
      ensures PatternAt(es + [e], h, i, j) <==>
              PatternAt(es, h, i, j) || (j == |es| && e.TokenRead? && e.ok && FailedAt(es, h, i))
    {
      PatternEnds(es, e, h, i, j);
    }
    hide FailedAt, PatternAt;
    if e.TokenRead? && e.ok && SaveFailed(es) {
      var h: nat, i: nat :| FailedAt(es, h, i);
      assert PatternAt(es + [e], h, i, |es|);
    }
  }

  ghost predicate TracksFlight(s: State, r: Refresh, live: bool, failed: bool) {
    match r
    case Reading => Stale(s) <==> failed
    case Asking(t) => SentToken(t) in s.log && !Stale(s) && !failed && (s.stored == Some(t) <==> live)
    case Saving(rotated) => !Spent(s.log, rotated) && !failed && (Stale(s) <==> live)
  }

  /** What the events say about the stored token, as long as none was reused. */
  ghost predicate Tracks(s: State, live: iset<nat>, failed: bool) {
    && NoReuse(s.log)
    && (s.refreshes == map[] ==> (Stale(s) <==> failed))
    && forall f :: f in s.refreshes ==> TracksFlight(s, s.refreshes[f], f in live, failed)
  }

  lemma GrantTracks(
    s: State, f: nat, access: Token, rotated: Token, live: iset<nat>, failed: bool, live': iset<nat>, failed': bool)
    requires Valid(s) && Enabled(s, Granted(f, access, rotated)) && Honest(s, Granted(f, access, rotated))
    requires Tracks(s, live, failed) && (f in live' <==> f in live) && failed' == failed
    ensures Tracks(Step(s, Granted(f, access, rotated)), live', failed')
  {
    var s' := Step(s, Granted(f, access, rotated));
    StepReuses(s, Granted(f, access, rotated));
    assert SingleFlight(s) && s.refreshes.Keys == {f};
    hide NoReuse, Valid;
    var sent := s.refreshes[f].sent;
    assert TracksFlight(s, s.refreshes[f], f in live, failed);
    assert s'.log == s.log + [ReceivedExchange(sent)] && s'.stored == s.stored;
    assert s'.refreshes == map[f := Saving(rotated)];
    assert Spent(s'.log, rotated) <==> Spent(s.log, rotated) || rotated == sent;
    if s.stored.Some? {
      assert Spent(s'.log, s.stored.value) <==> Spent(s.log, s.stored.value) || s.stored.value == sent;
    }
    assert TracksFlight(s', Saving(rotated), f in live', failed');
    hide TracksFlight, Stale, Step;
    assert f in s'.refreshes && forall g :: g in s'.refreshes ==> g == f;
  }

  /** The refresh reads the store, or returns. */
  lemma FlightTracks(s: State, e: Event, live: iset<nat>, failed: bool, live': iset<nat>, failed': bool)
    requires Valid(s) && Enabled(s, e) && Honest(s, e) && Tracks(s, live, failed)
    requires !(e.TokenRead? && e.ok && failed)
    requires forall f: nat :: f in live' <==> e == TokenRead(f, true) || (!e.SetStored? && f in live)
    requires failed' <==> !e.SetStored? && (failed || (e.Saved? && !e.ok && e.flight in live))
    requires e.TokenRead? || e.Saved? || e.Refused?
    ensures Tracks(Step(s, e), live', failed')
  {
    var s', f := Step(s, e), e.flight;
    StepReuses(s, e);
    assert SingleFlight(s) && s.refreshes.Keys == {f};
    assert TracksFlight(s, s.refreshes[f], f in live, failed);
    hide NoReuse, Valid;
    assert s'.refreshes != map[] ==> s'.refreshes.Keys == {f} && s'.refreshes[f] == Asking(s.stored.value);
  }

  /** A call's step, or a write from outside. */
  lemma ElseTracks(s: State, e: Event, live: iset<nat>, failed: bool, live': iset<nat>, failed': bool)
    requires Valid(s) && Enabled(s, e) && Honest(s, e) && Tracks(s, live, failed)
    requires !e.TokenRead? && !e.Saved? && !e.Refused? && !e.Granted?
    requires forall f: nat :: f in live' <==> !e.SetStored? && f in live
    requires failed' <==> !e.SetStored? && failed
    ensures Tracks(Step(s, e), live', failed')
  {
    var s' := Step(s, e);
    assert s'.log == s.log;
    if e.SetStored? {
      assert !Stale(s') && s'.refreshes == s.refreshes;
      hide NoReuse;
    } else {
      assert s'.stored == s.stored && (Stale(s') <==> Stale(s));
      assert s'.refreshes != s.refreshes ==> s.refreshes.Keys == {} && s'.refreshes == map[s.started := Reading];
      hide NoReuse, Valid, Enabled, Step, Stale;
    }
  }

  lemma StepTracks(s: State, e: Event, live: iset<nat>, failed: bool, live': iset<nat>, failed': bool)
    requires Valid(s) && Enabled(s, e) && Honest(s, e) && Tracks(s, live, failed)
    requires !(e.TokenRead? && e.ok && failed)
    requires forall f: nat :: f in live' <==> e == TokenRead(f, true) || (!e.SetStored? && f in live)
    requires failed' <==> !e.SetStored? && (failed || (e.Saved? && !e.ok && e.flight in live))
    ensures Tracks(Step(s, e), live', failed')
  {
    if e.TokenRead? || e.Saved? || e.Refused? {
      FlightTracks(s, e, live, failed, live', failed');
    } else if e.Granted? {
      GrantTracks(s, e.flight, e.access, e.rotated, live, failed, live', failed');
    } else {
      ElseTracks(s, e, live, failed, live', failed');
    }
  }

  lemma {:induction false} RunSplits(s: State, es: seq<Event>)
    requires Runs(s, es) && es != []
    ensures var front, last := es[..|es| - 1], es[|es| - 1];
            Runs(s, front) && Enabled(After(s, front), last) && After(s, es) == Step(After(s, front), last) &&
            (HonestRun(s, es) ==> HonestRun(s, front) && Honest(After(s, front), last))
    decreases |es|
  {
    hide Step;
    hide Enabled;
    hide Honest;
    if |es| > 1 {
      RunSplits(Step(s, es[0]), es[1..]);
      assert es[1..][..|es| - 2] == es[..|es| - 1][1..];
    } else {
      assert es[1..] == [];
    }
  }

  /** What holds of the state after some events. */
  ghost predicate Told(s: State, es: seq<Event>) {
    if Repeats(es) then !NoReuse(s.log) else Tracks(s, Live(es), SaveFailed(es))
  }

  lemma OneMoreEvent(s: State, front: seq<Event>, last: Event)
    requires Valid(s) && Enabled(s, last) && Honest(s, last) && Told(s, front)
    ensures Told(Step(s, last), front + [last])
  {
    var es := front + [last];
    RepeatsStep(front, last);
    FailedStep(front, last);
    forall f: nat
      ensures f in Live(es) <==> last == TokenRead(f, true) || (!last.SetStored? && f in Live(front))
    {
      ReadStep(front, last, f);
    }
    hide Repeats, SaveFailed, Live, NoReuse, Honest, Valid;
    if !Repeats(es) {
      hide Tracks, Step;
      StepTracks(s, last, Live(front), SaveFailed(front), Live(es), SaveFailed(es));
    } else if Repeats(front) {
      assert s.log <= Step(s, last).log;
      ReuseStays(s.log, Step(s, last).log);
    } else {
      assert s.refreshes[last.flight].Reading?;
      StepReuses(s, last);
    }
  }

  /** As long as the pattern has not occurred nothing is reused, and its first half is the stored token
      being stale; once it has occurred a token was reused. */
  lemma {:induction false} EventsTrack(stored: Option<Token>, es: seq<Event>)
    requires Runs(Initial(stored), es) && HonestRun(Initial(stored), es)
    ensures Valid(After(Initial(stored), es)) && Told(After(Initial(stored), es), es)
  {
    var s0 := Initial(stored);
    RunKeeps(s0, es);
    if es == [] {
      assert !Repeats(es) && !SaveFailed(es);
    } else {
      hide Told, Valid, Step;
      var front, last := es[..|es| - 1], es[|es| - 1];
      RunSplits(s0, es);
      EventsTrack(stored, front);
      OneMoreEvent(After(s0, front), front, last);
      assert es == front + [last];
    }
  }

  /** Main result, for honest servers and writers, whatever else fails or interleaves: a token is sent
      again after its exchange was received exactly when the save of some refresh failed, a later
      refresh read the store, and nothing else wrote a token between the two reads. */
  lemma ReusesTokenIff(stored: Option<Token>, es: seq<Event>)
    requires Runs(Initial(stored), es) && HonestRun(Initial(stored), es)
    ensures !NoReuse(After(Initial(stored), es).log) <==>
            exists h: nat, i: nat, j: nat :: PatternAt(es, h, i, j)
  {
    EventsTrack(stored, es);
    hide PatternAt, Runs, After, NoReuse, HonestRun, Tracks;
  }
}
