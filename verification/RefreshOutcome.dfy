/**
 What every run of the API client comes to, read off its events alone: what is stored, which refreshes
 succeeded, which calls sent again and how they ended.
 */
module RefreshOutcome {
  import opened Wrappers
  import opened ApiClient
  import opened TokenReuse

  // ---------- tokens ----------

  /** The rotated token of the refresh's granted exchange. */
  function RotatedFor(es: seq<Event>, f: nat): Option<Token> {
    if es == [] then None else
    var last := es[|es| - 1];
    if last.Granted? && last.flight == f then Some(last.rotated) else RotatedFor(es[..|es| - 1], f)
  }

  /** The last refresh token written: by a login or logout, or by a refresh whose save succeeded. */
  function LastWrite(stored: Option<Token>, es: seq<Event>): Option<Token> {
    if es == [] then stored else
    var front, last := es[..|es| - 1], es[|es| - 1];
    if last.SetStored? then last.token
    else if last.Saved? && last.ok then RotatedFor(front, last.flight)
    else LastWrite(stored, front)
  }

  /** The last access token set: by a login or logout, or by a granted exchange. */
  function LastAccess(es: seq<Event>): Option<Token> {
    if es == [] then None else
    var last := es[|es| - 1];
    if last.SetAccess? then last.token
    else if last.Granted? then Some(last.access)
    else LastAccess(es[..|es| - 1])
  }

  /** Tokens and the refreshes' rotated tokens are those of the events. */
  ghost predicate TokensTold(s: State, stored: Option<Token>, es: seq<Event>) {
    && s.stored == LastWrite(stored, es) && s.accessToken == LastAccess(es)
    && forall f :: f in s.refreshes && s.refreshes[f].Saving? ==> RotatedFor(es, f) == Some(s.refreshes[f].rotated)
  }

  lemma TokensAfter(stored: Option<Token>, es: seq<Event>, e: Event, f: nat)
    ensures RotatedFor(es + [e], f) ==
            if e.Granted? && e.flight == f then Some(e.rotated) else RotatedFor(es, f)
    ensures LastWrite(stored, es + [e]) ==
            if e.SetStored? then e.token
            else if e.Saved? && e.ok then RotatedFor(es, e.flight)
            else LastWrite(stored, es)
    ensures LastAccess(es + [e]) ==
            if e.SetAccess? then e.token else if e.Granted? then Some(e.access) else LastAccess(es)
  {
    assert (es + [e])[..|es|] == es;
  }

  /** What one step writes. */
  lemma StepWrites(s: State, e: Event)
    requires Enabled(s, e)
    ensures Step(s, e).accessToken ==
            if e.SetAccess? then e.token else if e.Granted? then Some(e.access) else s.accessToken
    ensures e.Saved? ==> e.flight in s.refreshes && s.refreshes[e.flight].Saving?
    ensures Step(s, e).stored ==
            if e.SetStored? then e.token
            else if e.Saved? && e.ok then Some(s.refreshes[e.flight].rotated)
            else s.stored
    ensures Step(s, e).log == s.log +
            if e.TokenRead? && e.ok && s.stored.Some? then [SentToken(s.stored.value)]
            else if e.Granted? then [ReceivedExchange(s.refreshes[e.flight].sent)]
            else []
  {
    assert s.log + [] == s.log;
  }

  /** What one step leaves of the refreshes. */
  lemma StepRefreshes(s: State, e: Event, f: nat)
    requires Enabled(s, e) && f in Step(s, e).refreshes
    ensures var r := Step(s, e).refreshes[f];
            var same := f in s.refreshes && s.refreshes[f] == r;
            (r.Saving? ==> if e.Granted? && e.flight == f then r.rotated == e.rotated else same) &&
            (r.Asking? ==> if e == TokenRead(f, true) then s.stored == Some(r.sent) else same)
  {
  }

  lemma TokensStep(s: State, stored: Option<Token>, es: seq<Event>, e: Event)
    requires Enabled(s, e) && TokensTold(s, stored, es)
    ensures TokensTold(Step(s, e), stored, es + [e])
  {
    StepWrites(s, e);
    TokensAfter(stored, es, e, 0);
    hide Step, Enabled, RotatedFor, LastWrite, LastAccess;
    var s' := Step(s, e);
    forall f | f in s'.refreshes && s'.refreshes[f].Saving?
      ensures RotatedFor(es + [e], f) == Some(s'.refreshes[f].rotated)
    {
      StepRefreshes(s, e, f);
      TokensAfter(stored, es, e, f);
    }
  }

  /** In every run the stored refresh token and the access token are the last ones written. */
  lemma {:induction false} TokensAreTheLastWritten(stored: Option<Token>, es: seq<Event>)
    requires Runs(Initial(stored), es)
    ensures TokensTold(After(Initial(stored), es), stored, es)
  {
    if es != [] {
      hide TokensTold, Step, Enabled;
      var front, last := es[..|es| - 1], es[|es| - 1];
      RunSplits(Initial(stored), es);
      TokensAreTheLastWritten(stored, front);
      TokensStep(After(Initial(stored), front), stored, front, last);
      assert es == front + [last];
    }
  }

  /** The token a refresh sent: the last one written when it read the store. */
  function SentBy(stored: Option<Token>, es: seq<Event>, f: nat): Option<Token> {
    if es == [] then None else
    var front := es[..|es| - 1];
    if es[|es| - 1] == TokenRead(f, true) then LastWrite(stored, front) else SentBy(stored, front, f)
  }

  /** What travels: the token each refresh reads, if there is one, and the exchanges received for it. */
  function TrafficOf(stored: Option<Token>, es: seq<Event>): seq<Traffic> {
    if es == [] then [] else
    var front, last := es[..|es| - 1], es[|es| - 1];
    TrafficOf(stored, front) +
    if last.TokenRead? && last.ok && LastWrite(stored, front).Some? then [SentToken(LastWrite(stored, front).value)]
    else if last.Granted? && SentBy(stored, front, last.flight).Some?
    then [ReceivedExchange(SentBy(stored, front, last.flight).value)]
    else []
  }

  ghost predicate TrafficTold(s: State, stored: Option<Token>, es: seq<Event>) {
    s.log == TrafficOf(stored, es) &&
    forall f :: f in s.refreshes && s.refreshes[f].Asking? ==> SentBy(stored, es, f) == Some(s.refreshes[f].sent)
  }

  lemma TrafficAfter(stored: Option<Token>, es: seq<Event>, e: Event, f: nat)
    ensures SentBy(stored, es + [e], f) ==
            if e == TokenRead(f, true) then LastWrite(stored, es) else SentBy(stored, es, f)
    ensures TrafficOf(stored, es + [e]) == TrafficOf(stored, es) +
            if e.TokenRead? && e.ok && LastWrite(stored, es).Some? then [SentToken(LastWrite(stored, es).value)]
            else if e.Granted? && SentBy(stored, es, e.flight).Some?
            then [ReceivedExchange(SentBy(stored, es, e.flight).value)]
            else []
  {
    hide LastWrite;
    assert (es + [e])[..|es|] == es;
  }

  lemma TrafficStep(s: State, stored: Option<Token>, es: seq<Event>, e: Event)
    requires Enabled(s, e) && TrafficTold(s, stored, es) && s.stored == LastWrite(stored, es)
    ensures TrafficTold(Step(s, e), stored, es + [e])
  {
    StepWrites(s, e);
    TrafficAfter(stored, es, e, 0);
    assert e.Granted? ==> e.flight in s.refreshes && s.refreshes[e.flight].Asking?;
    hide Step, Enabled, SentBy, TrafficOf, LastWrite;
    var s' := Step(s, e);
    forall f | f in s'.refreshes && s'.refreshes[f].Asking?
      ensures SentBy(stored, es + [e], f) == Some(s'.refreshes[f].sent)
    {
      StepRefreshes(s, e, f);
      TrafficAfter(stored, es, e, f);
    }
  }

  /** And the tokens sent, and those whose exchange was received, are the ones the store last held. */
  lemma {:induction false} TrafficIsOfTheStore(stored: Option<Token>, es: seq<Event>)
    requires Runs(Initial(stored), es)
    ensures TrafficTold(After(Initial(stored), es), stored, es)
  {
    if es != [] {
      hide TrafficTold, Step, Enabled, LastWrite;
      var front, last := es[..|es| - 1], es[|es| - 1];
      RunSplits(Initial(stored), es);
      TokensAreTheLastWritten(stored, front);
      TrafficIsOfTheStore(stored, front);
      TrafficStep(After(Initial(stored), front), stored, front, last);
      assert es == front + [last];
    }
  }

  // ---------- refreshes ----------

  ghost predicate GrantedAt(es: seq<Event>, f: nat, h: nat, g: nat) {
    h < g < |es| && es[h] == TokenRead(f, true) && es[g].Granted? && es[g].flight == f
  }

  /** A refresh read a token, had it exchanged and saved the new one, in this order. */
  ghost predicate Succeeded(es: seq<Event>, f: nat) {
    exists h: nat, g: nat, i: nat :: GrantedAt(es, f, h, g) && g < i < |es| && es[i] == Saved(f, true)
  }

  /** A refresh found no token or could not read it, was refused, or could not save. */
  ghost predicate FailsAt(stored: Option<Token>, es: seq<Event>, f: nat, i: nat) {
    i < |es| &&
    (es[i] == Refused(f) || es[i] == Saved(f, false) || es[i] == TokenRead(f, false) ||
     (es[i] == TokenRead(f, true) && LastWrite(stored, es[..i]) == None))
  }

  ghost predicate Failed(stored: Option<Token>, es: seq<Event>, f: nat) {
    exists i: nat :: FailsAt(stored, es, f, i)
  }

  ghost predicate WasRead(es: seq<Event>, f: nat) {
    TokenRead(f, true) in es
  }

  ghost predicate WasGranted(es: seq<Event>, f: nat) {
    exists h: nat, g: nat :: GrantedAt(es, f, h, g)
  }

  lemma ReadOneMore(es: seq<Event>, e: Event, f: nat)
    ensures WasRead(es + [e], f) <==> WasRead(es, f) || e == TokenRead(f, true)
  {
  }

  lemma GrantedOneMore(es: seq<Event>, e: Event, f: nat)
    ensures WasGranted(es + [e], f) <==> WasGranted(es, f) || (e.Granted? && e.flight == f && WasRead(es, f))
  {
    var more := es + [e];
    assert forall k | 0 <= k < |es| :: more[k] == es[k];
    if h: nat, g: nat :| GrantedAt(more, f, h, g) {
      if g < |es| { assert GrantedAt(es, f, h, g); } else { assert es[h] in es; }
    }
    if h: nat, g: nat :| GrantedAt(es, f, h, g) { assert GrantedAt(more, f, h, g); }
    if e.Granted? && e.flight == f && WasRead(es, f) {
      var h: nat :| h < |es| && es[h] == TokenRead(f, true);
      assert GrantedAt(more, f, h, |es|);
    }
  }

  lemma SucceededOneMore(es: seq<Event>, e: Event, f: nat)
    ensures Succeeded(es + [e], f) <==> Succeeded(es, f) || (e == Saved(f, true) && WasGranted(es, f))
  {
    var more := es + [e];
    assert forall k | 0 <= k < |es| :: more[k] == es[k];
    if h: nat, g: nat, i: nat :| GrantedAt(more, f, h, g) && g < i < |more| && more[i] == Saved(f, true) {
      assert GrantedAt(es, f, h, g);
    }
    if h: nat, g: nat, i: nat :| GrantedAt(es, f, h, g) && g < i < |es| && es[i] == Saved(f, true) {
      assert GrantedAt(more, f, h, g) && more[i] == Saved(f, true);
    }
    if e == Saved(f, true) && WasGranted(es, f) {
      var h: nat, g: nat :| GrantedAt(es, f, h, g);
      assert GrantedAt(more, f, h, g) && more[|es|] == Saved(f, true);
    }
  }

  lemma FailedOneMore(stored: Option<Token>, es: seq<Event>, e: Event, f: nat)
    ensures Failed(stored, es + [e], f) <==>
            Failed(stored, es, f) || e == Refused(f) || e == Saved(f, false) || e == TokenRead(f, false) ||
            (e == TokenRead(f, true) && LastWrite(stored, es) == None)
  {
    hide LastWrite;
    var more := es + [e];
    assert forall k | 0 <= k < |es| :: more[k] == es[k] && more[..k] == es[..k];
    assert more[..|es|] == es && more[|es|] == e;
    forall i: nat ensures i < |es| ==> (FailsAt(stored, more, f, i) <==> FailsAt(stored, es, f, i)) {}
    assert FailsAt(stored, more, f, |es|) <==>
           (e == Refused(f) || e == Saved(f, false) || e == TokenRead(f, false) ||
            (e == TokenRead(f, true) && LastWrite(stored, es) == None));
    assert forall i: nat :: FailsAt(stored, es, f, i) ==> i < |es|;
    assert forall i: nat :: FailsAt(stored, more, f, i) ==> i <= |es|;
    hide FailsAt;
  }

  /** Where a refresh stands, and what its promise settled to. */
  ghost predicate RefreshTold(s: State, stored: Option<Token>, es: seq<Event>, f: nat) {
    && (f in s.refreshes && s.refreshes[f].Asking? ==> WasRead(es, f))
    && (f in s.refreshes && s.refreshes[f].Saving? ==> WasGranted(es, f))
    && (f in s.promises && s.promises[f] <==> Succeeded(es, f))
    && (f in s.promises && !s.promises[f] <==> Failed(stored, es, f))
  }

  lemma RefreshStep(s: State, stored: Option<Token>, es: seq<Event>, e: Event, f: nat)
    requires Valid(s) && Enabled(s, e) && RefreshTold(s, stored, es, f) && s.stored == LastWrite(stored, es)
    ensures RefreshTold(Step(s, e), stored, es + [e], f)
  {
    ReadOneMore(es, e, f);
    GrantedOneMore(es, e, f);
    SucceededOneMore(es, e, f);
    FailedOneMore(stored, es, e, f);
    assert NamesInUse(s);
    hide WasRead, WasGranted, Succeeded, Failed, LastWrite, SingleFlight, CallsOk;
  }

  lemma InitialIsValid(stored: Option<Token>)
    ensures Valid(Initial(stored))
  {
  }

  /** Main result: in every run a refresh settles true exactly when it succeeded and false exactly when it
      failed. */
  lemma {:induction false} RefreshSettlesIff(stored: Option<Token>, es: seq<Event>, f: nat)
    requires Runs(Initial(stored), es)
    ensures RefreshTold(After(Initial(stored), es), stored, es, f)
  {
    if es != [] {
      hide RefreshTold, Step, Enabled, Valid, LastWrite;
      var front, last := es[..|es| - 1], es[|es| - 1];
      var s0 := Initial(stored);
      RunSplits(s0, es);
      RunKeeps(s0, front) by { InitialIsValid(stored); }
      RefreshSettlesIff(stored, front, f);
      TokensAreTheLastWritten(stored, front);
      RefreshStep(After(s0, front), stored, front, last, f);
      assert es == front + [last];
    }
  }

  // ---------- calls ----------

  /** The last answer a call got. */
  function LastAnswer(es: seq<Event>, c: nat): Option<Outcome> {
    if es == [] then None else
    var last := es[|es| - 1];
    if last.Answered? && last.call == c then Some(Answer(last.status))
    else if last == Unreachable(c) then Some(Offline)
    else LastAnswer(es[..|es| - 1], c)
  }

  ghost predicate OneCallTold(s: State, call: Call, es: seq<Event>, c: nat) {
    && (Resumed(c) in es <==> call.sends == 2 || (call.flight.Some? && call.phase.Done?))
    && (call.phase == Waiting ==> LastAnswer(es, c) == Some(Answer(401)))
    && (call.phase.Done? ==> LastAnswer(es, c) == Some(call.phase.outcome))
    && (call.phase.Done? && call.sends == 1 && !call.toRefreshPath && call.phase.outcome == Answer(401) ==>
          call.flight.Some?)
  }

  ghost predicate CallTold(s: State, es: seq<Event>, c: nat) {
    && (c in s.calls <==> exists p :: Begin(c, p) in es)
    && (c in s.calls ==> Begin(c, s.calls[c].toRefreshPath) in es && OneCallTold(s, s.calls[c], es, c))
    && (c !in s.calls ==> Resumed(c) !in es)
  }

  lemma AnswerAfter(es: seq<Event>, e: Event, c: nat)
    ensures LastAnswer(es + [e], c) ==
            if e.Answered? && e.call == c then Some(Answer(e.status))
            else if e == Unreachable(c) then Some(Offline)
            else LastAnswer(es, c)
    ensures Resumed(c) in es + [e] <==> Resumed(c) in es || e == Resumed(c)
    ensures forall p :: Begin(c, p) in es + [e] <==> Begin(c, p) in es || e == Begin(c, p)
  {
    assert (es + [e])[..|es|] == es;
  }

  predicate IsOfCall(e: Event, c: nat) {
    (e.Begin? || e.Answered? || e.Unreachable? || e.Resumed?) && e.call == c
  }

  ghost predicate OneCallStep(call: Call, next: Call, e: Event) {
    match e
    case Answered(_, status) =>
      call.phase == Sent &&
      if status == 401 && !call.toRefreshPath && call.sends == 1
      then next.flight.Some? && next == call.(flight := next.flight, phase := Waiting)
      else next == call.(phase := Done(Answer(status)))
    case Unreachable(_) => call.phase == Sent && next == call.(phase := Done(Offline))
    case Resumed(_) =>
      call.phase == Waiting && call.flight.Some? &&
      (next == call.(sends := call.sends + 1, phase := Sent) || next == call.(phase := Done(Answer(401))))
    case _ => false
  }

  /** What one step does to a call. */
  lemma StepOfCall(s: State, e: Event, c: nat)
    requires Enabled(s, e)
    ensures c in Step(s, e).calls <==> c in s.calls || (e.Begin? && e.call == c)
    ensures e.Begin? && e.call == c ==>
              c !in s.calls && Step(s, e).calls[c] == Call(e.toRefreshPath, 1, None, Sent)
    ensures c in s.calls && !IsOfCall(e, c) ==> Step(s, e).calls[c] == s.calls[c]
    ensures c in s.calls && IsOfCall(e, c) ==> OneCallStep(s.calls[c], Step(s, e).calls[c], e)
    ensures IsOfCall(e, c) && !e.Begin? ==> c in s.calls
  {
  }

  lemma CallStep(s: State, es: seq<Event>, e: Event, c: nat)
    requires Valid(s) && Enabled(s, e) && CallTold(s, es, c)
    ensures CallTold(Step(s, e), es + [e], c)
  {
    AnswerAfter(es, e, c);
    StepOfCall(s, e, c);
    assert c in s.calls ==> CallOk(s, s.calls[c]);
    hide LastAnswer, Valid, Step, Enabled;
  }

  lemma {:induction false} CallsAreTold(stored: Option<Token>, es: seq<Event>, c: nat)
    requires Runs(Initial(stored), es)
    ensures CallTold(After(Initial(stored), es), es, c)
  {
    if es != [] {
      hide CallTold, Step, Enabled, Valid;
      var front, last := es[..|es| - 1], es[|es| - 1];
      var s0 := Initial(stored);
      RunSplits(s0, es);
      RunKeeps(s0, front) by { InitialIsValid(stored); }
      CallsAreTold(stored, front, c);
      CallStep(After(s0, front), es[..|es| - 1], last, c);
      assert es == front + [last];
    }
  }

  /** Main result, for every call of every run: it has sent twice exactly when it was resumed after a
      refresh that succeeded; it ends with the last answer it got; and it gives up on a 401 without sending
      again, the refresh endpoint aside, only after a refresh that failed. */
  lemma CallsEndAsAnswered(stored: Option<Token>, es: seq<Event>, c: nat)
    requires Runs(Initial(stored), es) && c in After(Initial(stored), es).calls
    ensures var call := After(Initial(stored), es).calls[c];
            (call.sends == 2 <==> Resumed(c) in es && call.flight.Some? && Succeeded(es, call.flight.value)) &&
            (call.phase.Done? ==> LastAnswer(es, c) == Some(call.phase.outcome)) &&
            (call.phase == Done(Answer(401)) && call.sends == 1 && !call.toRefreshPath ==>
               call.flight.Some? && Failed(stored, es, call.flight.value))
  {
    var s := After(Initial(stored), es);
    CallsAreTold(stored, es, c);
    InitialIsValid(stored);
    RunKeeps(Initial(stored), es);
    var call := s.calls[c];
    assert CallOk(s, call) by { assert CallsOk(s); }
    if call.flight.Some? { RefreshSettlesIff(stored, es, call.flight.value); }
    hide Succeeded, Failed, LastAnswer, Valid, After, Runs;
  }

  /** And a first 401 is never simply given up on: it awaits a refresh that is running. */
  lemma FirstUnauthorizedWaits(s: State, c: nat)
    requires Valid(s) && Enabled(s, Answered(c, 401)) && s.calls[c].sends == 1 && !s.calls[c].toRefreshPath
    ensures var s' := Step(s, Answered(c, 401));
            s'.calls[c].phase == Waiting && s'.calls[c].flight == s'.refreshInFlight &&
            s'.refreshInFlight.Some? && s'.refreshInFlight.value in s'.refreshes
  {
    assert SingleFlight(s);
  }
}
