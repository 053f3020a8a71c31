/**
 The mobile API client: single-flight refresh of the access token, token rotation and retry once.
 Every await is a step boundary; any number of calls may be pending and their answers, storage
 results and network failures arrive in any order.
 */
module ApiClient {
  import opened Wrappers

  type Token = nat

  /** Where one execution of the refresh closure is suspended. */
  datatype Refresh =
    | Reading                     // awaiting the stored refresh token
    | Asking(sent: Token)         // the refresh request is outstanding
    | Saving(rotated: Token)      // awaiting persistence of the rotated token

  datatype Outcome = Answer(status: int) | Offline

  datatype Phase =
    | Sent                        // a request is outstanding
    | Waiting                     // awaiting the shared refresh promise
    | Done(outcome: Outcome)

  /** A call of apiFetch or apiUploadImage.  flight is the refresh whose promise it awaited. */
  datatype Call = Call(toRefreshPath: bool, sends: nat, flight: Option<nat>, phase: Phase)

  /** What travels to and from the refresh endpoint. */
  datatype Traffic = SentToken(token: Token) | ReceivedExchange(token: Token)

  datatype State = State(
    accessToken: Option<Token>,
    refreshInFlight: Option<nat>,
    stored: Option<Token>,
    refreshes: map<nat, Refresh>,       // executions of the closure that have not returned
    promises: map<nat, bool>,           // settled promises
    started: nat,                       // executions of the closure so far, which names the next one
    calls: map<nat, Call>,
    log: seq<Traffic>)

  function Initial(stored: Option<Token>): State {
    State(None, None, stored, map[], map[], 0, map[], [])
  }

  datatype Event =
    | Begin(call: nat, toRefreshPath: bool)
    | Answered(call: nat, status: int)
    | Unreachable(call: nat)
    | TokenRead(flight: nat, ok: bool)
    | Granted(flight: nat, access: Token, rotated: Token)
    | Refused(flight: nat)              // not ok, unreachable, or a body that does not parse
    | Saved(flight: nat, ok: bool)
    | Resumed(call: nat)
    | SetAccess(token: Option<Token>)   // login and logout, from outside this module
    | SetStored(token: Option<Token>)

  predicate Enabled(s: State, e: Event) {
    match e
    case Begin(c, _) => c !in s.calls
    case Answered(c, _) => c in s.calls && s.calls[c].phase == Sent
    case Unreachable(c) => c in s.calls && s.calls[c].phase == Sent
    case TokenRead(f, _) => f in s.refreshes && s.refreshes[f].Reading?
    case Granted(f, _, _) => f in s.refreshes && s.refreshes[f].Asking?
    case Refused(f) => f in s.refreshes && s.refreshes[f].Asking?
    case Saved(f, _) => f in s.refreshes && s.refreshes[f].Saving?
    case Resumed(c) => c in s.calls && s.calls[c].phase == Waiting &&
                       s.calls[c].flight.Some? && s.calls[c].flight.value in s.promises
    case SetAccess(_) => true
    case SetStored(_) => true
  }

  /** The closure returns: its finally block clears the module variable whatever it holds. */
  function Return(s: State, f: nat, result: bool): State {
    s.(refreshInFlight := None, refreshes := s.refreshes - {f}, promises := s.promises[f := result])
  }

  function Step(s: State, e: Event): State
    requires Enabled(s, e)
  {
    match e
    case Begin(c, toRefreshPath) =>
      s.(calls := s.calls[c := Call(toRefreshPath, 1, None, Sent)])
    case Answered(c, status) =>
      var call := s.calls[c];
      if status == 401 && !call.toRefreshPath && call.sends == 1 then
        var f := if s.refreshInFlight.Some? then s.refreshInFlight.value else s.started;
        s.(refreshInFlight := Some(f),
           refreshes := if s.refreshInFlight.Some? then s.refreshes else s.refreshes[f := Reading],
           started := if s.refreshInFlight.Some? then s.started else s.started + 1,
           calls := s.calls[c := call.(flight := Some(f), phase := Waiting)])
      else
        s.(calls := s.calls[c := call.(phase := Done(Answer(status)))])
    case Unreachable(c) =>
      s.(calls := s.calls[c := s.calls[c].(phase := Done(Offline))])
    case TokenRead(f, ok) =>
      if !ok || s.stored.None? then Return(s, f, false)
      else s.(refreshes := s.refreshes[f := Asking(s.stored.value)], log := s.log + [SentToken(s.stored.value)])
    case Granted(f, access, rotated) =>
      s.(accessToken := Some(access), refreshes := s.refreshes[f := Saving(rotated)],
         log := s.log + [ReceivedExchange(s.refreshes[f].sent)])
    case Refused(f) => Return(s, f, false)
    case Saved(f, ok) =>
      if ok then Return(s.(stored := Some(s.refreshes[f].rotated)), f, true) else Return(s, f, false)
    case Resumed(c) =>
      var call := s.calls[c];
      if s.promises[call.flight.value] then
        s.(calls := s.calls[c := call.(sends := call.sends + 1, phase := Sent)])
      else
        s.(calls := s.calls[c := call.(phase := Done(Answer(401)))])
    case SetAccess(token) => s.(accessToken := token)
    case SetStored(token) => s.(stored := token)
  }

  // ---------- the program ----------

  /** The module's variables, the suspended closures and calls, and the stored token.  One method per
      point where execution resumes. */
  class Client {
    var accessToken: Option<Token>
    var refreshInFlight: Option<nat>
    var stored: Option<Token>
    var refreshes: map<nat, Refresh>
    var promises: map<nat, bool>
    var started: nat
    var calls: map<nat, Call>
    ghost var log: seq<Traffic>

    constructor (token: Option<Token>)
      ensures Snapshot() == Initial(token)
    {
      accessToken, refreshInFlight, stored := None, None, token;
      refreshes, promises, started, calls := map[], map[], 0, map[];
      log := [];
    }

    ghost function Snapshot(): State
      reads this
    {
      State(accessToken, refreshInFlight, stored, refreshes, promises, started, calls, log)
    }

    /** apiFetch or apiUploadImage sends its request. */
    method Start(c: nat, toRefreshPath: bool)
      requires Enabled(Snapshot(), Begin(c, toRefreshPath))
      modifies this
      ensures Snapshot() == Step(old(Snapshot()), Begin(c, toRefreshPath))
    {
      calls := calls[c := Call(toRefreshPath, 1, None, Sent)];
    }

    /** A response arrived: a first 401 goes to tryRefresh, anything else ends the call. */
    method OnResponse(c: nat, status: int)
      requires Enabled(Snapshot(), Answered(c, status))
      modifies this
      ensures Snapshot() == Step(old(Snapshot()), Answered(c, status))
    {
      if status == 401 && !calls[c].toRefreshPath && calls[c].sends == 1 {
        var promise := TryRefresh();
        calls := calls[c := calls[c].(flight := Some(promise), phase := Waiting)];
      } else {
        calls := calls[c := calls[c].(phase := Done(Answer(status)))];
      }
    }

    /** The promise to await: the running refresh's, or that of a new one. */
    method TryRefresh() returns (promise: nat)
      modifies this
      ensures promise == (if old(refreshInFlight).Some? then old(refreshInFlight).value else old(started))
      ensures Snapshot() == if old(refreshInFlight).Some? then old(Snapshot())
                            else old(Snapshot()).(refreshInFlight := Some(promise), started := old(started) + 1,
                                                  refreshes := old(refreshes)[promise := Reading])
    {
      if refreshInFlight.None? {
        refreshInFlight := Some(started);
        refreshes := refreshes[started := Reading];
        started := started + 1;
      }
      promise := refreshInFlight.value;
    }

    method OnNetworkFailure(c: nat)
      requires Enabled(Snapshot(), Unreachable(c))
      modifies this
      ensures Snapshot() == Step(old(Snapshot()), Unreachable(c))
    {
      calls := calls[c := calls[c].(phase := Done(Offline))];
    }

    /** The finally block: the promise settles. */
    method Settle(f: nat, result: bool)
      requires f in refreshes
      modifies this
      ensures Snapshot() == Return(old(Snapshot()), f, result)
    {
      refreshInFlight := None;
      refreshes := refreshes - {f};
      promises := promises[f := result];
    }

    method OnTokenRead(f: nat, ok: bool)
      requires Enabled(Snapshot(), TokenRead(f, ok))
      modifies this
      ensures Snapshot() == Step(old(Snapshot()), TokenRead(f, ok))
    {
      if ok && stored.Some? {
        refreshes := refreshes[f := Asking(stored.value)];
        log := log + [SentToken(stored.value)];
      } else {
        Settle(f, false);
      }
    }

    method OnGranted(f: nat, access: Token, rotated: Token)
      requires Enabled(Snapshot(), Granted(f, access, rotated))
      modifies this
      ensures Snapshot() == Step(old(Snapshot()), Granted(f, access, rotated))
    {
      accessToken := Some(access);
      log := log + [ReceivedExchange(refreshes[f].sent)];
      refreshes := refreshes[f := Saving(rotated)];
    }

    method OnRefused(f: nat)
      requires Enabled(Snapshot(), Refused(f))
      modifies this
      ensures Snapshot() == Step(old(Snapshot()), Refused(f))
    {
      Settle(f, false);
    }

    method OnSaved(f: nat, ok: bool)
      requires Enabled(Snapshot(), Saved(f, ok))
      modifies this
      ensures Snapshot() == Step(old(Snapshot()), Saved(f, ok))
    {
      if ok {
        stored := Some(refreshes[f].rotated);
      }
      Settle(f, ok);
    }

    /** The awaited refresh settled: send again, or end with the 401. */
    method OnResumed(c: nat)
      requires Enabled(Snapshot(), Resumed(c))
      modifies this
      ensures Snapshot() == Step(old(Snapshot()), Resumed(c))
    {
      if promises[calls[c].flight.value] {
        calls := calls[c := calls[c].(sends := calls[c].sends + 1, phase := Sent)];
      } else {
        calls := calls[c := calls[c].(phase := Done(Answer(401)))];
      }
    }
  }

  // ---------- runs ----------

  predicate Runs(s: State, es: seq<Event>)
    decreases |es|
  {
    es == [] || (Enabled(s, es[0]) && Runs(Step(s, es[0]), es[1..]))
  }

  function After(s: State, es: seq<Event>): State
    requires Runs(s, es)
    decreases |es|
  {
    if es == [] then s else After(Step(s, es[0]), es[1..])
  }

  /** At most one execution of the closure exists, and it is the one the module variable names. */
  ghost predicate SingleFlight(s: State) {
    s.refreshes.Keys == if s.refreshInFlight.Some? then {s.refreshInFlight.value} else {}
  }

  ghost predicate NamesInUse(s: State) {
    && (forall f :: f in s.refreshes ==> f < s.started && f !in s.promises)
    && (forall f :: f in s.promises ==> f < s.started)
  }

  /** A call sends once before any refresh, and a second time only after the refresh it awaited
      succeeded; while it waits, that refresh is running or settled. */
  ghost predicate CallOk(s: State, c: Call) {
    && 1 <= c.sends <= 2
    && (c.phase == Waiting ==> c.sends == 1 && c.flight.Some?)
    && (c.phase == Sent && c.sends == 1 ==> c.flight.None?)
    && (c.flight.Some? ==> !c.toRefreshPath && (c.flight.value in s.refreshes || c.flight.value in s.promises))
    && (c.sends == 2 ==> c.flight.Some? && c.flight.value in s.promises && s.promises[c.flight.value])
    && (c.flight.Some? && c.phase.Done? && c.sends == 1 ==>
          c.phase.outcome == Answer(401) && c.flight.value in s.promises && !s.promises[c.flight.value])
  }

  ghost predicate CallsOk(s: State) {
    forall c :: c in s.calls ==> CallOk(s, s.calls[c])
  }

  ghost predicate Valid(s: State) {
    SingleFlight(s) && NamesInUse(s) && CallsOk(s)
  }

  lemma ReturnKeeps(s: State, f: nat, result: bool)
    requires Valid(s) && f in s.refreshes
    ensures Valid(Return(s, f, result))
  {
    var s' := Return(s, f, result);
    assert s.refreshes.Keys == {f} && s'.refreshes.Keys == {};
    forall c | c in s'.calls ensures CallOk(s', s'.calls[c]) { assert CallOk(s, s.calls[c]); }
  }

  lemma AnswerKeeps(s: State, c: nat, status: int)
    requires Valid(s) && Enabled(s, Answered(c, status))
    ensures Valid(Step(s, Answered(c, status)))
  {
    var s' := Step(s, Answered(c, status));
    assert CallOk(s, s.calls[c]);
    assert s'.promises == s.promises && s.refreshes.Keys <= s'.refreshes.Keys;
    forall d | d in s'.calls ensures CallOk(s', s'.calls[d]) {
      if d != c { assert CallOk(s, s.calls[d]); }
    }
  }

  /** Moving an execution on to its next await touches no call. */
  lemma OthersKeep(s: State, s': State)
    requires Valid(s) && s'.refreshes.Keys == s.refreshes.Keys && s'.promises == s.promises
    requires s'.refreshInFlight == s.refreshInFlight && s'.started == s.started && s'.calls == s.calls
    ensures Valid(s')
  {
    forall c | c in s'.calls ensures CallOk(s', s'.calls[c]) { assert CallOk(s, s.calls[c]); }
  }

  lemma SavedKeeps(s: State, f: nat, ok: bool)
    requires Valid(s) && Enabled(s, Saved(f, ok))
    ensures Valid(Step(s, Saved(f, ok)))
  {
    var s1 := if ok then s.(stored := Some(s.refreshes[f].rotated)) else s;
    OthersKeep(s, s1);
    ReturnKeeps(s1, f, ok);
  }

  /** A call begins, gives up or is resumed, or a token is set from outside. */
  lemma CallerKeeps(s: State, e: Event)
    requires Valid(s) && Enabled(s, e)
    requires e.Begin? || e.Unreachable? || e.Resumed? || e.SetAccess? || e.SetStored?
    ensures Valid(Step(s, e))
  {
    var s' := Step(s, e);
    forall c | c in s'.calls ensures CallOk(s', s'.calls[c]) {
      if c in s.calls { assert CallOk(s, s.calls[c]); }
    }
  }

  lemma StepKeeps(s: State, e: Event)
    requires Valid(s) && Enabled(s, e)
    ensures Valid(Step(s, e))
  {
    hide Valid;
    match e
    case TokenRead(f, ok) =>
      if !ok || s.stored.None? { ReturnKeeps(s, f, false); } else { OthersKeep(s, Step(s, e)); }
    case Refused(f) => ReturnKeeps(s, f, false);
    case Saved(f, ok) => SavedKeeps(s, f, ok);
    case Granted(f, _, _) => OthersKeep(s, Step(s, e));
    case Answered(c, status) => AnswerKeeps(s, c, status);
    case _ => CallerKeeps(s, e);
  }

  lemma {:induction false} RunKeeps(s: State, es: seq<Event>)
    requires Valid(s) && Runs(s, es)
    ensures Valid(After(s, es))
    decreases |es|
  {
    if es != [] {
      StepKeeps(s, es[0]);
      RunKeeps(Step(s, es[0]), es[1..]);
    }
  }

  /** Main result, for every interleaving of any number of calls with any answers: at most one
      refresh request is outstanding; every call sends its request at most twice, the second time
      only after a refresh that succeeded; and a call that gave up after a refresh gave up on 401. */
  lemma ReachableStates(stored: Option<Token>, es: seq<Event>)
    requires Runs(Initial(stored), es)
    ensures var s := After(Initial(stored), es);
            Valid(s) &&
            (forall f, g :: f in s.refreshes && g in s.refreshes ==> f == g) &&
            forall c :: c in s.calls ==>
              s.calls[c].sends <= 2 &&
              (s.calls[c].sends == 2 ==> s.calls[c].flight.Some? && s.calls[c].flight.value in s.promises &&
                                         s.promises[s.calls[c].flight.value])
  {
    RunKeeps(Initial(stored), es);
    var s := After(Initial(stored), es);
    forall c | c in s.calls ensures CallOk(s, s.calls[c]) {}
  }

  // ---------- one outcome for everyone ----------

  lemma StepRemembers(s: State, e: Event, f: nat, c: nat)
    requires Valid(s) && Enabled(s, e)
    requires c in s.calls && s.calls[c].flight == Some(f)
    ensures var s' := Step(s, e);
            c in s'.calls && s'.calls[c].flight == Some(f) &&
            (f in s.promises ==> f in s'.promises && s'.promises[f] == s.promises[f])
  {
    assert CallOk(s, s.calls[c]);
  }

  /** A settled promise keeps its value and a call keeps the refresh it joined. */
  lemma {:induction false} Remembered(s: State, es: seq<Event>, f: nat, c: nat)
    requires Valid(s) && Runs(s, es)
    requires c in s.calls && s.calls[c].flight == Some(f)
    ensures var s' := After(s, es);
            c in s'.calls && s'.calls[c].flight == Some(f) &&
            (f in s.promises ==> f in s'.promises && s'.promises[f] == s.promises[f])
    decreases |es|
  {
    hide Step, Valid, Enabled;
    if es != [] {
      StepKeeps(s, es[0]);
      StepRemembers(s, es[0], f, c);
      Remembered(Step(s, es[0]), es[1..], f, c);
    }
  }

  /** Every 401 that arrives while a refresh is running joins that refresh, and once the call has
      moved on, in any later state, it did what that refresh's outcome says: sent again if it
      succeeded, gave up with the 401 if it failed. */
  lemma JoinsRunningRefresh(s: State, f: nat, c: nat, es: seq<Event>)
    requires Valid(s) && s.refreshInFlight == Some(f)
    requires Enabled(s, Answered(c, 401)) && s.calls[c].sends == 1 && !s.calls[c].toRefreshPath
    requires Runs(Step(s, Answered(c, 401)), es)
    ensures var s' := After(Step(s, Answered(c, 401)), es);
            c in s'.calls &&
            (s'.calls[c].phase != Waiting ==>
               f in s'.promises &&
               if s'.promises[f] then s'.calls[c].sends == 2
               else s'.calls[c].sends == 1 && s'.calls[c].phase == Done(Answer(401)))
  {
    var joined := Step(s, Answered(c, 401));
    StepKeeps(s, Answered(c, 401));
    RunKeeps(joined, es);
    Remembered(joined, es, f, c);
    var s' := After(joined, es);
    assert CallOk(s', s'.calls[c]);
  }

  /** A waiting call is never stranded: its refresh has settled, or it is the one running. */
  lemma NeverStranded(s: State, c: nat)
    requires Valid(s) && c in s.calls && s.calls[c].phase == Waiting
    ensures Enabled(s, Resumed(c)) ||
            (s.refreshInFlight == s.calls[c].flight && s.calls[c].flight.value in s.refreshes)
  {
    assert CallOk(s, s.calls[c]);
  }

  // ---------- token rotation ----------

  /** Once the successful exchange of a refresh token was received, it is never sent again. */
  ghost predicate NoReuse(log: seq<Traffic>) {
    forall i, j, t :: 0 <= i < j < |log| && log[i] == ReceivedExchange(t) ==> log[j] != SentToken(t)
  }

  ghost predicate Spent(log: seq<Traffic>, t: Token) {
    ReceivedExchange(t) in log
  }

  /** The server and the other writers hand out no token already exchanged, and persisting the
      rotated token does not fail. */
  ghost predicate Orderly(s: State, e: Event)
    requires Enabled(s, e)
  {
    match e
    case Granted(f, _, rotated) => rotated != s.refreshes[f].sent && !Spent(s.log, rotated)
    case Saved(_, ok) => ok
    case SetStored(token) => token.Some? ==> !Spent(s.log, token.value)
    case _ => true
  }

  ghost predicate OrderlyRun(s: State, es: seq<Event>)
    requires Runs(s, es)
    decreases |es|
  {
    es == [] || (Orderly(s, es[0]) && OrderlyRun(Step(s, es[0]), es[1..]))
  }

  ghost predicate Rotating(s: State) {
    && NoReuse(s.log)
    && (forall f :: f in s.refreshes && s.refreshes[f].Saving? ==> !Spent(s.log, s.refreshes[f].rotated))
    && (s.stored.Some? && Spent(s.log, s.stored.value) ==> exists f :: f in s.refreshes && s.refreshes[f].Saving?)
  }

  lemma StepRotates(s: State, e: Event)
    requires Valid(s) && Rotating(s) && Enabled(s, e) && Orderly(s, e)
    ensures Rotating(Step(s, e))
  {
    var s' := Step(s, e);
    match e
    case TokenRead(f, ok) =>
      assert s.refreshes.Keys == {f};
      if ok && s.stored.Some? { assert !Spent(s.log, s.stored.value); }
    case Granted(f, _, rotated) =>
      assert s.refreshes.Keys == {f};
      assert f in s'.refreshes && s'.refreshes[f].Saving?;
    case Saved(f, _) => assert s.refreshes.Keys == {f};
    case Refused(f) => assert s.refreshes.Keys == {f};
    case Answered(c, status) =>
      if f :| f in s.refreshes && s.refreshes[f].Saving? { assert f in s'.refreshes && s'.refreshes[f].Saving?; }
    case _ =>
      assert s'.refreshes == s.refreshes && s'.log == s.log;
  }

  lemma {:induction false} RunRotates(s: State, es: seq<Event>)
    requires Valid(s) && Rotating(s) && Runs(s, es) && OrderlyRun(s, es)
    ensures Rotating(After(s, es))
    decreases |es|
  {
    if es != [] {
      StepKeeps(s, es[0]);
      StepRotates(s, es[0]);
      RunRotates(Step(s, es[0]), es[1..]);
    }
  }

  /** In every run in which persisting a rotated token does not fail, no refresh token is sent again
      after its successful exchange was received. */
  lemma NeverReusesToken(stored: Option<Token>, es: seq<Event>)
    requires Runs(Initial(stored), es) && OrderlyRun(Initial(stored), es)
    ensures NoReuse(After(Initial(stored), es).log)
  {
    RunRotates(Initial(stored), es);
  }

  lemma {:induction false} AfterAppend(s: State, es: seq<Event>, e: Event)
    requires Runs(s, es) && Enabled(After(s, es), e)
    ensures Runs(s, es + [e]) && After(s, es + [e]) == Step(After(s, es), e)
    decreases |es|
  {
    if es == [] {
      assert [e][1..] == [];
      assert es + [e] == [e];
    } else {
      assert (es + [e])[1..] == es[1..] + [e];
      AfterAppend(Step(s, es[0]), es[1..], e);
    }
  }

  lemma FirstExchange() returns (es: seq<Event>)
    ensures Runs(Initial(Some(1)), es)
    ensures var s := After(Initial(Some(1)), es);
            s.refreshes == map[0 := Saving(2)] && s.started == 1 && s.stored == Some(1) &&
            1 in s.calls && s.calls[1] == Call(false, 1, None, Sent) && s.refreshInFlight == Some(0) &&
            s.log == [SentToken(1), ReceivedExchange(1)]
  {
    var s0 := Initial(Some(1));
    es := [];
    AfterAppend(s0, es, Begin(0, false));
    es := es + [Begin(0, false)];
    AfterAppend(s0, es, Begin(1, false));
    es := es + [Begin(1, false)];
    AfterAppend(s0, es, Answered(0, 401));
    es := es + [Answered(0, 401)];
    AfterAppend(s0, es, TokenRead(0, true));
    es := es + [TokenRead(0, true)];
    AfterAppend(s0, es, Granted(0, 7, 2));
    es := es + [Granted(0, 7, 2)];
  }

  /** The proviso is needed: one call's refresh exchanges token 1, persisting its successor fails, and
      the refresh of the next call sends token 1 again. */
  lemma FailedSaveReusesToken() returns (es: seq<Event>)
    ensures Runs(Initial(Some(1)), es) && !NoReuse(After(Initial(Some(1)), es).log)
  {
    var s0 := Initial(Some(1));
    es := FirstExchange();
    AfterAppend(s0, es, Saved(0, false));
    es := es + [Saved(0, false)];
    AfterAppend(s0, es, Answered(1, 401));
    es := es + [Answered(1, 401)];
    AfterAppend(s0, es, TokenRead(1, true));
    es := es + [TokenRead(1, true)];
    var log := After(s0, es).log;
    assert log[1] == ReceivedExchange(1) && log[2] == SentToken(1);
  }
}
