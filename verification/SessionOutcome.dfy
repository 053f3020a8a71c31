/**
 What every run of the auth provider shows, read off its events alone: which fetched and stored results
 take effect, and who is signed in after any run.
 */
module SessionOutcome {
  import opened Wrappers
  import opened AuthSession

  predicate Starts(e: Event, id: nat) {
    e == Mount(id) || e == BeginRefresh(id) || e == BeginLogout(id) || (e.BeginLogin? && e.id == id)
  }

  /** A refreshMe, login or logout begins. */
  predicate Mutates(e: Event) {
    e.BeginRefresh? || e.BeginLogin? || e.BeginLogout?
  }

  /** The operation known as id, ids being reused once free, is the one begun at place i. */
  ghost predicate StartedAt(es: seq<Event>, id: nat, i: nat) {
    i < |es| && Starts(es[i], id) && forall j | i < j < |es| :: !Starts(es[j], id)
  }

  ghost predicate MutatedAfter(es: seq<Event>, i: nat) {
    exists j :: i < j < |es| && Mutates(es[j])
  }

  ghost predicate UnmountedAfter(es: seq<Event>, id: nat, i: nat) {
    exists j :: i < j < |es| && es[j] == Unmount(id)
  }

  /** The next event brings a result that counts: a fetch that nothing overtook since it began at place i and,
      if it restores the session, whose provider is still mounted; or a login or logout that completes. */
  ghost predicate Counts(es: seq<Event>, next: Event, me: Option<User>, i: nat) {
    match next
    case FetchArrived(id, found) =>
      StartedAt(es, id, i) && found == me && !MutatedAfter(es, i) &&
      (es[i] == BeginRefresh(id) || (es[i] == Mount(id) && !UnmountedAfter(es, id, i)))
    case Completed(id) =>
      StartedAt(es, id, i) &&
      ((me.Some? && es[i] == BeginLogin(id, me.value)) || (me.None? && es[i] == BeginLogout(id)))
    case _ => false
  }

  ghost predicate Brings(es: seq<Event>, next: Event, me: Option<User>) {
    exists i :: Counts(es, next, me, i)
  }

  // ---------- the pending operations ----------

  lemma OneMore(es: seq<Event>, e: Event, id: nat, i: nat)
    ensures StartedAt(es + [e], id, i) <==>
            if Starts(e, id) then i == |es| else StartedAt(es, id, i)
    ensures i < |es| ==> (MutatedAfter(es + [e], i) <==> MutatedAfter(es, i) || Mutates(e))
    ensures i < |es| ==> (UnmountedAfter(es + [e], id, i) <==> UnmountedAfter(es, id, i) || e == Unmount(id))
    ensures !MutatedAfter(es + [e], |es|) && !UnmountedAfter(es + [e], id, |es|)
  {
    var more := es + [e];
    assert more[|es|] == e && forall k | 0 <= k < |es| :: more[k] == es[k];
    if i < |es| {
      if MutatedAfter(es, i) {
        var j :| i < j < |es| && Mutates(es[j]);
        assert Mutates(more[j]);
      }
      if UnmountedAfter(es, id, i) {
        var j :| i < j < |es| && es[j] == Unmount(id);
        assert more[j] == Unmount(id);
      }
    }
  }

  /** How a pending operation began, and what came after. */
  ghost predicate BegunAs(s: State, es: seq<Event>, id: nat, op: Op, i: nat) {
    StartedAt(es, id, i) &&
    match op
    case Restore(v, cancelled) =>
      es[i] == Mount(id) && v <= s.version && (v < s.version <==> MutatedAfter(es, i)) &&
      (cancelled <==> UnmountedAfter(es, id, i))
    case Refresh(v) => es[i] == BeginRefresh(id) && v <= s.version && (v < s.version <==> MutatedAfter(es, i))
    case Login(user) => es[i] == BeginLogin(id, user)
    case Logout => es[i] == BeginLogout(id)
  }

  ghost predicate Told(s: State, es: seq<Event>, id: nat) {
    id in s.pending ==> exists i :: BegunAs(s, es, id, s.pending[id], i)
  }

  lemma TellsOneMore(s: State, es: seq<Event>, e: Event, id: nat)
    requires Enabled(s, e) && Told(s, es, id)
    ensures Told(Step(s, e), es + [e], id)
  {
    var s' := Step(s, e);
    var more := es + [e];
    if id in s'.pending {
      if Starts(e, id) {
        OneMore(es, e, id, |es|);
        assert BegunAs(s', more, id, s'.pending[id], |es|);
      } else {
        var i: nat :| BegunAs(s, es, id, s.pending[id], i);
        OneMore(es, e, id, i);
        hide StartedAt, MutatedAfter, UnmountedAfter;
        assert more[i] == es[i];
        assert BegunAs(s', more, id, s'.pending[id], i);
      }
    }
  }

  lemma {:induction false} RunSplits(s: State, es: seq<Event>)
    requires Runs(s, es) && es != []
    ensures var front, last := es[..|es| - 1], es[|es| - 1];
            Runs(s, front) && Enabled(After(s, front), last) && After(s, es) == Step(After(s, front), last)
    decreases |es|
  {
    hide Step, Enabled;
    if |es| > 1 {
      RunSplits(Step(s, es[0]), es[1..]);
      assert es[1..][..|es| - 2] == es[..|es| - 1][1..];
    } else {
      assert es[1..] == [];
    }
  }

  lemma {:induction false} RunTells(es: seq<Event>, id: nat)
    requires Runs(INITIAL, es)
    ensures Told(After(INITIAL, es), es, id)
  {
    if es != [] {
      hide Told, Step, Enabled;
      var front, last := es[..|es| - 1], es[|es| - 1];
      RunSplits(INITIAL, es);
      RunTells(front, id);
      TellsOneMore(After(INITIAL, front), front, last, id);
      assert es == front + [last];
    } else {
      assert INITIAL.pending == map[];
    }
  }

  // ---------- what takes effect ----------

  ghost predicate Shows(s: State, me: Option<User>) {
    s.user == me && s.status == if me.Some? then Authenticated else Unauthenticated
  }

  lemma StepShows(s: State, es: seq<Event>, e: Event)
    requires Enabled(s, e) && Told(s, es, e.id)
    ensures forall me :: Brings(es, e, me) ==> Shows(Step(s, e), me)
    ensures (forall me :: !Brings(es, e, me)) ==> Step(s, e).user == s.user && Step(s, e).status == s.status
  {
    if e.FetchArrived? || e.Completed? {
      var i: nat :| BegunAs(s, es, e.id, s.pending[e.id], i);
      assert forall me, j: nat :: Counts(es, e, me, j) ==> j == i;
      hide StartedAt, MutatedAfter, UnmountedAfter;
      forall me ensures Brings(es, e, me) <==> Counts(es, e, me, i) {}
      assert forall me :: Counts(es, e, me, i) ==> Shows(Step(s, e), me);
      if Step(s, e).user != s.user || Step(s, e).status != s.status {
        assert Counts(es, e, Step(s, e).user, i);
      }
    }
  }

  /** Main result, for every event of every run: user and status become those of the result the event
      brings, if it counts, and stay as they are otherwise. */
  lemma EventTakesEffectIff(es: seq<Event>, e: Event)
    requires Runs(INITIAL, es) && Runs(INITIAL, es + [e])
    ensures var s, s' := After(INITIAL, es), After(INITIAL, es + [e]);
            (forall me :: Brings(es, e, me) ==> Shows(s', me)) &&
            ((forall me :: !Brings(es, e, me)) ==> s'.user == s.user && s'.status == s.status)
  {
    RunSplits(INITIAL, es + [e]);
    assert (es + [e])[..|es|] == es;
    RunTells(es, e.id);
    StepShows(After(INITIAL, es), es, e);
  }

  ghost predicate BringsAt(es: seq<Event>, k: nat, me: Option<User>) {
    k < |es| && Brings(es[..k], es[k], me)
  }

  /** The last result that counts. */
  ghost predicate LastBrought(es: seq<Event>, k: nat, me: Option<User>) {
    BringsAt(es, k, me) && forall j: nat, other | k < j :: !BringsAt(es, j, other)
  }

  ghost predicate ShowsLast(s: State, es: seq<Event>) {
    if exists k: nat, me :: BringsAt(es, k, me) then exists k: nat, me :: LastBrought(es, k, me) && Shows(s, me)
    else s.user.None? && s.status.Loading?
  }

  lemma BringsOneMore(es: seq<Event>, e: Event, k: nat, me: Option<User>)
    ensures BringsAt(es + [e], k, me) <==> BringsAt(es, k, me) || (k == |es| && Brings(es, e, me))
  {
    hide Brings;
    if k <= |es| { assert (es + [e])[..k] == es[..k]; }
    assert es[..|es|] == es;
  }

  lemma LastOneMore(s: State, s': State, es: seq<Event>, e: Event)
    requires ShowsLast(s, es)
    requires forall me :: Brings(es, e, me) ==> Shows(s', me)
    requires (forall me :: !Brings(es, e, me)) ==> s'.user == s.user && s'.status == s.status
    ensures ShowsLast(s', es + [e])
  {
    var more := es + [e];
    forall k: nat, me
      ensures BringsAt(more, k, me) <==> BringsAt(es, k, me) || (k == |es| && Brings(es, e, me))
      ensures BringsAt(es, k, me) ==> k < |es|
    {
      BringsOneMore(es, e, k, me);
    }
    hide Brings, BringsAt;
    if me :| Brings(es, e, me) {
      assert BringsAt(more, |es|, me);
      assert LastBrought(more, |es|, me) && Shows(s', me);
    } else if k0: nat, me0 :| BringsAt(es, k0, me0) {
      var k: nat, me :| LastBrought(es, k, me) && Shows(s, me);
      assert BringsAt(more, k0, me0);
      assert LastBrought(more, k, me) && Shows(s', me);
    }
  }

  /** Main result: after any run the provider shows the last result that counted, and is still loading if
      none did. */
  lemma {:induction false} ShowsTheLastThatCounts(es: seq<Event>)
    requires Runs(INITIAL, es)
    ensures ShowsLast(After(INITIAL, es), es)
  {
    if es != [] {
      hide ShowsLast, Brings, Shows, Step, Enabled;
      var front, last := es[..|es| - 1], es[|es| - 1];
      RunSplits(INITIAL, es);
      ShowsTheLastThatCounts(front);
      assert es == front + [last];
      EventTakesEffectIff(front, last);
      LastOneMore(After(INITIAL, front), After(INITIAL, es), front, last);
    }
  }
}
