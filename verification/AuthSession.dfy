/**
 The mobile auth provider: session restore, refreshMe, logins and logout as they interleave.  Every
 await is a step boundary; results arrive in any order, or fail.
 */
module AuthSession {
  import opened Wrappers

  type User = nat

  datatype Status = Loading | Authenticated | Unauthenticated

  /** An operation suspended at its await. */
  datatype Op =
    | Restore(startedAt: nat, cancelled: bool)
    | Refresh(startedAt: nat)
    | Login(user: User)
    | Logout

  datatype State = State(user: Option<User>, status: Status, version: nat, pending: map<nat, Op>)

  const INITIAL := State(None, Loading, 0, map[])

  datatype Event =
    | Mount(id: nat)
    | Unmount(id: nat)
    | BeginRefresh(id: nat)
    | BeginLogin(id: nat, user: User)
    | BeginLogout(id: nat)
    | FetchArrived(id: nat, me: Option<User>)
    | Completed(id: nat)                // a login persisted its token, a logout cleared it
    | Failed(id: nat)                   // storage threw: no state is set

  predicate Enabled(s: State, e: Event) {
    match e
    case Mount(id) => id !in s.pending
    case Unmount(id) => id in s.pending && s.pending[id].Restore?
    case BeginRefresh(id) => id !in s.pending
    case BeginLogin(id, _) => id !in s.pending
    case BeginLogout(id) => id !in s.pending
    case FetchArrived(id, _) => id in s.pending && (s.pending[id].Restore? || s.pending[id].Refresh?)
    case Completed(id) => id in s.pending && (s.pending[id].Login? || s.pending[id].Logout?)
    case Failed(id) => id in s.pending
  }

  function Applied(s: State, me: Option<User>): State {
    s.(user := me, status := if me.Some? then Authenticated else Unauthenticated)
  }

  function Step(s: State, e: Event): State
    requires Enabled(s, e)
  {
    match e
    case Mount(id) => s.(pending := s.pending[id := Restore(s.version, false)])
    case Unmount(id) => s.(pending := s.pending[id := s.pending[id].(cancelled := true)])
    case BeginRefresh(id) => s.(version := s.version + 1, pending := s.pending[id := Refresh(s.version + 1)])
    case BeginLogin(id, user) => s.(version := s.version + 1, pending := s.pending[id := Login(user)])
    case BeginLogout(id) => s.(version := s.version + 1, pending := s.pending[id := Logout])
    case FetchArrived(id, me) =>
      var op := s.pending[id];
      var s' := s.(pending := s.pending - {id});
      if op.startedAt != s.version || (op.Restore? && op.cancelled) then s' else Applied(s', me)
    case Completed(id) =>
      Applied(s.(pending := s.pending - {id}), if s.pending[id].Login? then Some(s.pending[id].user) else None)
    case Failed(id) => s.(pending := s.pending - {id})
  }

  // ---------- the program ----------

  /** The provider's state and its suspended operations; one method per point where execution starts
      or resumes. */
  class AuthProvider {
    var user: Option<User>
    var status: Status
    var authMutationVersion: nat
    var pending: map<nat, Op>

    constructor ()
      ensures Snapshot() == INITIAL
    {
      user, status, authMutationVersion, pending := None, Loading, 0, map[];
    }

    ghost function Snapshot(): State
      reads this
    {
      State(user, status, authMutationVersion, pending)
    }

    method OnMount(id: nat)
      requires Enabled(Snapshot(), Mount(id))
      modifies this
      ensures Snapshot() == Step(old(Snapshot()), Mount(id))
    {
      var startedAtVersion := authMutationVersion;
      pending := pending[id := Restore(startedAtVersion, false)];
    }

    method OnUnmount(id: nat)
      requires Enabled(Snapshot(), Unmount(id))
      modifies this
      ensures Snapshot() == Step(old(Snapshot()), Unmount(id))
    {
      pending := pending[id := pending[id].(cancelled := true)];
    }

    method RefreshMe(id: nat)
      requires Enabled(Snapshot(), BeginRefresh(id))
      modifies this
      ensures Snapshot() == Step(old(Snapshot()), BeginRefresh(id))
    {
      authMutationVersion := authMutationVersion + 1;
      pending := pending[id := Refresh(authMutationVersion)];
    }

    method ApplyAuthResult(id: nat, result: User)
      requires Enabled(Snapshot(), BeginLogin(id, result))
      modifies this
      ensures Snapshot() == Step(old(Snapshot()), BeginLogin(id, result))
    {
      authMutationVersion := authMutationVersion + 1;
      pending := pending[id := Login(result)];
    }

    method LogOut(id: nat)
      requires Enabled(Snapshot(), BeginLogout(id))
      modifies this
      ensures Snapshot() == Step(old(Snapshot()), BeginLogout(id))
    {
      authMutationVersion := authMutationVersion + 1;
      pending := pending[id := Logout];
    }

    /** The restore's and refreshMe's continuation. */
    method OnFetched(id: nat, me: Option<User>)
      requires Enabled(Snapshot(), FetchArrived(id, me))
      modifies this
      ensures Snapshot() == Step(old(Snapshot()), FetchArrived(id, me))
    {
      var op := pending[id];
      pending := pending - {id};
      if op.Restore? && op.cancelled {
        return;
      }
      if authMutationVersion != op.startedAt {
        return;
      }
      user := me;
      status := if me.Some? then Authenticated else Unauthenticated;
    }

    /** The continuation of a login after its token is stored, and of a logout after its is cleared. */
    method OnStored(id: nat)
      requires Enabled(Snapshot(), Completed(id))
      modifies this
      ensures Snapshot() == Step(old(Snapshot()), Completed(id))
    {
      var op := pending[id];
      pending := pending - {id};
      if op.Login? {
        user := Some(op.user);
        status := Authenticated;
      } else {
        user := None;
        status := Unauthenticated;
      }
    }
  }

  // ---------- runs ----------

  predicate Runs(s: State, es: seq<Event>)
    decreases |es|
  {
    es == [] || (Enabled(s, es[0]) && Runs(Step(s, es[0]), es[1..]))
  }

  function After(s: State, es: seq<Event>): State
    requires Runs(s, es)
    decreases |es|
  {
    if es == [] then s else After(Step(s, es[0]), es[1..])
  }

  ghost predicate Valid(s: State) {
    && (s.status == Authenticated <==> s.user.Some?)
    && (forall id :: id in s.pending && (s.pending[id].Restore? || s.pending[id].Refresh?) ==>
          s.pending[id].startedAt <= s.version)
  }

  lemma {:induction false} RunKeeps(s: State, es: seq<Event>)
    requires Valid(s) && Runs(s, es)
    ensures Valid(After(s, es))
    decreases |es|
  {
    if es != [] { RunKeeps(Step(s, es[0]), es[1..]); }
  }

  /** In every reachable state the status is "authenticated" exactly when there is a user. */
  lemma StatusMatchesUser(es: seq<Event>)
    requires Runs(INITIAL, es)
    ensures After(INITIAL, es).status == Authenticated <==> After(INITIAL, es).user.Some?
  {
    RunKeeps(INITIAL, es);
  }

  /** No operation begins. */
  predicate Quiet(es: seq<Event>) {
    forall i :: 0 <= i < |es| ==>
      !es[i].Mount? && !es[i].BeginRefresh? && !es[i].BeginLogin? && !es[i].BeginLogout?
  }

  /** Every pending fetch began before the current version. */
  ghost predicate FetchesStale(s: State) {
    forall id :: id in s.pending && (s.pending[id].Restore? || s.pending[id].Refresh?) ==>
      s.pending[id].startedAt < s.version
  }

  /** The user and status that the completions of a run leave behind, none of them if there are none. */
  function LastCompletion(s: State, es: seq<Event>): Option<Option<User>>
    requires Runs(s, es)
    decreases |es|
  {
    if es == [] then None else
    var later := LastCompletion(Step(s, es[0]), es[1..]);
    if later.Some? then later
    else match es[0]
         case Completed(id) => Some(if s.pending[id].Login? then Some(s.pending[id].user) else None)
         case _ => None
  }

  /** While no operation begins and every fetch is stale, only completions of logins and logouts
      change what the user sees, and the last of them decides. */
  lemma {:induction false} OnlyCompletionsCount(s: State, es: seq<Event>)
    requires Runs(s, es) && Quiet(es) && FetchesStale(s)
    ensures var s', last := After(s, es), LastCompletion(s, es);
            match last
            case None => s'.user == s.user && s'.status == s.status
            case Some(me) => s'.user == me && s'.status == if me.Some? then Authenticated else Unauthenticated
    decreases |es|
  {
    if es != [] {
      assert Quiet(es[1..]);
      assert FetchesStale(Step(s, es[0])) by { assert Quiet([es[0]]) by { assert es[0] == es[0]; } }
      OnlyCompletionsCount(Step(s, es[0]), es[1..]);
    }
  }

  /** Whether some other login, for another user, or logout is pending. */
  ghost predicate Contested(s: State, user: User) {
    exists id :: id in s.pending && (s.pending[id].Logout? || (s.pending[id].Login? && s.pending[id].user != user))
  }

  lemma {:induction false} UncontestedCompletions(s: State, es: seq<Event>, user: User)
    requires Runs(s, es) && Quiet(es) && !Contested(s, user)
    ensures LastCompletion(s, es).Some? ==> LastCompletion(s, es).value == Some(user)
    decreases |es|
  {
    if es != [] {
      var s' := Step(s, es[0]);
      assert !Contested(s', user) by {
        assert Quiet([es[0]]);
        forall i | i in s'.pending
          ensures !s'.pending[i].Logout? && (s'.pending[i].Login? ==> s'.pending[i].user == user)
        {
          assert i in s.pending;
        }
      }
      assert Quiet(es[1..]);
      UncontestedCompletions(s', es[1..], user);
    }
  }

  lemma {:induction false} CompletionHappened(s: State, es: seq<Event>, i: nat)
    requires Runs(s, es) && i < |es| && es[i].Completed?
    ensures LastCompletion(s, es).Some?
    decreases |es|
  {
    if i > 0 {
      assert es[1..][i - 1] == es[i];
      CompletionHappened(Step(s, es[0]), es[1..], i - 1);
    }
  }

  lemma {:induction false} NothingElseCompletes(s: State, es: seq<Event>, id: nat)
    requires Runs(s, es) && Quiet(es) && Completed(id) !in es
    requires forall i :: i in s.pending && i != id ==> !s.pending[i].Login? && !s.pending[i].Logout?
    ensures LastCompletion(s, es).None?
    decreases |es|
  {
    if es != [] {
      assert es[0] in es && forall e :: e in es[1..] ==> e in es;
      assert Quiet(es[1..]) && Quiet([es[0]]);
      NothingElseCompletes(Step(s, es[0]), es[1..], id);
    }
  }

  /** Main result: a login begun while no other login or logout is pending.  Until it completes, no
      restore or refreshMe begun earlier changes user or status, whatever they bring and in whatever
      order; from its completion on, its user is the one signed in. */
  lemma LoginIsNotOverwritten(s: State, id: nat, user: User, es: seq<Event>)
    requires Valid(s) && Enabled(s, BeginLogin(id, user))
    requires forall i :: i in s.pending ==> !s.pending[i].Login? && !s.pending[i].Logout?
    requires Quiet(es) && Runs(Step(s, BeginLogin(id, user)), es)
    ensures var s' := After(Step(s, BeginLogin(id, user)), es);
            if Completed(id) in es then s'.user == Some(user) && s'.status == Authenticated
            else (s'.user == s.user && s'.status == s.status)
  {
    var s0 := Step(s, BeginLogin(id, user));
    OnlyCompletionsCount(s0, es);
    UncontestedCompletions(s0, es, user);
    assert !Contested(s0, user);
    if Completed(id) in es {
      var i :| 0 <= i < |es| && es[i] == Completed(id);
      CompletionHappened(s0, es, i);
    } else {
      NothingElseCompletes(s0, es, id);
    }
  }

  /** The proviso is exact: a completed login is guaranteed to stay the signed-in user, whatever the
      order of the pending results, if and only if no logout and no login of another user was pending
      when it began. */
  lemma SettlesIffUncontested(s: State, id: nat, user: User)
    requires Valid(s) && Enabled(s, BeginLogin(id, user))
    ensures var s0 := Step(s, BeginLogin(id, user));
            (forall es :: Quiet(es) && Runs(s0, es) && Completed(id) in es ==> After(s0, es).user == Some(user)) <==>
            !Contested(s, user)
  {
    var s0 := Step(s, BeginLogin(id, user));
    if Contested(s, user) {
      var other :| other in s.pending &&
        (s.pending[other].Logout? || (s.pending[other].Login? && s.pending[other].user != user));
      var es := [Completed(id), Completed(other)];
      var s1 := Step(s0, Completed(id));
      assert es[1..] == [Completed(other)] && [Completed(other)][1..] == [];
      var s2 := Step(s1, Completed(other));
      assert Runs(s2, []) && After(s2, []) == s2;
      assert Runs(s1, es[1..]) && After(s1, es[1..]) == s2;
      assert Runs(s0, es) && After(s0, es) == s2;
      assert Quiet(es) && es[0] == Completed(id) && Completed(id) in es;
      assert After(s0, es).user != Some(user);
    } else {
      forall es | Quiet(es) && Runs(s0, es) && Completed(id) in es
        ensures After(s0, es).user == Some(user)
      {
        OnlyCompletionsCount(s0, es);
        UncontestedCompletions(s0, es, user);
        var i :| 0 <= i < |es| && es[i] == Completed(id);
        CompletionHappened(s0, es, i);
      }
      assert !Contested(s, user);
    }
  }
}
