/**
 The test-shop seeder: one transaction per shop, then an atomic rewrite of the credential file.  A run
 may crash before any commit and between a commit and the file's rename.
 */
module Seeder {
  const MAX_SHOPS := 50

  /** The owner is account 0, the ten barbers are accounts 1 to 10. */
  const ACCOUNTS := 11

  type Password = nat

  /** The deterministic address of an account of a shop. */
  datatype Email = Email(shop: nat, account: nat)

  datatype Record = Record(email: Email, password: Password)

  /** A stored hash, kept symbolic: bcrypt accepts exactly the password it was made from. */
  datatype Hash = Hashed(password: Password, salt: nat)

  /** A shop row stands for its whole transaction: the stored hashes of its accounts, in order. */
  datatype World = World(shops: map<nat, seq<Hash>>, file: seq<Record>)

  const EMPTY := World(map[], [])

  /** Where a run crashes: before shop n's commit, or after it and before the file is replaced. */
  datatype Crash = Never | BeforeCommit(n: nat) | BeforeRename(n: nat)

  /** SEED_TEST_SHOPS_COUNT, the run's fate, and the password and salt drawn for each account of a shop. */
  datatype Plan = Plan(count: nat, crash: Crash, draw: (nat, nat) -> Hash)

  datatype Outcome = Done | Crashed | Refused

  datatype Result = Result(world: World, outcome: Outcome)

  /** new Map(records.map(...)): the last record of an address wins. */
  function Known(records: seq<Record>): map<Email, Password> {
    if records == [] then map[] else
    var last := records[|records| - 1];
    Known(records[..|records| - 1])[last.email := last.password]
  }

  predicate AllKnown(known: map<Email, Password>, n: nat) {
    forall a | 0 <= a < ACCOUNTS :: Email(n, a) in known
  }

  function Drawn(plan: Plan, n: nat): (hashes: seq<Hash>)
    ensures |hashes| == ACCOUNTS
  {
    seq(ACCOUNTS, a requires 0 <= a < ACCOUNTS => plan.draw(n, a))
  }

  function RecordsOf(n: nat, hashes: seq<Hash>): (rs: seq<Record>)
    ensures |rs| == |hashes|
  {
    seq(|hashes|, a requires 0 <= a < |hashes| => Record(Email(n, a), hashes[a].password))
  }

  /** The loop of main from shop n on; the records in memory are those in the file. */
  function SeedFrom(w: World, n: nat, plan: Plan): Result
    decreases plan.count + 1 - n
  {
    if n > plan.count then Result(w, Done)
    else if n in w.shops then
      if AllKnown(Known(w.file), n) then SeedFrom(w, n + 1, plan) else Result(w, Refused)
    else if plan.crash == BeforeCommit(n) then Result(w, Crashed)
    else
      var committed := w.(shops := w.shops[n := Drawn(plan, n)]);
      if plan.crash == BeforeRename(n) then Result(committed, Crashed)
      else SeedFrom(committed.(file := w.file + RecordsOf(n, Drawn(plan, n))), n + 1, plan)
  }

  /** A count outside 1 to 50 is refused before anything is read. */
  function Run(w: World, plan: Plan): Result {
    if 1 <= plan.count <= MAX_SHOPS then SeedFrom(w, 1, plan) else Result(w, Refused)
  }

  /** Any number of runs, one after the other. */
  function Runs(w: World, plans: seq<Plan>): World
    decreases |plans|
  {
    if plans == [] then w else Runs(Run(w, plans[0]).world, plans[1..])
  }

  // ---------- the program ----------

  datatype Status = Created(records: seq<Record>) | Skipped | Failed(outcome: Outcome)

  lemma KnownStep(before: seq<Record>, records: seq<Record>, i: nat)
    requires i < |records|
    ensures Known(before + records[..i + 1]) == Known(before + records[..i])[records[i].email := records[i].password]
  {
    var longer := before + records[..i + 1];
    assert longer[..|longer| - 1] == before + records[..i] && longer[|longer| - 1] == records[i];
  }

  method Remember(before: seq<Record>, known: map<Email, Password>, records: seq<Record>)
    returns (r: map<Email, Password>)
    requires known == Known(before)
    ensures r == Known(before + records)
  {
    r := known;
    assert before + records[..0] == before;
    for i := 0 to |records|
      invariant r == Known(before + records[..i])
    {
      r := r[records[i].email := records[i].password];
      KnownStep(before, records, i);
    }
    assert records[..|records|] == records;
  }

  method KnownOf(records: seq<Record>) returns (r: map<Email, Password>)
    ensures r == Known(records)
  {
    r := Remember([], map[], records);
    assert [] + records == records;
  }

  class Machine {
    var shops: map<nat, seq<Hash>>
    var file: seq<Record>

    constructor ()
      ensures Snapshot() == EMPTY
    {
      shops, file := map[], [];
    }

    ghost function Snapshot(): World
      reads this
    {
      World(shops, file)
    }

    method SeedOneShop(n: nat, known: map<Email, Password>, plan: Plan) returns (status: Status)
      modifies this`shops
      ensures old(n in shops) ==>
                shops == old(shops) && status == if AllKnown(known, n) then Skipped else Failed(Refused)
      ensures !old(n in shops) && plan.crash == BeforeCommit(n) ==> shops == old(shops) && status == Failed(Crashed)
      ensures !old(n in shops) && plan.crash != BeforeCommit(n) ==>
                shops == old(shops)[n := Drawn(plan, n)] && status == Created(RecordsOf(n, Drawn(plan, n)))
    {
      if n in shops {
        var missing := set a | 0 <= a < ACCOUNTS && Email(n, a) !in known;
        if missing != {} {
          return Failed(Refused);
        }
        assert forall a | 0 <= a < ACCOUNTS :: Email(n, a) !in known ==> a in missing;
        return Skipped;
      }
      var hashes := Drawn(plan, n);
      if plan.crash == BeforeCommit(n) {
        return Failed(Crashed);
      }
      shops := shops[n := hashes];
      return Created(RecordsOf(n, hashes));
    }

    method SeedShops(plan: Plan) returns (outcome: Outcome)
      modifies this
      ensures Result(Snapshot(), outcome) == Run(old(Snapshot()), plan)
    {
      if !(1 <= plan.count <= MAX_SHOPS) {
        return Refused;
      }
      var allRecords := file;
      var known := KnownOf(file);
      var i := 0;
      while i < plan.count
        invariant 0 <= i <= plan.count
        invariant allRecords == file && known == Known(file)
        invariant SeedFrom(old(Snapshot()), 1, plan) == SeedFrom(Snapshot(), i + 1, plan)
      {
        var status := SeedOneShop(i + 1, known, plan);
        match status {
          case Failed(how) => return how;
          case Skipped =>
          case Created(records) =>
            known := Remember(file, known, records);
            allRecords := allRecords + records;
            if plan.crash == BeforeRename(i + 1) {
              return Crashed;
            }
            file := allRecords;
        }
        i := i + 1;
      }
      return Done;
    }
  }

  // ---------- what every sequence of runs keeps ----------

  /** The records of shops 1 to r, in order. */
  function Ledger(shops: map<nat, seq<Hash>>, r: nat): seq<Record>
    requires forall n | 1 <= n <= r :: n in shops
  {
    if r == 0 then [] else Ledger(shops, r - 1) + RecordsOf(r, shops[r])
  }

  /** Shops 1 to m exist, each with all its accounts, and the file is the ledger of the first r of them. */
  ghost predicate Sound(w: World, m: nat, r: nat) {
    && m <= MAX_SHOPS && (r == m || r + 1 == m)
    && (forall n :: n in w.shops <==> 1 <= n <= m)
    && (forall n :: n in w.shops ==> |w.shops[n]| == ACCOUNTS)
    && w.file == Ledger(w.shops, r)
  }

  lemma {:induction false} KnownKeys(rs: seq<Record>, e: Email)
    ensures e in Known(rs) <==> exists i :: 0 <= i < |rs| && rs[i].email == e
    ensures e in Known(rs) ==> Record(e, Known(rs)[e]) in rs
  {
    if rs != [] {
      var front, last := rs[..|rs| - 1], rs[|rs| - 1];
      KnownKeys(front, e);
      assert rs == front + [last];
      if i :| 0 <= i < |rs| && rs[i].email == e { assert i < |front| ==> front[i].email == e; }
    }
  }

  /** A record is in the ledger exactly when it gives an account of shops 1 to r its stored password. */
  lemma {:induction false} InLedger(shops: map<nat, seq<Hash>>, r: nat, x: Record)
    requires forall n | 1 <= n <= r :: n in shops
    ensures x in Ledger(shops, r) <==>
              var e := x.email;
              1 <= e.shop <= r && e.account < |shops[e.shop]| && x.password == shops[e.shop][e.account].password
  {
    if r > 0 {
      InLedger(shops, r - 1, x);
      var rs := RecordsOf(r, shops[r]);
      assert x in Ledger(shops, r) <==> x in Ledger(shops, r - 1) || x in rs;
      if x.email.shop == r && x.email.account < |shops[r]| { assert rs[x.email.account].email == x.email; }
    }
  }

  /** The file gives an account a password exactly when its shop is recorded, and then it is the stored one. */
  lemma FilePasswords(w: World, m: nat, r: nat, e: Email)
    requires Sound(w, m, r)
    ensures e in Known(w.file) <==> 1 <= e.shop <= r && e.account < ACCOUNTS
    ensures e in Known(w.file) ==> Known(w.file)[e] == w.shops[e.shop][e.account].password
  {
    hide Known;
    hide Ledger;
    KnownKeys(w.file, e);
    if e in Known(w.file) { InLedger(w.shops, r, Record(e, Known(w.file)[e])); }
    if 1 <= e.shop <= r && e.account < ACCOUNTS {
      var x := Record(e, w.shops[e.shop][e.account].password);
      InLedger(w.shops, r, x);
      var i :| 0 <= i < |w.file| && w.file[i] == x;
      assert w.file[i].email == e;
    }
  }

  lemma RecordedIff(w: World, m: nat, r: nat, n: nat)
    requires Sound(w, m, r)
    ensures AllKnown(Known(w.file), n) <==> 1 <= n <= r
  {
    hide Known;
    hide Ledger;
    forall a | 0 <= a < ACCOUNTS ensures Email(n, a) in Known(w.file) <==> 1 <= n <= r {
      FilePasswords(w, m, r, Email(n, a));
    }
    assert AllKnown(Known(w.file), n) ==> Email(n, 0) in Known(w.file);
  }

  lemma {:induction false} LedgerKept(shops: map<nat, seq<Hash>>, shops': map<nat, seq<Hash>>, r: nat)
    requires forall n | 1 <= n <= r :: n in shops && n in shops' && shops'[n] == shops[n]
    ensures Ledger(shops', r) == Ledger(shops, r)
  {
    if r > 0 { LedgerKept(shops, shops', r - 1); }
  }

  /** Committing shop m + 1 leaves the file one shop behind; replacing the file catches up. */
  lemma CommitThenRename(w: World, m: nat, plan: Plan)
    requires Sound(w, m, m) && m < MAX_SHOPS
    ensures var committed := w.(shops := w.shops[m + 1 := Drawn(plan, m + 1)]);
            Sound(committed, m + 1, m) &&
            Sound(committed.(file := w.file + RecordsOf(m + 1, Drawn(plan, m + 1))), m + 1, m + 1)
  {
    LedgerKept(w.shops, w.shops[m + 1 := Drawn(plan, m + 1)], m);
  }

  /** Shops that exist and are recorded are passed over. */
  lemma {:induction false} PassesRecorded(w: World, m: nat, r: nat, n: nat, plan: Plan)
    requires Sound(w, m, r) && 1 <= n
    ensures SeedFrom(w, n, plan) ==
            if n > plan.count || n > r then SeedFrom(w, n, plan)
            else if plan.count <= r then Result(w, Done)
            else SeedFrom(w, r + 1, plan)
    decreases r + 1 - n
  {
    hide Known;
    hide Ledger;
    hide AllKnown;
    if n <= plan.count && n <= r {
      RecordedIff(w, m, r, n);
      PassesRecorded(w, m, r, n + 1, plan);
    }
  }

  /** Where a run that reaches shop n with shops 1 to n - 1 recorded ends: at its crash or its count. */
  function LastShop(n: nat, plan: Plan): nat
    requires n >= 1
  {
    match plan.crash
    case BeforeCommit(k) => if n <= k <= plan.count then k - 1 else plan.count
    case BeforeRename(k) => if n <= k <= plan.count then k else plan.count
    case Never => plan.count
  }

  predicate Hits(n: nat, plan: Plan) {
    !plan.crash.Never? && n <= plan.crash.n <= plan.count
  }

  /** Every shop that w does not have was made with the passwords and salts this plan drew. */
  ghost predicate NewAreDrawn(w: World, w': World, plan: Plan) {
    forall n, a: nat | n in w'.shops && n !in w.shops && a < 11 ::
      a < |w'.shops[n]| && w'.shops[n][a] == plan.draw(n, a)
  }

  lemma {:induction false} CreatesFrom(w: World, m: nat, plan: Plan)
    requires Sound(w, m, m) && m <= plan.count <= MAX_SHOPS
    ensures var r := SeedFrom(w, m + 1, plan);
            var last := LastShop(m + 1, plan);
            r.outcome == (if Hits(m + 1, plan) then Crashed else Done) &&
            Sound(r.world, last, if r.outcome == Crashed && plan.crash.BeforeRename? then last - 1 else last) &&
            (forall n :: n in w.shops ==> r.world.shops[n] == w.shops[n]) && w.file <= r.world.file &&
            NewAreDrawn(w, r.world, plan)
    decreases plan.count - m
  {
    hide Known;
    hide Ledger;
    if m < plan.count {
      var n := m + 1;
      var committed := w.(shops := w.shops[n := Drawn(plan, n)]);
      CommitThenRename(w, m, plan);
      if plan.crash != BeforeCommit(n) && plan.crash != BeforeRename(n) {
        CreatesFrom(committed.(file := w.file + RecordsOf(n, Drawn(plan, n))), n, plan);
      }
    }
  }

  /** A run when every shop is recorded: it creates exactly the missing shops up to its crash or count, as
      drawn, and refuses a count outside 1 to 50. */
  lemma RunWhenRecorded(w: World, m: nat, plan: Plan)
    requires Sound(w, m, m)
    ensures var r := Run(w, plan);
            var fits := 1 <= plan.count <= 50;
            var crashes := fits && Hits(m + 1, plan);
            var last := if fits && m < plan.count then LastShop(m + 1, plan) else m;
            r.outcome == (if !fits then Refused else if crashes then Crashed else Done) &&
            Sound(r.world, last, if crashes && plan.crash.BeforeRename? then last - 1 else last) &&
            (forall n :: n in w.shops ==> r.world.shops[n] == w.shops[n]) && w.file <= r.world.file &&
            NewAreDrawn(w, r.world, plan)
  {
    hide Known;
    hide Ledger;
    hide AllKnown;
    hide SeedFrom;
    if 1 <= plan.count <= MAX_SHOPS {
      PassesRecorded(w, m, m, 1, plan);
      if m < plan.count { CreatesFrom(w, m, plan); }
    }
  }

  /** Once a shop exists without its credentials, no run ever changes anything; a run is done exactly
      when it stops short of it. */
  lemma RunWhenOneIsLost(w: World, m: nat, plan: Plan)
    requires m > 0 && Sound(w, m, m - 1)
    ensures Run(w, plan) == Result(w, if 1 <= plan.count < m then Done else Refused)
  {
    hide Known;
    hide Ledger;
    hide AllKnown;
    if 1 <= plan.count <= MAX_SHOPS {
      PassesRecorded(w, m, m - 1, 1, plan);
      RecordedIff(w, m, m - 1, m);
    }
  }

  lemma {:induction false} LostForGood(w: World, m: nat, plans: seq<Plan>)
    requires m > 0 && Sound(w, m, m - 1)
    ensures Runs(w, plans) == w
    decreases |plans|
  {
    hide Run;
    hide Sound;
    if plans != [] {
      RunWhenOneIsLost(w, m, plans[0]);
      LostForGood(w, m, plans[1..]);
    }
  }

  lemma {:induction false} RunsKeepSound(w: World, m: nat, r: nat, plans: seq<Plan>) returns (m': nat, r': nat)
    requires Sound(w, m, r)
    ensures Sound(Runs(w, plans), m', r')
    ensures forall n :: n in w.shops ==> n in Runs(w, plans).shops && Runs(w, plans).shops[n] == w.shops[n]
    ensures w.file <= Runs(w, plans).file
    decreases |plans|
  {
    hide Ledger;
    m', r' := m, r;
    if r != m {
      LostForGood(w, m, plans);
    } else if plans != [] {
      var plan := plans[0];
      var next := Run(w, plan);
      RunWhenRecorded(w, m, plan);
      var last := if 1 <= plan.count <= MAX_SHOPS && m < plan.count then LastShop(m + 1, plan) else m;
      var lost := next.outcome == Crashed && plan.crash.BeforeRename?;
      m', r' := RunsKeepSound(next.world, last, if lost then last - 1 else last, plans[1..]);
    }
  }

  /** From the empty database, after any runs with any counts and crashes. */
  lemma EveryHistory(plans: seq<Plan>) returns (m: nat, r: nat)
    ensures var w := Runs(EMPTY, plans);
            Sound(w, m, r) && m <= 50 &&
            (forall e :: e in Known(w.file) <==> 1 <= e.shop <= r && e.account < 11) &&
            (forall e :: e in Known(w.file) ==> Known(w.file)[e] == w.shops[e.shop][e.account].password) &&
            (r < m ==> forall more :: Runs(w, more) == w)
  {
    assert Sound(EMPTY, 0, 0);
    hide Known;
    hide Ledger;
    m, r := RunsKeepSound(EMPTY, 0, 0, plans);
    var w := Runs(EMPTY, plans);
    forall e ensures e in Known(w.file) <==> 1 <= e.shop <= r && e.account < ACCOUNTS
      ensures e in Known(w.file) ==> Known(w.file)[e] == w.shops[e.shop][e.account].password
    {
      FilePasswords(w, m, r, e);
    }
    forall more ensures r < m ==> Runs(w, more) == w {
      if r < m { LostForGood(w, m, more); }
    }
  }

  /** Re-running is not always safe: a crash between commit and rename blocks every later run for that shop. */
  lemma RetryIsNotAlwaysSafe(draw: (nat, nat) -> Hash, later: seq<Plan>)
    ensures var w := Run(EMPTY, Plan(1, BeforeRename(1), draw)).world;
            Runs(w, later) == w && Run(w, Plan(1, Never, draw)).outcome == Refused
  {
    var plan := Plan(1, BeforeRename(1), draw);
    var w := Run(EMPTY, plan).world;
    assert w.shops.Keys == {1} && w.file == [];
    assert Ledger(w.shops, 0) == [];
    assert Sound(w, 1, 0);
    LostForGood(w, 1, later);
    RunWhenOneIsLost(w, 1, Plan(1, Never, draw));
  }
}
