/** The importer's loops over a database they change row by row. */
module ImporterProgram {
  import opened Wrappers
  import opened Importer

  class Database {
    var db: Db

    constructor (start: Db)
      ensures db == start
    {
      db := start;
    }

    /** None on a unique violation. */
    method CreateCountry(c: CountrySource) returns (id: Option<Id>)
      requires c.iso !in db.countries
      modifies this
      ensures id.None? <==> CountryClash(old(db), c)
      ensures db == (if id.Some? then AddCountry(old(db), c) else old(db))
      ensures id.Some? ==> id.value == old(db).next
    {
      if exists iso :: iso in db.countries && SameOtherKey(c, db.countries[iso].slug, db.countries[iso].code3) {
        return None;
      }
      id := Some(db.next);
      db := AddCountry(db, c);
    }

    method CreateRegion(country: Id, r: RegionSource) returns (id: Id)
      requires r.country in db.countries && db.countries[r.country].id == country
      requires Key(country, r.slug) !in db.regions
      modifies this
      ensures db == AddRegion(old(db), r) && id == old(db).next
    {
      id := db.next;
      db := db.(regions := db.regions[Key(country, r.slug) := RegionRow(id, r.data)], next := id + 1);
    }

    /** Only what the payload has is written; false on a unique violation. */
    method UpdateCity(p: Place, country: Id, region: Option<Id>, data: string) returns (ok: bool)
      requires p in db.cities
      modifies this
      ensures !ok <==> exists q :: q in old(db).cities && q != p && q.slug == p.slug &&
                                   old(db).cities[q].country == Some(country)
      ensures ok ==> db == old(db).(cities := old(db).cities[p :=
                             CityRow(Some(country), old(db).cities[p].name, region, true, data)])
      ensures !ok ==> db == old(db)
    {
      ok := !exists q :: q in db.cities && q != p && q.slug == p.slug && db.cities[q].country == Some(country);
      if ok {
        var row := db.cities[p].(country := Some(country), region := region, imported := true, data := data);
        db := db.(cities := db.cities[p := row]);
      }
    }
  }

  /** What a map of ids holds: every country's row id. */
  ghost predicate KnowsCountries(ids: map<string, Id>, d: Db) {
    ids.Keys == d.countries.Keys && forall iso :: iso in ids ==> ids[iso] == d.countries[iso].id
  }

  ghost predicate KnowsRegions(ids: map<Key, Id>, d: Db) {
    ids.Keys == d.regions.Keys && forall k :: k in ids ==> ids[k] == d.regions[k].id
  }

  function Lookup(ids: map<string, Id>, state: Option<string>): Option<Id> {
    if state.Some? && state.value in ids then Some(ids[state.value]) else None
  }

  method WriteCountries(w: Database, cs: seq<CountrySource>, lives: nat)
    returns (outcome: Outcome, left: nat, countryIds: map<string, Id>)
    modifies w
    ensures Progress(w.db, left, outcome) == CountriesFrom(old(w.db), cs, lives)
    ensures KnowsCountries(countryIds, w.db)
  {
    countryIds := map iso | iso in w.db.countries :: w.db.countries[iso].id;
    left := lives;
    for i := 0 to |cs|
      invariant CountriesFrom(old(w.db), cs, lives) == CountriesFrom(w.db, cs[i..], left)
      invariant KnowsCountries(countryIds, w.db)
    {
      assert cs[i..][1..] == cs[i + 1..];
      if cs[i].iso in countryIds {
        continue;
      }
      if left == 0 {
        return Stopped, 0, countryIds;
      }
      var created := w.CreateCountry(cs[i]);
      if created.None? {
        return Rejected, left, countryIds;
      }
      countryIds := countryIds[cs[i].iso := created.value];
      left := left - 1;
    }
    outcome := Finished;
  }

  /** Region rows already there keep their meaning when others are added. */
  lemma {:induction false} RegionOfStable(d: Db, d': Db, rs: seq<RegionSource>, state: Option<string>)
    requires d'.countries == d.countries
    requires forall k :: k in d.regions ==> k in d'.regions && d'.regions[k] == d.regions[k]
    requires forall r :: r in rs ==> r.country in d.countries && Key(d.countries[r.country].id, r.slug) in d.regions
    ensures RegionOf(d', rs, state) == RegionOf(d, rs, state)
  {
    if rs != [] {
      assert rs[|rs| - 1] in rs;
      RegionOfStable(d, d', rs[..|rs| - 1], state);
    }
  }

  ghost predicate KnowsStates(ids: map<string, Id>, d: Db, rs: seq<RegionSource>) {
    forall state :: Lookup(ids, state) == RegionOf(d, rs, state)
  }

  lemma LastRegionWins(d: Db, rs: seq<RegionSource>, r: RegionSource, state: Option<string>)
    requires r.country in d.countries && Key(d.countries[r.country].id, r.slug) in d.regions
    ensures RegionOf(d, rs + [r], state) ==
            if state == Some(r.sourceId) then Some(d.regions[Key(d.countries[r.country].id, r.slug)].id)
            else RegionOf(d, rs, state)
  {
    var all := rs + [r];
    assert all[|all| - 1] == r && all[..|all| - 1] == rs;
  }

  ghost predicate AllThere(d: Db, rs: seq<RegionSource>) {
    forall r :: r in rs ==> r.country in d.countries && Key(d.countries[r.country].id, r.slug) in d.regions
  }

  lemma StateLearned(ids: map<string, Id>, d: Db, d': Db, rs: seq<RegionSource>, r: RegionSource, id: Id)
    requires KnowsStates(ids, d, rs) && d'.countries == d.countries
    requires forall k :: k in d.regions ==> k in d'.regions && d'.regions[k] == d.regions[k]
    requires AllThere(d, rs)
    requires r.country in d.countries && Key(d.countries[r.country].id, r.slug) in d'.regions
    requires d'.regions[Key(d.countries[r.country].id, r.slug)].id == id
    ensures KnowsStates(ids[r.sourceId := id], d', rs + [r]) && AllThere(d', rs + [r])
  {
    forall state
      ensures Lookup(ids[r.sourceId := id], state) == RegionOf(d', rs + [r], state)
    {
      hide RegionOf;
      LastRegionWins(d', rs, r, state);
      RegionOfStable(d, d', rs, state);
      assert Lookup(ids, state) == RegionOf(d, rs, state);
    }
  }

  lemma NoRegionsLeft(d: Db, rs: seq<RegionSource>, lives: nat)
    ensures rs[|rs|..] == [] && RegionsFrom(d, [], lives) == Progress(d, lives, Finished)
    ensures rs[0..] == rs && KnowsStates(map[], d, rs[..0]) && AllThere(d, rs[..0])
  {
  }

  /** One turn of the loop over regions. */
  lemma RegionsTurn(d: Db, rs: seq<RegionSource>, i: nat, lives: nat)
    requires i < |rs| && forall r :: r in rs ==> r.country in d.countries
    ensures var there := Key(d.countries[rs[i].country].id, rs[i].slug) in d.regions;
            RegionsFrom(d, rs[i..], lives) ==
            if there then RegionsFrom(d, rs[i + 1..], lives)
            else if lives == 0 then Progress(d, 0, Stopped)
            else RegionsFrom(AddRegion(d, rs[i]), rs[i + 1..], lives - 1)
  {
    assert rs[i..][1..] == rs[i + 1..];
  }

  /** What the loop over regions knows: all rows by key, and the rows of the regions it has passed. */
  ghost predicate KnowsSoFar(byKey: map<Key, Id>, regionIds: map<string, Id>, d: Db, rs: seq<RegionSource>) {
    KnowsRegions(byKey, d) && KnowsStates(regionIds, d, rs) && AllThere(d, rs)
  }

  lemma AllPassed(byKey: map<Key, Id>, ids: map<string, Id>, d: Db, rs: seq<RegionSource>)
    requires KnowsSoFar(byKey, ids, d, rs[..|rs|])
    ensures KnowsStates(ids, d, rs)
  {
    assert rs[..|rs|] == rs;
  }

  lemma FoundRegion(byKey: map<Key, Id>, ids: map<string, Id>, d: Db, rs: seq<RegionSource>, r: RegionSource)
    requires KnowsSoFar(byKey, ids, d, rs) && r.country in d.countries
    ensures var key := Key(d.countries[r.country].id, r.slug);
            (key in byKey <==> key in d.regions) &&
            (key in byKey ==> KnowsSoFar(byKey, ids[r.sourceId := byKey[key]], d, rs + [r]))
  {
    var key := Key(d.countries[r.country].id, r.slug);
    if key in byKey {
      hide KnowsStates, AllThere;
      StateLearned(ids, d, d, rs, r, byKey[key]);
    }
  }

  lemma CreatedRegion(byKey: map<Key, Id>, ids: map<string, Id>, d: Db, rs: seq<RegionSource>, r: RegionSource)
    requires KnowsSoFar(byKey, ids, d, rs) && r.country in d.countries
    requires Key(d.countries[r.country].id, r.slug) !in d.regions
    ensures var key := Key(d.countries[r.country].id, r.slug);
            KnowsSoFar(byKey[key := d.next], ids[r.sourceId := d.next], AddRegion(d, r), rs + [r])
  {
    hide KnowsStates, AllThere;
    StateLearned(ids, d, AddRegion(d, r), rs, r, d.next);
  }

  method WriteRegions(w: Database, rs: seq<RegionSource>, countryIds: map<string, Id>, lives: nat)
    returns (outcome: Outcome, left: nat, regionIds: map<string, Id>)
    requires KnowsCountries(countryIds, w.db) && forall r :: r in rs ==> r.country in w.db.countries
    modifies w
    ensures Progress(w.db, left, outcome) == RegionsFrom(old(w.db), rs, lives)
    ensures w.db.countries == old(w.db).countries
    ensures outcome == Finished ==> KnowsStates(regionIds, w.db, rs)
  {
    NoRegionsLeft(w.db, rs, lives);
    var byKey := map k | k in w.db.regions :: w.db.regions[k].id;
    regionIds := map[];
    left := lives;
    assert KnowsSoFar(byKey, regionIds, w.db, rs[..0]);
    hide KnowsSoFar, RegionsFrom;
    for i := 0 to |rs|
      invariant w.db.countries == old(w.db).countries
      invariant RegionsFrom(old(w.db), rs, lives) == RegionsFrom(w.db, rs[i..], left)
      invariant KnowsSoFar(byKey, regionIds, w.db, rs[..i])
    {
      var r := rs[i];
      RegionsTurn(w.db, rs, i, left);
      FoundRegion(byKey, regionIds, w.db, rs[..i], r);
      assert rs[..i + 1] == rs[..i] + [r];
      var key := Key(countryIds[r.country], r.slug);
      if key in byKey {
        regionIds := regionIds[r.sourceId := byKey[key]];
        continue;
      }
      if left == 0 {
        return Stopped, 0, regionIds;
      }
      CreatedRegion(byKey, regionIds, w.db, rs[..i], r);
      var id := w.CreateRegion(countryIds[r.country], r);
      regionIds := regionIds[r.sourceId := id];
      byKey := byKey[key := id];
      left := left - 1;
    }
    NoRegionsLeft(w.db, rs, left);
    AllPassed(byKey, regionIds, w.db, rs);
    outcome := Finished;
  }

  lemma CountriesKept(ids: map<string, Id>, d: Db, d': Db)
    requires KnowsCountries(ids, d) && d'.countries == d.countries
    ensures KnowsCountries(ids, d')
  {
  }

  lemma StatesKept(ids: map<string, Id>, d: Db, d': Db, rs: seq<RegionSource>)
    requires KnowsStates(ids, d, rs) && d'.countries == d.countries && d'.regions == d.regions
    ensures KnowsStates(ids, d', rs)
  {
    forall state ensures Lookup(ids, state) == RegionOf(d', rs, state) { RegionOfIgnoresCities(d, d', rs, state); }
  }

  /** One transaction of upserts; None rolls everything back. */
  method CommitBatch(
    w: Database, src: Source, batch: seq<CitySource>, countryIds: map<string, Id>, regionIds: map<string, Id>)
    returns (ok: bool)
    requires KnowsCountries(countryIds, w.db) && KnowsStates(regionIds, w.db, src.regions)
    requires forall c :: c in batch ==> c.country in w.db.countries
    modifies w
    ensures match UpsertAll(old(w.db), src, batch)
            case Some(d) => ok && w.db == d
            case None => !ok && w.db == old(w.db)
  {
    var tx := w.db;
    for i := 0 to |batch|
      invariant w.db == old(w.db)
      invariant tx.countries == w.db.countries && tx.regions == w.db.regions
      invariant KnowsStates(regionIds, tx, src.regions)
      invariant UpsertAll(w.db, src, batch) == UpsertAll(tx, src, batch[i..])
    {
      var c := batch[i];
      assert batch[i..][1..] == batch[i + 1..];
      var id := countryIds[c.country];
      assert Lookup(regionIds, c.state) == RegionOf(tx, src.regions, c.state);
      if !HasCity(tx, id, c.slug) {
        var place := Place(c.code, c.slug);
        if place in tx.cities {
          return false;
        }
        ghost var before := tx;
        tx := tx.(cities := tx.cities[place := CityRow(Some(id), c.name, Lookup(regionIds, c.state), true, c.data)]);
        StatesKept(regionIds, before, tx, src.regions);
      }
    }
    w.db := tx;
    return true;
  }

  /** One turn of the loop over legacy cities. */
  lemma LegacyTurn(d: Db, src: Source, i: nat, lives: nat)
    requires i < |src.legacy| && lives > 0 && forall l :: l in src.legacy ==> l.country in d.countries
    requires PlaceOf(src.legacy[i]) in d.cities
    ensures var l := src.legacy[i];
            var d' := d.(cities := d.cities[PlaceOf(l) := Filled(d, src, l, d.cities[PlaceOf(l)])]);
            BackfillFrom(d, src, src.legacy[i..], lives) ==
            if BackfillClash(d, l) then Progress(d, lives, Rejected)
            else BackfillFrom(d', src, src.legacy[i + 1..], lives - 1)
  {
    hide BackfillClash, Filled;
    assert src.legacy[i..][1..] == src.legacy[i + 1..];
  }

  method WriteLegacy(
    w: Database, src: Source, countryIds: map<string, Id>, regionIds: map<string, Id>, lives: nat)
    returns (outcome: Outcome, left: nat)
    requires KnowsCountries(countryIds, w.db) && KnowsStates(regionIds, w.db, src.regions)
    requires LegacyPresent(w.db, src) && forall l :: l in src.legacy ==> l.country in w.db.countries
    modifies w
    ensures Progress(w.db, left, outcome) == BackfillFrom(old(w.db), src, src.legacy, lives)
    ensures KnowsStates(regionIds, w.db, src.regions)
  {
    left := lives;
    for i := 0 to |src.legacy|
      invariant w.db.countries == old(w.db).countries && w.db.regions == old(w.db).regions
      invariant w.db.cities.Keys == old(w.db).cities.Keys
      invariant KnowsStates(regionIds, w.db, src.regions)
      invariant BackfillFrom(old(w.db), src, src.legacy, lives) == BackfillFrom(w.db, src, src.legacy[i..], left)
    {
      var l := src.legacy[i];
      if left == 0 {
        return Stopped, 0;
      }
      LegacyTurn(w.db, src, i, left);
      ghost var before := w.db;
      assert PlaceOf(l) in w.db.cities && Lookup(regionIds, l.state) == RegionOf(w.db, src.regions, l.state);
      var ok := w.UpdateCity(PlaceOf(l), countryIds[l.country], Lookup(regionIds, l.state), l.data);
      if !ok {
        return Rejected, left;
      }
      StatesKept(regionIds, before, w.db, src.regions);
      left := left - 1;
    }
    outcome := Finished;
  }

  lemma NothingRemains(d: Db, cs: seq<CitySource>)
    ensures cs[|cs|..] == [] && Remaining(d, []) == [] && cs[0..] == cs
  {
  }

  lemma RemainingStep(d: Db, cs: seq<CitySource>, i: nat)
    requires i < |cs| && forall c :: c in cs ==> c.country in d.countries
    ensures Remaining(d, cs[i..]) ==
            (if HasImported(d, d.countries[cs[i].country].id, cs[i].slug) then [] else [cs[i]]) +
            Remaining(d, cs[i + 1..])
  {
    assert cs[i..][1..] == cs[i + 1..];
  }

  lemma IdKnown(ids: map<string, Id>, d: Db, iso: string)
    requires KnowsCountries(ids, d) && iso in d.countries
    ensures iso in ids && ids[iso] == d.countries[iso].id
  {
  }

  function ImportedKeys(d: Db): set<Key> {
    set p | p in d.cities && d.cities[p].imported && d.cities[p].country.Some? ::
      Key(d.cities[p].country.value, p.slug)
  }

  lemma ImportedKeysAre(d: Db, id: Id, slug: string)
    ensures Key(id, slug) in ImportedKeys(d) <==> HasImported(d, id, slug)
  {
  }

  /** The candidates whose row no earlier run wrote. */
  method ResumeCheck(w: Database, cs: seq<CitySource>, countryIds: map<string, Id>) returns (remaining: seq<CitySource>)
    requires KnowsCountries(countryIds, w.db) && forall c :: c in cs ==> c.country in w.db.countries
    ensures remaining == Remaining(w.db, cs)
  {
    hide *;
    var alreadyInserted := ImportedKeys(w.db);
    NothingRemains(w.db, cs);
    remaining := [];
    ghost var all := Remaining(w.db, cs);
    for i := 0 to |cs|
      invariant all == remaining + Remaining(w.db, cs[i..])
    {
      RemainingStep(w.db, cs, i);
      IdKnown(countryIds, w.db, cs[i].country);
      ImportedKeysAre(w.db, countryIds[cs[i].country], cs[i].slug);
      if Key(countryIds[cs[i].country], cs[i].slug) !in alreadyInserted {
        remaining := remaining + [cs[i]];
      }
    }
    assert remaining + [] == remaining;
  }

  lemma NoCitiesLeft(d: Db, src: Source, cs: seq<CitySource>, lives: nat)
    requires forall c :: c in cs ==> c.country in d.countries
    ensures cs[|cs|..] == [] && CitiesFrom(d, src, [], lives) == Progress(d, lives, Finished) && cs[0..] == cs
  {
  }

  /** One turn of the loop over batches. */
  lemma CitiesTurn(d: Db, src: Source, cs: seq<CitySource>, i: nat, lives: nat)
    requires i < |cs| && forall c :: c in cs ==> c.country in d.countries
    ensures var n := Smaller(BATCH_SIZE, |cs| - i);
            var r := UpsertAll(d, src, cs[i..i + n]);
            0 < n <= |cs| - i &&
            (lives == 0 ==> CitiesFrom(d, src, cs[i..], lives) == Progress(d, 0, Stopped)) &&
            (lives > 0 && r.None? ==> CitiesFrom(d, src, cs[i..], lives) == Progress(d, lives, Rejected)) &&
            (lives > 0 && r.Some? ==>
               r.value.countries == d.countries &&
               CitiesFrom(d, src, cs[i..], lives) == CitiesFrom(r.value, src, cs[i + n..], lives - 1))
  {
    var n := Smaller(BATCH_SIZE, |cs| - i);
    assert cs[i..][..n] == cs[i..i + n] && cs[i..][n..] == cs[i + n..];
    UpsertKeepsCountries(d, src, cs[i..i + n]);
    hide UpsertAll;
  }

  /** One batch of the loop, from candidate i on. */
  method WriteBatch(
    w: Database, src: Source, cs: seq<CitySource>, i: nat, countryIds: map<string, Id>, regionIds: map<string, Id>,
    ghost left: nat)
    returns (ok: bool, next: nat)
    requires KnowsCountries(countryIds, w.db) && KnowsStates(regionIds, w.db, src.regions)
    requires i < |cs| && left > 0 && forall c :: c in cs ==> c.country in w.db.countries
    modifies w
    ensures i < next <= |cs| && w.db.countries == old(w.db).countries
    ensures KnowsCountries(countryIds, w.db) && KnowsStates(regionIds, w.db, src.regions)
    ensures CitiesFrom(old(w.db), src, cs[i..], left) ==
            if ok then CitiesFrom(w.db, src, cs[next..], left - 1) else Progress(w.db, left, Rejected)
  {
    hide *;
    CitiesTurn(w.db, src, cs, i, left);
    ghost var before := w.db;
    next := i + Smaller(BATCH_SIZE, |cs| - i);
    UpsertKeepsCountries(before, src, cs[i..next]);
    ok := CommitBatch(w, src, cs[i..next], countryIds, regionIds);
    CountriesKept(countryIds, before, w.db);
    StatesKept(regionIds, before, w.db, src.regions);
  }

  method WriteCities(
    w: Database, src: Source, cs: seq<CitySource>, countryIds: map<string, Id>, regionIds: map<string, Id>, lives: nat)
    returns (outcome: Outcome, left: nat)
    requires KnowsCountries(countryIds, w.db) && KnowsStates(regionIds, w.db, src.regions)
    requires forall c :: c in cs ==> c.country in w.db.countries
    modifies w
    ensures Progress(w.db, left, outcome) == CitiesFrom(old(w.db), src, cs, lives)
  {
    hide *;
    NoCitiesLeft(w.db, src, cs, lives);
    left := lives;
    var i := 0;
    while i < |cs|
      invariant 0 <= i <= |cs| && w.db.countries == old(w.db).countries
      invariant KnowsCountries(countryIds, w.db) && KnowsStates(regionIds, w.db, src.regions)
      invariant CitiesFrom(old(w.db), src, cs, lives) == CitiesFrom(w.db, src, cs[i..], left)
    {
      if left == 0 {
        CitiesTurn(w.db, src, cs, i, left);
        return Stopped, 0;
      }
      var ok;
      ok, i := WriteBatch(w, src, cs, i, countryIds, regionIds, left);
      if !ok {
        return Rejected, left;
      }
      left := left - 1;
    }
    NoCitiesLeft(w.db, src, cs, left);
    outcome := Finished;
  }

  lemma {:induction false} CountriesKeepCities(d: Db, cs: seq<CountrySource>, lives: nat)
    ensures CountriesFrom(d, cs, lives).db.cities == d.cities
    decreases |cs|
  {
    if cs != [] {
      if cs[0].iso in d.countries { CountriesKeepCities(d, cs[1..], lives); }
      else if lives > 0 && !CountryClash(d, cs[0]) { CountriesKeepCities(AddCountry(d, cs[0]), cs[1..], lives - 1); }
    }
  }

  /** One run of the write phase, stopped after at most the given number of durable writes. */
  method RunImport(w: Database, src: Source, lives: nat) returns (outcome: Outcome, left: nat)
    requires ValidSource(src)
    modifies w
    ensures Progress(w.db, left, outcome) == Run(old(w.db), src, lives)
  {
    if exists l :: l in src.legacy && PlaceOf(l) !in w.db.cities {
      return Rejected, lives;
    }
    var countryIds, regionIds;
    outcome, left, countryIds := WriteCountries(w, src.countries, lives);
    if outcome != Finished {
      return;
    }
    CountriesDone(old(w.db), src.countries, lives);
    ghost var listed, before := w.db, left;
    outcome, left, regionIds := WriteRegions(w, src.regions, countryIds, left);
    if outcome != Finished {
      return;
    }
    RegionsKeepCountries(listed, src.regions, before);
    ghost var settled, upTo := w.db, left;
    CountriesKeepCities(old(w.db), src.countries, lives);
    outcome, left := WriteLegacy(w, src, countryIds, regionIds, left);
    if outcome != Finished {
      return;
    }
    BackfillKeepsCountries(settled, src, src.legacy, upTo);
    var remaining := ResumeCheck(w, src.cities, countryIds);
    outcome, left := WriteCities(w, src, remaining, countryIds, regionIds, left);
  }
}
