/**
 The write phase of the global location importer on values: countries, then regions, then the rows of
 the legacy cities, then batches of new cities, inserting only what the database does not hold.  A run
 may stop before any durable write; a stop just after a write, also when only its acknowledgement is
 lost, is a stop before the next one.
 */
module Importer {
  import opened Wrappers

  type Id = nat

  const BATCH_SIZE := 100

  // ---------- source rows, in the order the loops visit them ----------

  datatype CountrySource = CountrySource(iso: string, code3: Option<string>, slug: string, data: string)

  /** country is the iso code of the row's source country; slug is already disambiguated. */
  datatype RegionSource = RegionSource(sourceId: string, country: string, slug: string, data: string)

  /** An eligible city with an assigned slug; state is its region's source id. */
  datatype CitySource = CitySource(
    country: string, slug: string, code: string, name: string, state: Option<string>, data: string)

  /** A reconciled legacy city and what its source row says; it was matched in the country of its own
      code. */
  datatype Legacy = Legacy(country: string, slug: string, state: Option<string>, data: string)

  datatype Source = Source(
    countries: seq<CountrySource>, regions: seq<RegionSource>, legacy: seq<Legacy>, cities: seq<CitySource>)

  ghost predicate Listed(src: Source, iso: string) {
    exists k :: k in src.countries && k.iso == iso
  }

  /** The unique pair of country code and slug; an update never changes it. */
  datatype Place = Place(code: string, slug: string)

  function PlaceOf(l: Legacy): Place {
    Place(l.country, l.slug)
  }

  /** What validation and reconciliation guarantee: everything belongs to a listed country, and a legacy
      city is reconciled once. */
  ghost predicate ValidSource(src: Source) {
    && (forall r :: r in src.regions ==> Listed(src, r.country))
    && (forall l :: l in src.legacy ==> Listed(src, l.country))
    && (forall c :: c in src.cities ==> Listed(src, c.country))
    && (forall l, m :: l in src.legacy && m in src.legacy && PlaceOf(l) == PlaceOf(m) ==> l == m)
  }

  // ---------- the database ----------

  datatype CountryRow = CountryRow(id: Id, code3: Option<string>, slug: string, data: string)

  datatype RegionRow = RegionRow(id: Id, data: string)

  /** A city from before the import may have no country row yet. */
  datatype CityRow = CityRow(country: Option<Id>, name: string, region: Option<Id>, imported: bool, data: string)

  datatype Key = Key(country: Id, slug: string)

  /** Rows by their unique keys.  next is an id never used before. */
  datatype Db = Db(
    countries: map<string, CountryRow>,
    regions: map<Key, RegionRow>,
    cities: map<Place, CityRow>,
    next: Id)

  /** Whether a city row has the other unique pair, country row and slug. */
  predicate HasCity(d: Db, country: Id, slug: string) {
    exists p | p in d.cities :: p.slug == slug && d.cities[p].country == Some(country)
  }

  predicate HasImported(d: Db, country: Id, slug: string) {
    exists p | p in d.cities :: p.slug == slug && d.cities[p].country == Some(country) && d.cities[p].imported
  }

  ghost predicate IsCountry(d: Db, id: Id) {
    exists iso :: iso in d.countries && d.countries[iso].id == id
  }

  ghost predicate CountryIds(d: Db) {
    && (forall iso :: iso in d.countries ==> d.countries[iso].id < d.next)
    && (forall a, b :: a in d.countries && b in d.countries && d.countries[a].id == d.countries[b].id ==> a == b)
  }

  ghost predicate RegionIds(d: Db) {
    && (forall k :: k in d.regions ==> d.regions[k].id < d.next)
    && (forall j, k :: j in d.regions && k in d.regions && d.regions[j].id == d.regions[k].id ==> j == k)
  }

  ghost predicate CityKeys(d: Db) {
    forall p, q | p in d.cities && q in d.cities && p.slug == q.slug ::
      d.cities[p].country.Some? && d.cities[p].country == d.cities[q].country ==> p == q
  }

  ghost predicate IsRegion(d: Db, id: Option<Id>) {
    id.Some? ==> exists j :: j in d.regions && d.regions[j].id == id.value
  }

  ghost predicate ForeignKeys(d: Db) {
    && (forall k :: k in d.regions ==> IsCountry(d, k.country))
    && (forall p :: p in d.cities ==>
          (d.cities[p].country.Some? ==> IsCountry(d, d.cities[p].country.value)) && IsRegion(d, d.cities[p].region))
  }

  /** Ids are unique and foreign keys hold. */
  ghost predicate WellFormed(d: Db) {
    CountryIds(d) && RegionIds(d) && CityKeys(d) && ForeignKeys(d)
  }

  // ---------- one write ----------

  /** A country's other unique columns: the slug, and the three-letter code if there is one. */
  predicate SameOtherKey(c: CountrySource, slug: string, code3: Option<string>) {
    c.slug == slug || (c.code3.Some? && c.code3 == code3)
  }

  predicate CountryClash(d: Db, c: CountrySource) {
    exists iso :: iso in d.countries && SameOtherKey(c, d.countries[iso].slug, d.countries[iso].code3)
  }

  function AddCountry(d: Db, c: CountrySource): Db {
    d.(countries := d.countries[c.iso := CountryRow(d.next, c.code3, c.slug, c.data)], next := d.next + 1)
  }

  function AddRegion(d: Db, r: RegionSource): Db
    requires r.country in d.countries
  {
    d.(regions := d.regions[Key(d.countries[r.country].id, r.slug) := RegionRow(d.next, r.data)], next := d.next + 1)
  }

  lemma AddCountryWellFormed(d: Db, c: CountrySource)
    requires WellFormed(d) && c.iso !in d.countries
    ensures WellFormed(AddCountry(d, c))
  {
    var d' := AddCountry(d, c);
    forall id | IsCountry(d, id) ensures IsCountry(d', id) {
      var iso :| iso in d.countries && d.countries[iso].id == id;
      assert iso in d'.countries && d'.countries[iso].id == id;
    }
    assert forall id :: IsRegion(d, id) ==> IsRegion(d', id);
  }

  lemma AddRegionKeepsNames(d: Db, r: RegionSource, id: Id)
    requires r.country in d.countries && Key(d.countries[r.country].id, r.slug) !in d.regions
    ensures IsCountry(d, id) ==> IsCountry(AddRegion(d, r), id)
    ensures IsRegion(d, Some(id)) ==> IsRegion(AddRegion(d, r), Some(id))
  {
    var d' := AddRegion(d, r);
    if IsRegion(d, Some(id)) {
      var j :| j in d.regions && d.regions[j].id == id;
      assert j in d'.regions && d'.regions[j].id == id;
    }
  }

  lemma AddRegionKeepsIds(d: Db, r: RegionSource)
    requires CountryIds(d) && RegionIds(d) && CityKeys(d) && r.country in d.countries
    requires Key(d.countries[r.country].id, r.slug) !in d.regions
    ensures CountryIds(AddRegion(d, r)) && RegionIds(AddRegion(d, r)) && CityKeys(AddRegion(d, r))
  {
  }

  lemma AddRegionWellFormed(d: Db, r: RegionSource)
    requires WellFormed(d) && r.country in d.countries && Key(d.countries[r.country].id, r.slug) !in d.regions
    ensures WellFormed(AddRegion(d, r))
  {
    var d' := AddRegion(d, r);
    AddRegionKeepsIds(d, r);
    assert IsCountry(d, d.countries[r.country].id);
    forall id
      ensures IsCountry(d, id) ==> IsCountry(d', id)
      ensures IsRegion(d, Some(id)) ==> IsRegion(d', Some(id))
    {
      AddRegionKeepsNames(d, r, id);
    }
    hide CityKeys, CountryIds, RegionIds, IsCountry;
    assert ForeignKeys(d');
  }

  /** regionIdMap.get(state) ?? null: the last region row of that source id, found or created. */
  function RegionOf(d: Db, regions: seq<RegionSource>, state: Option<string>): Option<Id> {
    if state.None? || regions == [] then None else
    var last := regions[|regions| - 1];
    if last.sourceId == state.value && last.country in d.countries &&
       Key(d.countries[last.country].id, last.slug) in d.regions
    then Some(d.regions[Key(d.countries[last.country].id, last.slug)].id)
    else RegionOf(d, regions[..|regions| - 1], state)
  }

  lemma {:induction false} RegionOfIgnoresCities(d: Db, d': Db, rs: seq<RegionSource>, state: Option<string>)
    requires d'.countries == d.countries && d'.regions == d.regions
    ensures RegionOf(d', rs, state) == RegionOf(d, rs, state)
  {
    if rs != [] { RegionOfIgnoresCities(d, d', rs[..|rs| - 1], state); }
  }

  /** One upsert: an existing row is left alone.  None when the other unique pair is violated. */
  function Upsert(d: Db, src: Source, c: CitySource): Option<Db>
    requires c.country in d.countries
  {
    var id := d.countries[c.country].id;
    if HasCity(d, id, c.slug) then Some(d)
    else if Place(c.code, c.slug) in d.cities then None
    else Some(d.(cities := d.cities[Place(c.code, c.slug) :=
                              CityRow(Some(id), c.name, RegionOf(d, src.regions, c.state), true, c.data)]))
  }

  /** A legacy row after its backfill: only the name is its own. */
  function Filled(d: Db, src: Source, l: Legacy, row: CityRow): CityRow
    requires l.country in d.countries
  {
    CityRow(Some(d.countries[l.country].id), row.name, RegionOf(d, src.regions, l.state), true, l.data)
  }

  predicate LegacyPresent(d: Db, src: Source) {
    forall l | l in src.legacy :: PlaceOf(l) in d.cities
  }

  /** Some other row has the country row and slug the update would give. */
  predicate BackfillClash(d: Db, l: Legacy)
    requires l.country in d.countries
  {
    exists p | p in d.cities ::
      p != PlaceOf(l) && p.slug == l.slug && d.cities[p].country == Some(d.countries[l.country].id)
  }

  /** One update, by row id.  None when the row is gone or a unique pair is violated. */
  function Backfill(d: Db, src: Source, l: Legacy): Option<Db>
    requires l.country in d.countries
  {
    var p := PlaceOf(l);
    if p !in d.cities || BackfillClash(d, l) then None
    else Some(d.(cities := d.cities[p := Filled(d, src, l, d.cities[p])]))
  }

  /** A batch is one transaction: all its upserts or none. */
  function UpsertAll(d: Db, src: Source, batch: seq<CitySource>): Option<Db>
    requires forall c :: c in batch ==> c.country in d.countries
    decreases |batch|
  {
    if batch == [] then Some(d) else
    match Upsert(d, src, batch[0])
    case None => None
    case Some(d') => UpsertAll(d', src, batch[1..])
  }

  // ---------- one run ----------

  datatype Outcome = Finished | Stopped | Rejected

  /** The database, the durable writes the run may still make, and how it ended so far. */
  datatype Progress = Progress(db: Db, lives: nat, outcome: Outcome)

  function CountriesFrom(d: Db, cs: seq<CountrySource>, lives: nat): Progress
    decreases |cs|
  {
    if cs == [] then Progress(d, lives, Finished)
    else if cs[0].iso in d.countries then CountriesFrom(d, cs[1..], lives)
    else if lives == 0 then Progress(d, 0, Stopped)
    else if CountryClash(d, cs[0]) then Progress(d, lives, Rejected)
    else CountriesFrom(AddCountry(d, cs[0]), cs[1..], lives - 1)
  }

  function RegionsFrom(d: Db, rs: seq<RegionSource>, lives: nat): Progress
    requires forall r :: r in rs ==> r.country in d.countries
    decreases |rs|
  {
    if rs == [] then Progress(d, lives, Finished)
    else if Key(d.countries[rs[0].country].id, rs[0].slug) in d.regions then RegionsFrom(d, rs[1..], lives)
    else if lives == 0 then Progress(d, 0, Stopped)
    else RegionsFrom(AddRegion(d, rs[0]), rs[1..], lives - 1)
  }

  /** Every legacy city is updated on every run. */
  function BackfillFrom(d: Db, src: Source, ls: seq<Legacy>, lives: nat): Progress
    requires forall l :: l in ls ==> l.country in d.countries
    decreases |ls|
  {
    if ls == [] then Progress(d, lives, Finished)
    else if lives == 0 then Progress(d, 0, Stopped)
    else match Backfill(d, src, ls[0])
         case None => Progress(d, lives, Rejected)
         case Some(d') => BackfillFrom(d', src, ls[1..], lives - 1)
  }

  function Smaller(a: nat, b: nat): (r: nat)
    ensures r <= a && r <= b && (r == a || r == b)
  {
    if a <= b then a else b
  }

  lemma {:induction false} UpsertKeepsCountries(d: Db, src: Source, batch: seq<CitySource>)
    requires forall c :: c in batch ==> c.country in d.countries
    ensures var r := UpsertAll(d, src, batch);
            r.Some? ==> r.value.countries == d.countries && r.value.regions == d.regions && r.value.next == d.next
    decreases |batch|
  {
    if batch != [] && Upsert(d, src, batch[0]).Some? {
      UpsertKeepsCountries(Upsert(d, src, batch[0]).value, src, batch[1..]);
    }
  }

  function CitiesFrom(d: Db, src: Source, cs: seq<CitySource>, lives: nat): Progress
    requires forall c :: c in cs ==> c.country in d.countries
    decreases |cs|
  {
    if cs == [] then Progress(d, lives, Finished)
    else if lives == 0 then Progress(d, 0, Stopped)
    else
      var n := Smaller(BATCH_SIZE, |cs|);
      match UpsertAll(d, src, cs[..n])
      case None => Progress(d, lives, Rejected)
      case Some(d') =>
        UpsertKeepsCountries(d, src, cs[..n]);
        CitiesFrom(d', src, cs[n..], lives - 1)
  }

  /** The resume check: candidates whose row an earlier run of this importer wrote are skipped. */
  function Remaining(d: Db, cs: seq<CitySource>): (r: seq<CitySource>)
    requires forall c :: c in cs ==> c.country in d.countries
    ensures forall c :: c in r ==> c in cs
  {
    if cs == [] then [] else
    (if HasImported(d, d.countries[cs[0].country].id, cs[0].slug) then [] else [cs[0]]) + Remaining(d, cs[1..])
  }

  lemma {:induction false} CountriesDone(d: Db, cs: seq<CountrySource>, lives: nat)
    ensures var p := CountriesFrom(d, cs, lives);
            d.countries.Keys <= p.db.countries.Keys &&
            (p.outcome == Finished ==> forall c :: c in cs ==> c.iso in p.db.countries)
    decreases |cs|
  {
    if cs != [] {
      if cs[0].iso in d.countries { CountriesDone(d, cs[1..], lives); }
      else if lives > 0 && !CountryClash(d, cs[0]) { CountriesDone(AddCountry(d, cs[0]), cs[1..], lives - 1); }
    }
  }

  lemma {:induction false} RegionsKeepCountries(d: Db, rs: seq<RegionSource>, lives: nat)
    requires forall r :: r in rs ==> r.country in d.countries
    ensures var p := RegionsFrom(d, rs, lives);
            p.outcome != Rejected && p.db.countries == d.countries && p.db.cities == d.cities
    decreases |rs|
  {
    if rs != [] {
      if Key(d.countries[rs[0].country].id, rs[0].slug) in d.regions { RegionsKeepCountries(d, rs[1..], lives); }
      else if lives > 0 { RegionsKeepCountries(AddRegion(d, rs[0]), rs[1..], lives - 1); }
    }
  }

  lemma {:induction false} BackfillKeepsCountries(d: Db, src: Source, ls: seq<Legacy>, lives: nat)
    requires forall l :: l in ls ==> l.country in d.countries
    ensures var p := BackfillFrom(d, src, ls, lives);
            p.db.countries == d.countries && p.db.regions == d.regions && p.db.cities.Keys == d.cities.Keys
    decreases |ls|
  {
    if ls != [] && lives > 0 && Backfill(d, src, ls[0]).Some? {
      BackfillKeepsCountries(Backfill(d, src, ls[0]).value, src, ls[1..], lives - 1);
    }
  }

  /** The write phase, which refuses to start unless every legacy city is there. */
  function Run(d: Db, src: Source, lives: nat): Progress
    requires ValidSource(src)
  {
    if !LegacyPresent(d, src) then Progress(d, lives, Rejected) else
    var p := CountriesFrom(d, src.countries, lives);
    if p.outcome != Finished then p else
    CountriesDone(d, src.countries, lives);
    var q := RegionsFrom(p.db, src.regions, p.lives);
    if q.outcome != Finished then q else
    RegionsKeepCountries(p.db, src.regions, p.lives);
    var r := BackfillFrom(q.db, src, src.legacy, q.lives);
    if r.outcome != Finished then r else
    BackfillKeepsCountries(q.db, src, src.legacy, q.lives);
    CitiesFrom(r.db, src, Remaining(r.db, src.cities), r.lives)
  }
}
