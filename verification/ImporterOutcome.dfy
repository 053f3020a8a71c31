/**
 What a finished import leaves in the database, row by row and column by column, whatever runs were
 stopped before it.
 */
module ImporterOutcome {
  import opened Wrappers
  import opened Importer
  import opened ImporterResume

  // ---------- which source row a key's row comes from ----------

  ghost predicate FirstCountryAt(src: Source, i: nat, iso: string) {
    i < |src.countries| && src.countries[i].iso == iso && forall j | 0 <= j < i :: src.countries[j].iso != iso
  }

  ghost predicate FirstRegionAt(src: Source, i: nat, iso: string, slug: string) {
    i < |src.regions| && src.regions[i].country == iso && src.regions[i].slug == slug &&
    forall j | 0 <= j < i :: !(src.regions[j].country == iso && src.regions[j].slug == slug)
  }

  ghost predicate FirstCityAt(src: Source, i: nat, iso: string, slug: string) {
    i < |src.cities| && src.cities[i].country == iso && src.cities[i].slug == slug &&
    forall j | 0 <= j < i :: !(src.cities[j].country == iso && src.cities[j].slug == slug)
  }

  /** The last source region of a source id. */
  ghost predicate LastStateAt(src: Source, i: nat, state: string) {
    i < |src.regions| && src.regions[i].sourceId == state &&
    forall j | i < j < |src.regions| :: src.regions[j].sourceId != state
  }

  ghost predicate KnownState(src: Source, state: Option<string>) {
    state.Some? && exists r :: r in src.regions && r.sourceId == state.value
  }

  // ---------- what the columns say ----------

  ghost predicate CountryIs(d: Db, iso: string, country: Option<Id>) {
    iso in d.countries && country == Some(d.countries[iso].id)
  }

  /** The id of the row of this region, found by its country's row and its slug. */
  ghost predicate RegionIdIs(d: Db, r: RegionSource, region: Option<Id>) {
    r.country in d.countries && Key(d.countries[r.country].id, r.slug) in d.regions &&
    region == Some(d.regions[Key(d.countries[r.country].id, r.slug)].id)
  }

  /** The row of the last region that has the state as source id; none if no region has it. */
  ghost predicate RegionIs(d: Db, src: Source, state: Option<string>, region: Option<Id>) {
    if KnownState(src, state)
    then exists i: nat :: LastStateAt(src, i, state.value) && RegionIdIs(d, src.regions[i], region)
    else region.None?
  }

  ghost predicate CityIs(
    d: Db, src: Source, row: CityRow, iso: string, name: string, state: Option<string>, data: string)
  {
    CountryIs(d, iso, row.country) && row.name == name && RegionIs(d, src, state, row.region) && row.imported &&
    row.data == data
  }

  ghost predicate CountryKept(d0: Db, d: Db, src: Source, iso: string)
    requires iso in d.countries
  {
    var row := d.countries[iso];
    if iso in d0.countries then row == d0.countries[iso]
    else exists i: nat :: FirstCountryAt(src, i, iso) && row.slug == src.countries[i].slug &&
                          row.code3 == src.countries[i].code3 && row.data == src.countries[i].data
  }

  ghost predicate RegionKept(d0: Db, d: Db, src: Source, k: Key)
    requires k in d.regions
  {
    if k in d0.regions then d.regions[k] == d0.regions[k]
    else exists i: nat, iso :: FirstRegionAt(src, i, iso, k.slug) && CountryIs(d, iso, Some(k.country)) &&
                               d.regions[k].data == src.regions[i].data
  }

  /** A legacy city has what its source row says and its own name; any other city from before is
      untouched; a new city has what the first source row of its country and slug says. */
  ghost predicate CityKept(d0: Db, d: Db, src: Source, p: Place)
    requires p in d.cities
  {
    var row := d.cities[p];
    if p in d0.cities && IsLegacy(src, p) then
      forall l | l in src.legacy && PlaceOf(l) == p ::
        CityIs(d, src, row, l.country, d0.cities[p].name, l.state, l.data)
    else if p in d0.cities then row == d0.cities[p]
    else exists i: nat, iso :: FirstCityAt(src, i, iso, p.slug) && p.code == src.cities[i].code &&
                               CityIs(d, src, row, iso, src.cities[i].name, src.cities[i].state, src.cities[i].data)
  }

  /** Nothing is missing. */
  ghost predicate NothingMissing(d0: Db, d: Db, src: Source) {
    && (forall iso :: iso in d0.countries ==> iso in d.countries)
    && (forall k :: k in d0.regions ==> k in d.regions)
    && (forall p :: p in d0.cities ==> p in d.cities)
    && (forall c :: c in src.countries ==> c.iso in d.countries)
    && (forall r :: r in src.regions ==> exists id: Id :: RegionIdIs(d, r, Some(id)))
    && (forall l :: l in src.legacy ==> PlaceOf(l) in d0.cities)
    && (forall c :: c in src.cities ==> exists p :: p in d.cities && p.slug == c.slug &&
                                                    CountryIs(d, c.country, d.cities[p].country))
  }

  /** Ids are used once, and every reference is to a row that is there. */
  ghost predicate Imported(d0: Db, d: Db, src: Source) {
    && WellFormed(d) && NothingMissing(d0, d, src)
    && (forall iso :: iso in d.countries ==> CountryKept(d0, d, src, iso))
    && (forall k :: k in d.regions ==> RegionKept(d0, d, src, k))
    && (forall p :: p in d.cities ==> CityKept(d0, d, src, p))
  }

  // ---------- the proof ----------

  lemma {:induction false} FirstCountryIs(src: Source, n: nat, iso: string) returns (i: nat)
    requires n <= |src.countries| && FirstCountry(src.countries[n..], iso).Some?
    requires forall j | 0 <= j < n :: src.countries[j].iso != iso
    ensures FirstCountryAt(src, i, iso) && FirstCountry(src.countries[n..], iso) == Some(src.countries[i])
    decreases |src.countries| - n
  {
    var rest := src.countries[n..];
    assert rest != [] && rest[0] == src.countries[n] && rest[1..] == src.countries[n + 1..];
    if rest[0].iso == iso { i := n; } else { i := FirstCountryIs(src, n + 1, iso); }
  }

  lemma {:induction false} FirstRegionIs(src: Source, n: nat, iso: string, slug: string) returns (i: nat)
    requires n <= |src.regions| && FirstRegion(src.regions[n..], iso, slug).Some?
    requires forall j | 0 <= j < n :: !(src.regions[j].country == iso && src.regions[j].slug == slug)
    ensures FirstRegionAt(src, i, iso, slug) && FirstRegion(src.regions[n..], iso, slug) == Some(src.regions[i])
    decreases |src.regions| - n
  {
    var rest := src.regions[n..];
    assert rest != [] && rest[0] == src.regions[n] && rest[1..] == src.regions[n + 1..];
    if rest[0].country == iso && rest[0].slug == slug { i := n; } else { i := FirstRegionIs(src, n + 1, iso, slug); }
  }

  lemma {:induction false} FirstCityIs(src: Source, n: nat, iso: string, slug: string) returns (i: nat)
    requires n <= |src.cities| && FirstCity(src.cities[n..], iso, slug).Some?
    requires forall j | 0 <= j < n :: !(src.cities[j].country == iso && src.cities[j].slug == slug)
    ensures FirstCityAt(src, i, iso, slug) && FirstCity(src.cities[n..], iso, slug) == Some(src.cities[i])
    decreases |src.cities| - n
  {
    var rest := src.cities[n..];
    assert rest != [] && rest[0] == src.cities[n] && rest[1..] == src.cities[n + 1..];
    if rest[0].country == iso && rest[0].slug == slug { i := n; } else { i := FirstCityIs(src, n + 1, iso, slug); }
  }

  /** The importer's id map answers for a state with the row of its last region. */
  lemma {:induction false} RegionOfIs(d: Db, src: Source, state: Option<string>, n: nat)
    requires Settled(d, src) && n <= |src.regions|
    requires state.Some? ==> forall j | n <= j < |src.regions| :: src.regions[j].sourceId != state.value
    ensures RegionIs(d, src, state, RegionOf(d, src.regions[..n], state))
  {
    if state.Some? && n > 0 {
      var last := src.regions[n - 1];
      assert src.regions[..n][..n - 1] == src.regions[..n - 1] && last in src.regions;
      if last.sourceId == state.value {
        assert LastStateAt(src, n - 1, state.value);
      } else {
        RegionOfIs(d, src, state, n - 1);
      }
    }
  }

  lemma RegionOfSays(d: Db, src: Source, state: Option<string>)
    requires Settled(d, src)
    ensures RegionIs(d, src, state, RegionOf(d, src.regions, state))
  {
    RegionOfIs(d, src, state, |src.regions|);
    assert src.regions[..|src.regions|] == src.regions;
  }

  lemma CountryIsKept(d0: Db, d: Db, src: Source, iso: string)
    requires Partial(d0, d, src) && iso in d.countries
    ensures CountryKept(d0, d, src, iso)
  {
    if iso !in d0.countries {
      assert src.countries[0..] == src.countries;
      var i := FirstCountryIs(src, 0, iso);
    }
  }

  lemma RegionIsKept(d0: Db, d: Db, src: Source, k: Key)
    requires Partial(d0, d, src) && k in d.regions
    ensures RegionKept(d0, d, src, k)
  {
    if k !in d0.regions {
      var iso :| NewRegion(d, src, k, iso);
      assert src.regions[0..] == src.regions;
      var i := FirstRegionIs(src, 0, iso, k.slug);
    }
  }

  lemma CityIsKept(d0: Db, d: Db, src: Source, p: Place)
    requires Partial(d0, d, src) && Complete(d, src) && p in d.cities
    ensures CityKept(d0, d, src, p)
  {
    if p in d0.cities && IsLegacy(src, p) {
      forall l | l in src.legacy && PlaceOf(l) == p
        ensures CityIs(d, src, d.cities[p], l.country, d0.cities[p].name, l.state, l.data)
      {
        LegacyRowIs(d0, d, src, l);
        RegionOfSays(d, src, l.state);
        hide RegionOf, RegionIs;
      }
    } else if p in d0.cities {
      OtherRowsUntouched(d0, d, src, p);
    } else {
      var iso :| NewCity(d, src, p, iso);
      assert src.cities[0..] == src.cities;
      var i := FirstCityIs(src, 0, iso, p.slug);
      RegionOfSays(d, src, src.cities[i].state);
      hide RegionOf, RegionIs, Partial, Complete, FirstCity;
    }
  }

  lemma NothingIsMissing(d0: Db, d: Db, src: Source)
    requires Partial(d0, d, src) && Complete(d, src) && LegacyPresent(d0, src)
    ensures NothingMissing(d0, d, src)
  {
    hide WellFormed, WasFilled, NewCity, NewRegion, IsFilled;
    forall r | r in src.regions ensures exists id: Id :: RegionIdIs(d, r, Some(id)) {
      assert RegionIdIs(d, r, Some(d.regions[Key(d.countries[r.country].id, r.slug)].id));
    }
  }

  /** Main result: a run that finishes after any number of stopped runs leaves exactly the rows of before
      and those the source calls for, each column as the source row of its key says. */
  lemma FinishedImportIs(d0: Db, src: Source, stopped: seq<nat>, lives: nat)
    requires ValidSource(src) && WellFormed(d0)
    requires Run(After(d0, src, stopped), src, lives).outcome == Finished
    ensures Imported(d0, Run(After(d0, src, stopped), src, lives).db, src)
  {
    StartIsPartial(d0, src);
    AfterKeeps(d0, d0, src, stopped);
    var was := After(d0, src, stopped);
    RunKeeps(d0, was, src, lives);
    LegacyWasPresent(d0, was, src);
    var d := Run(was, src, lives).db;
    assert LegacyPresent(was, src) && WellFormed(d);
    hide Run, After, Partial, Complete, LegacyPresent, WellFormed;
    NothingIsMissing(d0, d, src);
    forall iso | iso in d.countries ensures CountryKept(d0, d, src, iso) { CountryIsKept(d0, d, src, iso); }
    forall k | k in d.regions ensures RegionKept(d0, d, src, k) { RegionIsKept(d0, d, src, k); }
    forall p | p in d.cities ensures CityKept(d0, d, src, p) { CityIsKept(d0, d, src, p); }
  }

  // ---------- countries' other unique columns ----------

  /** No two countries share a slug or a three-letter code. */
  ghost predicate CountriesApart(d: Db) {
    forall a, b | a in d.countries && b in d.countries && a != b ::
      d.countries[a].slug != d.countries[b].slug &&
      (d.countries[a].code3.Some? ==> d.countries[a].code3 != d.countries[b].code3)
  }

  lemma {:induction false} CountriesStayApart(d: Db, cs: seq<CountrySource>, lives: nat)
    requires CountriesApart(d)
    ensures CountriesApart(CountriesFrom(d, cs, lives).db)
    decreases |cs|
  {
    if cs != [] {
      if cs[0].iso in d.countries {
        CountriesStayApart(d, cs[1..], lives);
      } else if lives > 0 && !CountryClash(d, cs[0]) {
        assert forall iso :: iso in d.countries ==> !SameOtherKey(cs[0], d.countries[iso].slug, d.countries[iso].code3);
        assert CountriesApart(AddCountry(d, cs[0]));
        CountriesStayApart(AddCountry(d, cs[0]), cs[1..], lives - 1);
      }
    }
  }

  lemma {:induction false} CitiesKeepCountries(d: Db, src: Source, cs: seq<CitySource>, lives: nat)
    requires forall c :: c in cs ==> c.country in d.countries
    ensures CitiesFrom(d, src, cs, lives).db.countries == d.countries
    decreases |cs|
  {
    if cs != [] && lives > 0 {
      var n := Smaller(BATCH_SIZE, |cs|);
      var r := UpsertAll(d, src, cs[..n]);
      if r.Some? {
        UpsertKeepsCountries(d, src, cs[..n]);
        CitiesKeepCountries(r.value, src, cs[n..], lives - 1);
      }
    }
  }

  lemma SameCountriesApart(d: Db, e: Db)
    requires CountriesApart(d) && e.countries == d.countries
    ensures CountriesApart(e)
  {
  }

  /** A run never writes a country whose slug or three-letter code another one has, stopped or not. */
  lemma RunKeepsCountriesApart(d: Db, src: Source, lives: nat)
    requires ValidSource(src) && CountriesApart(d)
    ensures CountriesApart(Run(d, src, lives).db)
  {
    hide CountriesApart, CitiesFrom, BackfillFrom, CountriesFrom, RegionsFrom;
    if LegacyPresent(d, src) {
      CountriesStayApart(d, src.countries, lives);
      var p := CountriesFrom(d, src.countries, lives);
      if p.outcome == Finished {
        CountriesDone(d, src.countries, lives);
        RegionsKeepCountries(p.db, src.regions, p.lives);
        var q := RegionsFrom(p.db, src.regions, p.lives);
        SameCountriesApart(p.db, q.db);
        if q.outcome == Finished {
          BackfillKeepsCountries(q.db, src, src.legacy, q.lives);
          var r := BackfillFrom(q.db, src, src.legacy, q.lives);
          SameCountriesApart(p.db, r.db);
          if r.outcome == Finished {
            CitiesKeepCountries(r.db, src, Remaining(r.db, src.cities), r.lives);
            SameCountriesApart(p.db, CitiesFrom(r.db, src, Remaining(r.db, src.cities), r.lives).db);
          }
        }
      }
    }
  }

  // ---------- durable writes ----------

  /** The new cities cost one durable write for every hundred begun, all or nothing. */
  lemma {:induction false} OneWriteAHundred(d: Db, src: Source, cs: seq<CitySource>, lives: nat)
    requires forall c :: c in cs ==> c.country in d.countries
    ensures var p := CitiesFrom(d, src, cs, lives);
            (p.outcome == Finished ==> lives - p.lives == (|cs| + 99) / 100) &&
            (p.outcome == Stopped ==> lives < (|cs| + 99) / 100)
    decreases |cs|
  {
    if cs != [] && lives > 0 {
      var n := Smaller(BATCH_SIZE, |cs|);
      var r := UpsertAll(d, src, cs[..n]);
      if r.Some? {
        UpsertKeepsCountries(d, src, cs[..n]);
        OneWriteAHundred(r.value, src, cs[n..], lives - 1);
      }
    }
  }
}
