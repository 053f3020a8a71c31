/** Stopping and re-running the importer: what every run keeps, and where all completed runs end. */
module ImporterResume {
  import opened Wrappers
  import opened Importer

  // ---------- the row each key gets ----------

  function FirstCountry(cs: seq<CountrySource>, iso: string): Option<CountrySource> {
    if cs == [] then None else if cs[0].iso == iso then Some(cs[0]) else FirstCountry(cs[1..], iso)
  }

  function FirstRegion(rs: seq<RegionSource>, iso: string, slug: string): Option<RegionSource> {
    if rs == [] then None
    else if rs[0].country == iso && rs[0].slug == slug then Some(rs[0])
    else FirstRegion(rs[1..], iso, slug)
  }

  function FirstCity(cs: seq<CitySource>, iso: string, slug: string): Option<CitySource> {
    if cs == [] then None
    else if cs[0].country == iso && cs[0].slug == slug then Some(cs[0])
    else FirstCity(cs[1..], iso, slug)
  }

  /** Every listed country and region has its row. */
  ghost predicate Settled(d: Db, src: Source) {
    && (forall c :: c in src.countries ==> c.iso in d.countries)
    && (forall r :: r in src.regions ==>
          r.country in d.countries && Key(d.countries[r.country].id, r.slug) in d.regions)
  }

  ghost predicate IsFilled(d: Db, src: Source, l: Legacy) {
    l.country in d.countries && PlaceOf(l) in d.cities &&
    d.cities[PlaceOf(l)] == Filled(d, src, l, d.cities[PlaceOf(l)])
  }

  /** Every legacy city has its row, as the source says. */
  ghost predicate AllFilled(d: Db, src: Source) {
    forall l :: l in src.legacy ==> IsFilled(d, src, l)
  }

  ghost predicate Complete(d: Db, src: Source) {
    Settled(d, src) && AllFilled(d, src) &&
    forall c :: c in src.cities ==> c.country in d.countries && HasCity(d, d.countries[c.country].id, c.slug)
  }

  ghost predicate NewRegion(d: Db, src: Source, k: Key, iso: string) {
    iso in d.countries && d.countries[iso].id == k.country && k in d.regions &&
    FirstRegion(src.regions, iso, k.slug).Some? &&
    d.regions[k].data == FirstRegion(src.regions, iso, k.slug).value.data
  }

  /** The row a candidate is inserted as. */
  function RowFor(d: Db, src: Source, c: CitySource, id: Id): CityRow {
    CityRow(Some(id), c.name, RegionOf(d, src.regions, c.state), true, c.data)
  }

  ghost predicate NewCity(d: Db, src: Source, p: Place, iso: string) {
    iso in d.countries && p in d.cities &&
    var first := FirstCity(src.cities, iso, p.slug);
    first.Some? && p.code == first.value.code && d.cities[p] == RowFor(d, src, first.value, d.countries[iso].id)
  }

  /** A legacy row of d0 that was backfilled. */
  ghost predicate WasFilled(d0: Db, d: Db, src: Source, p: Place)
    requires p in d0.cities && p in d.cities
  {
    exists l :: l in src.legacy && PlaceOf(l) == p && l.country in d.countries &&
                d.cities[p] == Filled(d, src, l, d0.cities[p])
  }

  ghost predicate CountriesPartial(d0: Db, d: Db, src: Source) {
    && (forall iso :: iso in d0.countries ==> iso in d.countries && d.countries[iso] == d0.countries[iso])
    && (forall iso :: iso in d.countries && iso !in d0.countries ==>
          d.countries[iso].id >= d0.next && FirstCountry(src.countries, iso).Some? &&
          d.countries[iso].slug == FirstCountry(src.countries, iso).value.slug &&
          d.countries[iso].code3 == FirstCountry(src.countries, iso).value.code3 &&
          d.countries[iso].data == FirstCountry(src.countries, iso).value.data)
  }

  ghost predicate RegionsPartial(d0: Db, d: Db, src: Source) {
    && (forall k :: k in d0.regions ==> k in d.regions && d.regions[k] == d0.regions[k])
    && (forall k :: k in d.regions && k !in d0.regions ==> exists iso :: NewRegion(d, src, k, iso))
  }

  ghost predicate CitiesPartial(d0: Db, d: Db, src: Source) {
    && (forall p :: p in d0.cities ==>
          p in d.cities && (d.cities[p] == d0.cities[p] || (Settled(d, src) && WasFilled(d0, d, src, p))))
    && (forall p :: p in d.cities && p !in d0.cities ==>
          Settled(d, src) && AllFilled(d, src) && LegacyPresent(d0, src) && exists iso :: NewCity(d, src, p, iso))
  }

  /** Between d0 and a completed import: every row of d0 is untouched, but for legacy cities that were
      backfilled, and every other row is the one the first source row of its key calls for. */
  ghost predicate Partial(d0: Db, d: Db, src: Source) {
    && WellFormed(d0) && WellFormed(d) && d0.next <= d.next
    && CountriesPartial(d0, d, src) && RegionsPartial(d0, d, src) && CitiesPartial(d0, d, src)
  }

  /** No row of another kind holds the place of a new city. */
  ghost predicate PlaceIsFree(d0: Db, src: Source, p: Place) {
    p in d0.cities ==> d0.cities[p].country.Some? || exists l :: l in src.legacy && PlaceOf(l) == p
  }

  // ---------- conflicts ----------

  /** The legacy cities are there, and no unique column other than the natural keys gets in the way. */
  ghost predicate Compatible(d0: Db, src: Source) {
    && LegacyPresent(d0, src)
    && (forall a, b :: a in src.countries && b in src.countries && SameOtherKey(a, b.slug, b.code3) ==> a.iso == b.iso)
    && (forall a, iso | a in src.countries && iso in d0.countries ::
          SameOtherKey(a, d0.countries[iso].slug, d0.countries[iso].code3) ==> iso == a.iso)
    && (forall c :: c in src.cities ==> c.code == c.country && PlaceIsFree(d0, src, Place(c.code, c.slug)))
    && (forall p, iso :: p in d0.cities && iso in d0.countries && d0.cities[p].country == Some(d0.countries[iso].id) ==>
          p.code == iso)
  }

  // ---------- countries ----------

  /** For a country not yet there, the rest of the list starts with the same row as the whole. */
  ghost predicate PendingCountries(d: Db, src: Source, cs: seq<CountrySource>) {
    (forall c :: c in cs ==> c in src.countries) &&
    forall iso :: iso !in d.countries ==> FirstCountry(cs, iso) == FirstCountry(src.countries, iso)
  }

  lemma {:induction false} FirstCountryIn(cs: seq<CountrySource>, iso: string)
    ensures FirstCountry(cs, iso).Some? <==> exists c :: c in cs && c.iso == iso
    ensures FirstCountry(cs, iso).Some? ==> FirstCountry(cs, iso).value in cs && FirstCountry(cs, iso).value.iso == iso
  {
    if cs != [] { FirstCountryIn(cs[1..], iso); }
  }

  lemma AddCountryKeepsRegions(d0: Db, d: Db, src: Source, c: CountrySource)
    requires RegionsPartial(d0, d, src) && c.iso !in d.countries
    ensures RegionsPartial(d0, AddCountry(d, c), src)
  {
    var d' := AddCountry(d, c);
    forall k | k in d'.regions && k !in d0.regions ensures exists iso :: NewRegion(d', src, k, iso) {
      var iso :| NewRegion(d, src, k, iso);
      assert NewRegion(d', src, k, iso);
    }
  }

  lemma AddCountryKeepsCities(d0: Db, d: Db, src: Source, c: CountrySource)
    requires CitiesPartial(d0, d, src) && !Settled(d, src)
    ensures CitiesPartial(d0, AddCountry(d, c), src)
  {
    hide Settled, NewCity, WasFilled, AllFilled, LegacyPresent;
    assert AddCountry(d, c).cities == d.cities;
  }

  lemma AddCountryKeeps(d0: Db, d: Db, src: Source, c: CountrySource)
    requires Partial(d0, d, src) && c in src.countries && c.iso !in d.countries
    requires FirstCountry(src.countries, c.iso) == Some(c)
    ensures Partial(d0, AddCountry(d, c), src)
  {
    AddCountryWellFormed(d, c);
    hide WellFormed;
    var d' := AddCountry(d, c);
    assert !Settled(d, src);
    AddCountryKeepsRegions(d0, d, src, c);
    AddCountryKeepsCities(d0, d, src, c);
    hide RegionsPartial, CitiesPartial, Settled;
    assert CountriesPartial(d0, d', src);
  }

  lemma NoCountryClash(d0: Db, d: Db, src: Source, c: CountrySource)
    requires Partial(d0, d, src) && Compatible(d0, src) && c in src.countries && c.iso !in d.countries
    ensures !CountryClash(d, c)
  {
    if iso :| iso in d.countries && SameOtherKey(c, d.countries[iso].slug, d.countries[iso].code3) {
      if iso !in d0.countries { FirstCountryIn(src.countries, iso); }
    }
  }

  lemma PendingCountriesNext(d: Db, d': Db, src: Source, cs: seq<CountrySource>)
    requires cs != [] && PendingCountries(d, src, cs)
    requires d.countries.Keys <= d'.countries.Keys && cs[0].iso in d'.countries
    ensures PendingCountries(d', src, cs[1..]) && cs[0] in src.countries
    ensures cs[0].iso !in d.countries ==> FirstCountry(src.countries, cs[0].iso) == Some(cs[0])
  {
    assert FirstCountry(cs, cs[0].iso) == Some(cs[0]);
  }

  lemma {:induction false} CountriesPhase(d0: Db, d: Db, src: Source, cs: seq<CountrySource>, lives: nat)
    requires Partial(d0, d, src) && PendingCountries(d, src, cs)
    ensures var p := CountriesFrom(d, cs, lives);
            Partial(d0, p.db, src) && p.lives <= lives &&
            (p.outcome == Finished ==> PendingCountries(p.db, src, [])) &&
            (Compatible(d0, src) ==> p.outcome != Rejected)
    decreases |cs|
  {
    hide Partial, Compatible, PendingCountries, FirstCountry, CountryClash;
    if cs != [] {
      if cs[0].iso in d.countries {
        PendingCountriesNext(d, d, src, cs);
        CountriesPhase(d0, d, src, cs[1..], lives);
      } else {
        var d' := AddCountry(d, cs[0]);
        PendingCountriesNext(d, d', src, cs);
        if Compatible(d0, src) { NoCountryClash(d0, d, src, cs[0]); }
        if lives > 0 && !CountryClash(d, cs[0]) {
          AddCountryKeeps(d0, d, src, cs[0]);
          CountriesPhase(d0, d', src, cs[1..], lives - 1);
        }
      }
    }
  }

  // ---------- regions ----------

  ghost predicate PendingRegions(d: Db, src: Source, rs: seq<RegionSource>) {
    (forall r :: r in rs ==> r in src.regions) &&
    forall iso, slug :: iso in d.countries && Key(d.countries[iso].id, slug) !in d.regions ==>
      FirstRegion(rs, iso, slug) == FirstRegion(src.regions, iso, slug)
  }

  ghost predicate CountriesListed(d: Db, src: Source) {
    forall c :: c in src.countries ==> c.iso in d.countries
  }

  lemma {:induction false} FirstRegionIn(rs: seq<RegionSource>, iso: string, slug: string)
    ensures FirstRegion(rs, iso, slug).Some? <==> exists r :: r in rs && r.country == iso && r.slug == slug
    ensures FirstRegion(rs, iso, slug).Some? ==>
              var r := FirstRegion(rs, iso, slug).value; r in rs && r.country == iso && r.slug == slug
  {
    if rs != [] { FirstRegionIn(rs[1..], iso, slug); }
  }

  lemma AddRegionKeeps(d0: Db, d: Db, src: Source, r: RegionSource)
    requires Partial(d0, d, src) && r in src.regions && r.country in d.countries
    requires Key(d.countries[r.country].id, r.slug) !in d.regions
    requires FirstRegion(src.regions, r.country, r.slug) == Some(r)
    ensures Partial(d0, AddRegion(d, r), src)
  {
    hide WellFormed;
    AddRegionWellFormed(d, r);
    var d' := AddRegion(d, r);
    var key := Key(d.countries[r.country].id, r.slug);
    assert !Settled(d, src);
    forall k | k in d'.regions && k !in d0.regions
      ensures exists iso :: NewRegion(d', src, k, iso)
    {
      if k == key {
        assert NewRegion(d', src, k, r.country);
      } else {
        var iso :| NewRegion(d, src, k, iso);
        assert NewRegion(d', src, k, iso);
      }
    }
  }

  lemma PendingRegionsNext(d: Db, d': Db, src: Source, rs: seq<RegionSource>)
    requires rs != [] && PendingRegions(d, src, rs) && rs[0].country in d.countries
    requires d'.countries == d.countries && d.regions.Keys <= d'.regions.Keys
    requires Key(d'.countries[rs[0].country].id, rs[0].slug) in d'.regions
    ensures PendingRegions(d', src, rs[1..])
  {
    forall iso, slug | iso in d'.countries && Key(d'.countries[iso].id, slug) !in d'.regions
      ensures FirstRegion(rs[1..], iso, slug) == FirstRegion(src.regions, iso, slug)
    {
      assert Key(d.countries[iso].id, slug) !in d.regions;
    }
  }

  lemma FirstPendingRegion(d: Db, src: Source, rs: seq<RegionSource>)
    requires rs != [] && PendingRegions(d, src, rs) && rs[0].country in d.countries
    ensures rs[0] in src.regions
    ensures Key(d.countries[rs[0].country].id, rs[0].slug) !in d.regions ==>
              FirstRegion(src.regions, rs[0].country, rs[0].slug) == Some(rs[0])
  {
    assert FirstRegion(rs, rs[0].country, rs[0].slug) == Some(rs[0]);
  }

  lemma {:induction false} RegionsPhase(d0: Db, d: Db, src: Source, rs: seq<RegionSource>, lives: nat)
    requires Partial(d0, d, src) && PendingRegions(d, src, rs)
    requires forall r :: r in rs ==> r.country in d.countries
    ensures var p := RegionsFrom(d, rs, lives);
            Partial(d0, p.db, src) && p.lives <= lives && p.db.countries == d.countries && p.outcome != Rejected &&
            (p.outcome == Finished ==> PendingRegions(p.db, src, []))
    decreases |rs|
  {
    hide Partial, PendingRegions, FirstRegion;
    if rs != [] {
      FirstPendingRegion(d, src, rs);
      if Key(d.countries[rs[0].country].id, rs[0].slug) in d.regions {
        PendingRegionsNext(d, d, src, rs);
        RegionsPhase(d0, d, src, rs[1..], lives);
      } else if lives > 0 {
        AddRegionKeeps(d0, d, src, rs[0]);
        PendingRegionsNext(d, AddRegion(d, rs[0]), src, rs);
        RegionsPhase(d0, AddRegion(d, rs[0]), src, rs[1..], lives - 1);
      }
    }
  }

  // ---------- legacy cities ----------

  /** The legacy cities not yet updated in this run are among ls. */
  ghost predicate PendingLegacy(d: Db, src: Source, ls: seq<Legacy>) {
    (forall l :: l in ls ==> l in src.legacy) && forall l :: l in src.legacy ==> l in ls || IsFilled(d, src, l)
  }

  /** d' is d after the update of l. */
  ghost predicate Updated(d: Db, d': Db, src: Source, l: Legacy) {
    && l.country in d.countries && PlaceOf(l) in d.cities && !BackfillClash(d, l)
    && d' == d.(cities := d.cities[PlaceOf(l) := Filled(d, src, l, d.cities[PlaceOf(l)])])
  }

  lemma BackfillUpdates(d: Db, src: Source, l: Legacy)
    requires l.country in d.countries && Backfill(d, src, l).Some?
    ensures Updated(d, Backfill(d, src, l).value, src, l)
  {
  }

  lemma {:induction false} RegionOfIsRegion(d: Db, rs: seq<RegionSource>, state: Option<string>)
    ensures IsRegion(d, RegionOf(d, rs, state))
  {
    if rs != [] { RegionOfIsRegion(d, rs[..|rs| - 1], state); }
  }

  /** What holds of new city rows that keep keys unique and refer to rows that are there. */
  lemma CitiesWellFormed(d: Db, d': Db)
    requires WellFormed(d) && d' == d.(cities := d'.cities) && CityKeys(d')
    requires forall p :: p in d'.cities ==>
               (d'.cities[p].country.Some? ==> IsCountry(d, d'.cities[p].country.value)) &&
               IsRegion(d, d'.cities[p].region)
    ensures WellFormed(d')
  {
    forall id
      ensures IsCountry(d, id) <==> IsCountry(d', id)
      ensures IsRegion(d, Some(id)) <==> IsRegion(d', Some(id))
    {
    }
    hide CityKeys;
  }

  lemma UpdateKeepsKeys(d: Db, d': Db, src: Source, l: Legacy)
    requires CityKeys(d) && Updated(d, d', src, l)
    ensures CityKeys(d')
  {
    hide RegionOf;
    assert forall q | q in d.cities && q != PlaceOf(l) && q.slug == l.slug ::
      d.cities[q].country != Some(d.countries[l.country].id);
  }

  lemma UpdateWellFormed(d: Db, d': Db, src: Source, l: Legacy)
    requires WellFormed(d) && Updated(d, d', src, l)
    ensures WellFormed(d')
  {
    UpdateKeepsKeys(d, d', src, l);
    RegionOfIsRegion(d, src.regions, l.state);
    hide RegionOf, CityKeys, BackfillClash, IsRegion;
    assert IsCountry(d, d.countries[l.country].id);
    CitiesWellFormed(d, d');
  }

  lemma FilledStays(d: Db, d': Db, src: Source, l: Legacy, row: CityRow)
    requires d'.countries == d.countries && d'.regions == d.regions && l.country in d.countries
    ensures Filled(d', src, l, row) == Filled(d, src, l, row)
  {
    RegionOfIgnoresCities(d, d', src.regions, l.state);
  }

  /** The rows of d0 after an update. */
  lemma UpdateKeepsOld(d0: Db, d: Db, d': Db, src: Source, l: Legacy, p: Place)
    requires p in d0.cities && p in d.cities && Settled(d, src) && Updated(d, d', src, l) && l in src.legacy
    requires d.cities[p] == d0.cities[p] || WasFilled(d0, d, src, p)
    ensures p in d'.cities && (d'.cities[p] == d0.cities[p] || WasFilled(d0, d', src, p))
  {
    if p == PlaceOf(l) {
      FilledStays(d, d', src, l, d0.cities[p]);
      assert Filled(d, src, l, d.cities[p]) == Filled(d, src, l, d0.cities[p]);
    } else if d.cities[p] != d0.cities[p] {
      var m :| m in src.legacy && PlaceOf(m) == p && m.country in d.countries &&
               d.cities[p] == Filled(d, src, m, d0.cities[p]);
      FilledStays(d, d', src, m, d0.cities[p]);
      assert d'.cities[p] == Filled(d', src, m, d0.cities[p]);
    }
  }

  lemma RefilledIsSame(d: Db, d': Db, src: Source, l: Legacy)
    requires AllFilled(d, src) && Updated(d, d', src, l) && l in src.legacy
    ensures d' == d
  {
    assert IsFilled(d, src, l);
    assert d'.cities == d.cities;
  }

  lemma UpdateKeepsCities(d0: Db, d: Db, d': Db, src: Source, l: Legacy)
    requires CitiesPartial(d0, d, src) && Settled(d, src) && Updated(d, d', src, l) && l in src.legacy
    requires !AllFilled(d, src)
    ensures CitiesPartial(d0, d', src)
  {
    hide Filled, WasFilled, BackfillClash, AllFilled;
    assert Settled(d', src) && d'.cities.Keys == d.cities.Keys;
    forall p | p in d0.cities
      ensures p in d'.cities && (d'.cities[p] == d0.cities[p] || WasFilled(d0, d', src, p))
    {
      UpdateKeepsOld(d0, d, d', src, l, p);
    }
  }

  lemma RegionsKept(d0: Db, d: Db, d': Db, src: Source)
    requires RegionsPartial(d0, d, src) && d'.countries == d.countries && d'.regions == d.regions
    ensures RegionsPartial(d0, d', src)
  {
    forall k | k in d'.regions && k !in d0.regions ensures exists iso :: NewRegion(d', src, k, iso) {
      var iso :| NewRegion(d, src, k, iso);
      assert NewRegion(d', src, k, iso);
    }
  }

  lemma CountriesKept(d0: Db, d: Db, d': Db, src: Source)
    requires CountriesPartial(d0, d, src) && d'.countries == d.countries
    ensures CountriesPartial(d0, d', src)
  {
  }

  /** Changing city rows only touches what is said about cities. */
  lemma PartialStill(d0: Db, d: Db, d': Db, src: Source)
    requires Partial(d0, d, src) && Settled(d, src)
    requires d'.countries == d.countries && d'.regions == d.regions && d'.next == d.next
    requires WellFormed(d') && CitiesPartial(d0, d', src)
    ensures Partial(d0, d', src) && Settled(d', src)
  {
    hide CountriesPartial, CitiesPartial, RegionsPartial, WellFormed;
    CountriesKept(d0, d, d', src);
    RegionsKept(d0, d, d', src);
  }

  lemma UpdateKeeps(d0: Db, d: Db, d': Db, src: Source, l: Legacy)
    requires Partial(d0, d, src) && Settled(d, src) && Updated(d, d', src, l) && l in src.legacy
    ensures Partial(d0, d', src) && Settled(d', src)
  {
    hide WellFormed, CitiesPartial, AllFilled, Settled, Filled, BackfillClash;
    if AllFilled(d, src) {
      RefilledIsSame(d, d', src, l);
    } else {
      UpdateWellFormed(d, d', src, l);
      UpdateKeepsCities(d0, d, d', src, l);
      PartialStill(d0, d, d', src);
    }
  }

  lemma NextPending(d: Db, d': Db, src: Source, ls: seq<Legacy>)
    requires ValidSource(src) && ls != [] && PendingLegacy(d, src, ls) && Updated(d, d', src, ls[0])
    ensures PendingLegacy(d', src, ls[1..])
  {
    var l := ls[0];
    FilledStays(d, d', src, l, d.cities[PlaceOf(l)]);
    assert IsFilled(d', src, l);
    forall m | m in src.legacy ensures m in ls[1..] || IsFilled(d', src, m) {
      if m != l && m !in ls[1..] {
        assert IsFilled(d, src, m) && PlaceOf(m) != PlaceOf(l);
        FilledStays(d, d', src, m, d.cities[PlaceOf(m)]);
      }
    }
  }

  lemma {:induction false} FirstCityIn(cs: seq<CitySource>, iso: string, slug: string)
    ensures FirstCity(cs, iso, slug).Some? <==> exists c :: c in cs && c.country == iso && c.slug == slug
    ensures FirstCity(cs, iso, slug).Some? ==>
              var c := FirstCity(cs, iso, slug).value; c in cs && c.country == iso && c.slug == slug
  {
    if cs != [] { FirstCityIn(cs[1..], iso, slug); }
  }

  lemma CodeIsCountry(d0: Db, d: Db, src: Source, p: Place) returns (iso: string)
    requires Partial(d0, d, src) && Compatible(d0, src) && p in d.cities && d.cities[p].country.Some?
    ensures iso in d.countries && d.cities[p].country == Some(d.countries[iso].id) && p.code == iso
  {
    hide RegionOf;
    if p in d0.cities && d.cities[p] == d0.cities[p] {
      assert IsCountry(d0, d0.cities[p].country.value);
      iso :| iso in d0.countries && d0.countries[iso].id == d0.cities[p].country.value;
    } else if p in d0.cities {
      var l :| l in src.legacy && PlaceOf(l) == p && l.country in d.countries &&
               d.cities[p] == Filled(d, src, l, d0.cities[p]);
      iso := l.country;
    } else {
      iso :| NewCity(d, src, p, iso);
      FirstCityIn(src.cities, iso, p.slug);
    }
  }

  lemma NoBackfillClash(d0: Db, d: Db, src: Source, l: Legacy)
    requires Partial(d0, d, src) && Compatible(d0, src) && l.country in d.countries
    ensures !BackfillClash(d, l)
  {
    forall p | p in d.cities && p.slug == l.slug && d.cities[p].country == Some(d.countries[l.country].id)
      ensures p == PlaceOf(l)
    {
      var iso := CodeIsCountry(d0, d, src, p);
    }
  }

  lemma {:induction false} BackfillPhase(d0: Db, d: Db, src: Source, ls: seq<Legacy>, lives: nat)
    requires ValidSource(src) && Partial(d0, d, src) && Settled(d, src) && LegacyPresent(d, src)
    requires PendingLegacy(d, src, ls) && forall l :: l in ls ==> l.country in d.countries
    ensures var p := BackfillFrom(d, src, ls, lives);
            Partial(d0, p.db, src) && Settled(p.db, src) && p.lives <= lives &&
            (p.outcome == Finished ==> AllFilled(p.db, src)) &&
            (Compatible(d0, src) ==> p.outcome != Rejected)
    decreases |ls|
  {
    hide Partial, Settled, Compatible, BackfillClash, Filled, IsFilled, ValidSource;
    if ls != [] {
      var l := ls[0];
      if Compatible(d0, src) { NoBackfillClash(d0, d, src, l); }
      if lives > 0 && !BackfillClash(d, l) {
        var d' := Backfill(d, src, l).value;
        BackfillUpdates(d, src, l);
        UpdateKeeps(d0, d, d', src, l);
        NextPending(d, d', src, ls);
        assert d'.countries == d.countries && d'.cities.Keys == d.cities.Keys;
        hide Updated, PendingLegacy, Backfill;
        BackfillPhase(d0, d', src, ls[1..], lives - 1);
      }
    }
  }

  // ---------- cities ----------

  ghost predicate PendingCities(d: Db, src: Source, cs: seq<CitySource>) {
    (forall c :: c in cs ==> c in src.cities && c.country in d.countries) &&
    forall iso, slug :: iso in d.countries && !HasCity(d, d.countries[iso].id, slug) ==>
      FirstCity(cs, iso, slug) == FirstCity(src.cities, iso, slug)
  }

  /** d' is d with the row of c inserted. */
  ghost predicate Inserted(d: Db, d': Db, src: Source, c: CitySource) {
    && c.country in d.countries && Place(c.code, c.slug) !in d.cities
    && !HasCity(d, d.countries[c.country].id, c.slug)
    && d' == d.(cities := d.cities[Place(c.code, c.slug) := RowFor(d, src, c, d.countries[c.country].id)])
  }

  lemma UpsertInserts(d: Db, src: Source, c: CitySource)
    requires c.country in d.countries && Upsert(d, src, c).Some?
    ensures var d' := Upsert(d, src, c).value;
            if HasCity(d, d.countries[c.country].id, c.slug) then d' == d else Inserted(d, d', src, c)
  {
    hide RegionOf, HasCity;
  }

  lemma InsertKeepsKeys(d: Db, d': Db, src: Source, c: CitySource)
    requires CityKeys(d) && Inserted(d, d', src, c)
    ensures CityKeys(d')
  {
    hide RegionOf;
    var at := Place(c.code, c.slug);
    assert forall q | q in d.cities && q.slug == c.slug :: d.cities[q].country != Some(d.countries[c.country].id);
    assert forall q | q in d'.cities && q != at :: q in d.cities && d'.cities[q] == d.cities[q];
  }

  lemma InsertWellFormed(d: Db, d': Db, src: Source, c: CitySource)
    requires WellFormed(d) && Inserted(d, d', src, c)
    ensures WellFormed(d')
  {
    InsertKeepsKeys(d, d', src, c);
    RegionOfIsRegion(d, src.regions, c.state);
    hide RegionOf, CityKeys, HasCity, IsRegion;
    assert IsCountry(d, d.countries[c.country].id);
    CitiesWellFormed(d, d');
  }

  lemma RowStays(d: Db, d': Db, src: Source, c: CitySource, id: Id)
    requires d'.countries == d.countries && d'.regions == d.regions
    ensures RowFor(d', src, c, id) == RowFor(d, src, c, id)
  {
    RegionOfIgnoresCities(d, d', src.regions, c.state);
  }

  lemma InsertKeepsFilled(d: Db, d': Db, src: Source, c: CitySource)
    requires Inserted(d, d', src, c) && AllFilled(d, src)
    ensures AllFilled(d', src)
  {
    forall l | l in src.legacy ensures IsFilled(d', src, l) {
      assert IsFilled(d, src, l);
      FilledStays(d, d', src, l, d.cities[PlaceOf(l)]);
    }
  }

  /** The cities of d0 and the new ones, after an insertion. */
  lemma InsertKeepsCities(d0: Db, d: Db, d': Db, src: Source, c: CitySource)
    requires CitiesPartial(d0, d, src) && Settled(d, src) && AllFilled(d, src) && LegacyPresent(d0, src)
    requires Inserted(d, d', src, c) && FirstCity(src.cities, c.country, c.slug) == Some(c)
    ensures CitiesPartial(d0, d', src)
  {
    InsertKeepsFilled(d, d', src, c);
    var at := Place(c.code, c.slug);
    hide HasCity, RowFor, Filled, AllFilled, LegacyPresent;
    assert Settled(d', src);
    forall p | p in d0.cities
      ensures p in d'.cities && (d'.cities[p] == d0.cities[p] || WasFilled(d0, d', src, p))
    {
      if d.cities[p] != d0.cities[p] {
        var l :| l in src.legacy && PlaceOf(l) == p && l.country in d.countries &&
                 d.cities[p] == Filled(d, src, l, d0.cities[p]);
        FilledStays(d, d', src, l, d0.cities[p]);
        assert d'.cities[p] == Filled(d', src, l, d0.cities[p]);
      }
    }
    forall p | p in d'.cities && p !in d0.cities ensures exists iso :: NewCity(d', src, p, iso) {
      if p == at {
        RowStays(d, d', src, c, d.countries[c.country].id);
        assert NewCity(d', src, p, c.country);
      } else {
        var iso :| NewCity(d, src, p, iso);
        RowStays(d, d', src, FirstCity(src.cities, iso, p.slug).value, d.countries[iso].id);
        assert NewCity(d', src, p, iso);
      }
    }
  }

  lemma InsertKeeps(d0: Db, d: Db, d': Db, src: Source, c: CitySource)
    requires Partial(d0, d, src) && Settled(d, src) && AllFilled(d, src) && LegacyPresent(d0, src)
    requires Inserted(d, d', src, c) && FirstCity(src.cities, c.country, c.slug) == Some(c)
    ensures Partial(d0, d', src) && Settled(d', src) && AllFilled(d', src)
  {
    hide WellFormed, CitiesPartial, AllFilled, Settled, HasCity, RowFor;
    InsertWellFormed(d, d', src, c);
    InsertKeepsFilled(d, d', src, c);
    InsertKeepsCities(d0, d, d', src, c);
    PartialStill(d0, d, d', src);
  }

  lemma HasCityAfter(d: Db, d': Db, src: Source, c: CitySource, id: Id, slug: string)
    requires Inserted(d, d', src, c)
    ensures HasCity(d', id, slug) <==> HasCity(d, id, slug) || (id == d.countries[c.country].id && slug == c.slug)
  {
    hide RegionOf;
    var at := Place(c.code, c.slug);
    if HasCity(d, id, slug) {
      var p :| p in d.cities && p.slug == slug && d.cities[p].country == Some(id);
      assert p in d'.cities && d'.cities[p] == d.cities[p];
    }
    assert at in d'.cities && d'.cities[at].country == Some(d.countries[c.country].id);
    if p :| p in d'.cities && p.slug == slug && d'.cities[p].country == Some(id) {
      if p != at { assert p in d.cities; }
    }
  }

  lemma StillPending(d: Db, src: Source, cs: seq<CitySource>)
    requires cs != [] && PendingCities(d, src, cs) && Upsert(d, src, cs[0]).Some?
    ensures PendingCities(Upsert(d, src, cs[0]).value, src, cs[1..])
  {
    var c, d' := cs[0], Upsert(d, src, cs[0]).value;
    UpsertInserts(d, src, c);
    hide Upsert, HasCity, RowFor;
    forall iso, slug | iso in d'.countries && !HasCity(d', d'.countries[iso].id, slug)
      ensures FirstCity(cs[1..], iso, slug) == FirstCity(src.cities, iso, slug)
    {
      if d' != d { HasCityAfter(d, d', src, c, d.countries[iso].id, slug); }
      assert FirstCity(cs, iso, slug) == FirstCity(src.cities, iso, slug);
    }
  }

  /** Ready for the next candidate. */
  ghost predicate Inserting(d0: Db, d: Db, src: Source) {
    Partial(d0, d, src) && Settled(d, src) && AllFilled(d, src) && LegacyPresent(d0, src)
  }

  lemma UpsertKeeps(d0: Db, d: Db, src: Source, cs: seq<CitySource>)
    requires Inserting(d0, d, src) && cs != [] && PendingCities(d, src, cs) && Upsert(d, src, cs[0]).Some?
    ensures var d' := Upsert(d, src, cs[0]).value;
            Inserting(d0, d', src) && PendingCities(d', src, cs[1..]) && d'.countries == d.countries
  {
    var c, d' := cs[0], Upsert(d, src, cs[0]).value;
    StillPending(d, src, cs);
    UpsertInserts(d, src, c);
    hide Upsert, HasCity, RowFor, Partial, Settled, AllFilled, LegacyPresent;
    if d' != d {
      assert FirstCity(src.cities, c.country, c.slug) == FirstCity(cs, c.country, c.slug) == Some(c);
      InsertKeeps(d0, d, d', src, c);
    }
  }

  /** A row without a country row is one of d0 and not a legacy city. */
  lemma HomelessIsOld(d0: Db, d: Db, src: Source, p: Place)
    requires Inserting(d0, d, src) && p in d.cities
    ensures d.cities[p].country.None? ==>
              p in d0.cities && d0.cities[p].country.None? && forall l :: l in src.legacy ==> PlaceOf(l) != p
  {
    hide RegionOf;
    forall l | l in src.legacy ensures PlaceOf(l) == p ==> d.cities[p].country.Some? { assert IsFilled(d, src, l); }
    if p !in d0.cities { var iso :| NewCity(d, src, p, iso); }
  }

  lemma UpsertSucceeds(d0: Db, d: Db, src: Source, c: CitySource)
    requires Inserting(d0, d, src) && Compatible(d0, src) && c in src.cities && c.country in d.countries
    ensures Upsert(d, src, c).Some?
  {
    var at := Place(c.code, c.slug);
    if at in d.cities {
      HomelessIsOld(d0, d, src, at);
      assert PlaceIsFree(d0, src, at);
      var iso := CodeIsCountry(d0, d, src, at);
      assert HasCity(d, d.countries[c.country].id, c.slug);
    }
  }

  lemma {:induction false} BatchKeeps(d0: Db, d: Db, src: Source, batch: seq<CitySource>, rest: seq<CitySource>)
    requires Inserting(d0, d, src) && PendingCities(d, src, batch + rest)
    requires forall c :: c in batch ==> c.country in d.countries
    ensures var r := UpsertAll(d, src, batch);
            (Compatible(d0, src) ==> r.Some?) &&
            (r.Some? ==> Inserting(d0, r.value, src) && PendingCities(r.value, src, rest))
    decreases |batch|
  {
    var cs := batch + rest;
    assert forall c :: c in cs ==> c in src.cities;
    hide Inserting, Compatible, Upsert, PendingCities;
    if batch == [] {
      assert cs == rest;
    } else {
      assert cs[0] == batch[0] && cs[1..] == batch[1..] + rest;
      if Compatible(d0, src) { UpsertSucceeds(d0, d, src, cs[0]); }
      if Upsert(d, src, batch[0]).Some? {
        UpsertKeeps(d0, d, src, cs);
        BatchKeeps(d0, Upsert(d, src, batch[0]).value, src, batch[1..], rest);
      }
    }
  }

  lemma {:induction false} CitiesPhase(d0: Db, d: Db, src: Source, cs: seq<CitySource>, lives: nat)
    requires Inserting(d0, d, src) && PendingCities(d, src, cs)
    requires forall c :: c in cs ==> c.country in d.countries
    ensures var p := CitiesFrom(d, src, cs, lives);
            Inserting(d0, p.db, src) &&
            (p.outcome == Finished ==> PendingCities(p.db, src, [])) &&
            (Compatible(d0, src) ==> p.outcome != Rejected)
    decreases |cs|
  {
    hide Inserting, Compatible, UpsertAll, PendingCities;
    if cs != [] && lives > 0 {
      var n := Smaller(BATCH_SIZE, |cs|);
      assert cs[..n] + cs[n..] == cs;
      BatchKeeps(d0, d, src, cs[..n], cs[n..]);
      var r := UpsertAll(d, src, cs[..n]);
      if r.Some? {
        UpsertKeepsCountries(d, src, cs[..n]);
        CitiesPhase(d0, r.value, src, cs[n..], lives - 1);
      }
    }
  }

  lemma {:induction false} RemainingPending(d: Db, cs: seq<CitySource>, iso: string, slug: string)
    requires forall c :: c in cs ==> c.country in d.countries
    requires iso in d.countries && !HasImported(d, d.countries[iso].id, slug)
    ensures FirstCity(Remaining(d, cs), iso, slug) == FirstCity(cs, iso, slug)
  {
    hide HasImported;
    if cs != [] {
      var rest := Remaining(d, cs[1..]);
      assert [] + rest == rest && ([cs[0]] + rest)[1..] == rest;
      RemainingPending(d, cs[1..], iso, slug);
    }
  }

  // ---------- whole runs ----------

  lemma LegacyWasPresent(d0: Db, d: Db, src: Source)
    requires Partial(d0, d, src)
    ensures LegacyPresent(d, src) <==> LegacyPresent(d0, src)
  {
    hide NewCity, WasFilled;
    if !LegacyPresent(d0, src) {
      var l :| l in src.legacy && PlaceOf(l) !in d0.cities;
      assert PlaceOf(l) !in d.cities;
    }
  }

  lemma StartCities(d: Db, src: Source)
    requires ValidSource(src) && Settled(d, src)
    ensures forall c :: c in src.cities ==> c.country in d.countries
    ensures PendingCities(d, src, Remaining(d, src.cities))
  {
    forall c | c in src.cities ensures c.country in d.countries { assert Listed(src, c.country); }
    forall iso, slug | iso in d.countries && !HasCity(d, d.countries[iso].id, slug)
      ensures FirstCity(Remaining(d, src.cities), iso, slug) == FirstCity(src.cities, iso, slug)
    {
      RemainingPending(d, src.cities, iso, slug);
    }
  }

  lemma FinishedIsComplete(d: Db, src: Source)
    requires ValidSource(src) && Settled(d, src) && AllFilled(d, src) && PendingCities(d, src, [])
    ensures Complete(d, src)
  {
    hide HasCity, AllFilled;
    forall c | c in src.cities ensures c.country in d.countries && HasCity(d, d.countries[c.country].id, c.slug) {
      assert Listed(src, c.country);
      FirstCityIn(src.cities, c.country, c.slug);
    }
  }

  /** The legacy and city loops of a run. */
  lemma RestKeeps(d0: Db, d: Db, src: Source, lives: nat)
    requires ValidSource(src) && Partial(d0, d, src) && Settled(d, src) && LegacyPresent(d, src)
    ensures forall l :: l in src.legacy ==> l.country in d.countries
    ensures var r := BackfillFrom(d, src, src.legacy, lives);
            Partial(d0, r.db, src) && (Compatible(d0, src) ==> r.outcome != Rejected) &&
            (forall c :: c in src.cities ==> c.country in r.db.countries) &&
            (r.outcome == Finished ==>
               var p := CitiesFrom(r.db, src, Remaining(r.db, src.cities), r.lives);
               Partial(d0, p.db, src) && (p.outcome == Finished ==> Complete(p.db, src)) &&
               (Compatible(d0, src) ==> p.outcome != Rejected))
  {
    assert PendingLegacy(d, src, src.legacy);
    assert forall l :: l in src.legacy ==> l.country in d.countries;
    LegacyWasPresent(d0, d, src);
    BackfillPhase(d0, d, src, src.legacy, lives);
    BackfillKeepsCountries(d, src, src.legacy, lives);
    var r := BackfillFrom(d, src, src.legacy, lives);
    hide Partial, Compatible, AllFilled, BackfillFrom;
    if r.outcome == Finished {
      assert Inserting(d0, r.db, src);
      StartCities(r.db, src);
      CitiesPhase(d0, r.db, src, Remaining(r.db, src.cities), r.lives);
      var p := CitiesFrom(r.db, src, Remaining(r.db, src.cities), r.lives);
      if p.outcome == Finished { FinishedIsComplete(p.db, src); }
    }
  }

  lemma SettledAfterRegions(d: Db, src: Source)
    requires ValidSource(src) && CountriesListed(d, src) && PendingRegions(d, src, [])
    ensures Settled(d, src)
  {
    forall r | r in src.regions
      ensures r.country in d.countries && Key(d.countries[r.country].id, r.slug) in d.regions
    {
      assert Listed(src, r.country);
      FirstRegionIn(src.regions, r.country, r.slug);
    }
  }

  /** From any state between d0 and completion, every run ends in such a state again, wherever it is
      stopped; a run that finishes completes the import; and without conflicts no run is rejected. */
  lemma RunKeeps(d0: Db, d: Db, src: Source, lives: nat)
    requires ValidSource(src) && Partial(d0, d, src)
    ensures var p := Run(d, src, lives);
            Partial(d0, p.db, src) && (p.outcome == Finished ==> Complete(p.db, src)) &&
            (Compatible(d0, src) ==> p.outcome != Rejected)
  {
    LegacyWasPresent(d0, d, src);
    assert Compatible(d0, src) ==> LegacyPresent(d0, src);
    hide Partial, Compatible, LegacyPresent, AllFilled;
    if LegacyPresent(d, src) {
      CountriesPhase(d0, d, src, src.countries, lives);
      var p := CountriesFrom(d, src.countries, lives);
      if p.outcome == Finished {
        CountriesDone(d, src.countries, lives);
        assert CountriesListed(p.db, src);
        RegionsPhase(d0, p.db, src, src.regions, p.lives);
        var q := RegionsFrom(p.db, src.regions, p.lives);
        if q.outcome == Finished {
          SettledAfterRegions(q.db, src);
          LegacyWasPresent(d0, q.db, src);
          RestKeeps(d0, q.db, src, q.lives);
        }
      }
    }
  }

  // ---------- the same end, whatever happened on the way ----------

  /** Two region references name the same region, ids apart. */
  ghost predicate SameRegion(d: Db, e: Db, a: Option<Id>, b: Option<Id>) {
    if a.None? || b.None? then a == b
    else exists iso, slug :: iso in d.countries && iso in e.countries &&
           Key(d.countries[iso].id, slug) in d.regions && d.regions[Key(d.countries[iso].id, slug)].id == a.value &&
           Key(e.countries[iso].id, slug) in e.regions && e.regions[Key(e.countries[iso].id, slug)].id == b.value
  }

  ghost predicate SameCountry(d: Db, e: Db, a: Option<Id>, b: Option<Id>) {
    if a.None? || b.None? then a == b
    else exists iso :: iso in d.countries && iso in e.countries &&
                       d.countries[iso].id == a.value && e.countries[iso].id == b.value
  }

  ghost predicate SameRegionRow(d: Db, e: Db, iso: string, slug: string)
    requires iso in d.countries && iso in e.countries
  {
    var j, k := Key(d.countries[iso].id, slug), Key(e.countries[iso].id, slug);
    (j in d.regions <==> k in e.regions) && (j in d.regions ==> d.regions[j].data == e.regions[k].data)
  }

  ghost predicate SameCityRow(d: Db, e: Db, p: Place)
    requires p in d.cities && p in e.cities
  {
    var x, y := d.cities[p], e.cities[p];
    x.name == y.name && x.imported == y.imported && x.data == y.data &&
    SameCountry(d, e, x.country, y.country) && SameRegion(d, e, x.region, y.region)
  }

  /** The same countries, regions and cities, up to generated ids. */
  ghost predicate SameContent(d: Db, e: Db) {
    && d.countries.Keys == e.countries.Keys && d.cities.Keys == e.cities.Keys
    && (forall iso :: iso in d.countries ==> d.countries[iso].(id := 0) == e.countries[iso].(id := 0))
    && (forall iso, slug :: iso in d.countries ==> SameRegionRow(d, e, iso, slug))
    && (forall p :: p in d.cities ==> SameCityRow(d, e, p))
  }

  lemma SameCountries(d0: Db, d: Db, e: Db, src: Source)
    requires Partial(d0, d, src) && Complete(d, src) && Partial(d0, e, src) && Complete(e, src)
    ensures d.countries.Keys == e.countries.Keys
    ensures forall iso :: iso in d.countries ==> d.countries[iso].(id := 0) == e.countries[iso].(id := 0)
  {
    forall iso ensures iso in d.countries <==> iso in e.countries { FirstCountryIn(src.countries, iso); }
  }

  /** A key of d0 belongs to the same country in every later state. */
  lemma OldKey(d0: Db, d: Db, src: Source, k: Key) returns (iso: string)
    requires Partial(d0, d, src) && IsCountry(d0, k.country)
    ensures iso in d0.countries && iso in d.countries && d.countries[iso] == d0.countries[iso]
    ensures d0.countries[iso].id == k.country
    ensures forall other :: other in d.countries && d.countries[other].id == k.country ==> other == iso
  {
    iso :| iso in d0.countries && d0.countries[iso].id == k.country;
  }

  lemma RegionRowCarriesOver(d0: Db, d: Db, e: Db, src: Source, iso: string, slug: string)
    requires Partial(d0, d, src) && Partial(d0, e, src) && Complete(e, src)
    requires iso in d.countries && iso in e.countries && Key(d.countries[iso].id, slug) in d.regions
    ensures Key(e.countries[iso].id, slug) in e.regions
    ensures d.regions[Key(d.countries[iso].id, slug)].data == e.regions[Key(e.countries[iso].id, slug)].data
  {
    hide CitiesPartial, AllFilled;
    var j, k := Key(d.countries[iso].id, slug), Key(e.countries[iso].id, slug);
    if j in d0.regions {
      var i := OldKey(d0, d, src, j);
      assert e.countries[i] == d0.countries[i];
    } else {
      var i :| NewRegion(d, src, j, i);
      FirstRegionIn(src.regions, i, slug);
      assert i == iso && k in e.regions;
      if k in d0.regions { var i' := OldKey(d0, e, src, k); }
      else { var i' :| NewRegion(e, src, k, i'); }
    }
  }

  /** The region a source city names is the same one in any two settled states. */
  lemma {:induction false} RegionOfNames(
    d: Db, e: Db, src: Source, rs: seq<RegionSource>, state: Option<string>)
    requires Settled(d, src) && Settled(e, src) && forall r :: r in rs ==> r in src.regions
    ensures SameRegion(d, e, RegionOf(d, rs, state), RegionOf(e, rs, state))
  {
    if state.Some? && rs != [] {
      var last := rs[|rs| - 1];
      assert last in rs;
      if last.sourceId == state.value {
        assert Key(d.countries[last.country].id, last.slug) in d.regions;
        assert Key(e.countries[last.country].id, last.slug) in e.regions;
      } else {
        RegionOfNames(d, e, src, rs[..|rs| - 1], state);
      }
    }
  }

  lemma OldReference(d0: Db, d: Db, e: Db, src: Source, a: Option<Id>)
    requires Partial(d0, d, src) && Partial(d0, e, src) && IsRegion(d0, a)
    ensures SameRegion(d, e, a, a)
  {
    if a.Some? {
      var j :| j in d0.regions && d0.regions[j].id == a.value;
      var i := OldKey(d0, d, src, j);
      assert e.countries[i] == d0.countries[i];
      assert j == Key(d.countries[i].id, j.slug) == Key(e.countries[i].id, j.slug);
    }
  }

  lemma OldHome(d0: Db, d: Db, e: Db, src: Source, a: Option<Id>)
    requires Partial(d0, d, src) && Partial(d0, e, src) && (a.Some? ==> IsCountry(d0, a.value))
    ensures SameCountry(d, e, a, a)
  {
    if a.Some? {
      var i := OldKey(d0, d, src, Key(a.value, ""));
      assert e.countries[i] == d0.countries[i];
    }
  }

  /** A country of d0 has the same id everywhere. */
  lemma OldCountryShared(d0: Db, d: Db, e: Db, src: Source, iso: string)
    requires Partial(d0, d, src) && Partial(d0, e, src) && iso in d.countries && iso in e.countries
    ensures IsCountry(d0, e.countries[iso].id) ==> d.countries[iso].id == e.countries[iso].id
  {
    if IsCountry(d0, e.countries[iso].id) {
      var i := OldKey(d0, e, src, Key(e.countries[iso].id, ""));
      assert d.countries[i] == d0.countries[i];
    }
  }

  ghost predicate IsLegacy(src: Source, p: Place) {
    exists l :: l in src.legacy && PlaceOf(l) == p
  }

  /** Neither legacy nor new: the row of d0. */
  lemma OtherRowsUntouched(d0: Db, d: Db, src: Source, p: Place)
    requires Partial(d0, d, src) && p in d0.cities && !IsLegacy(src, p)
    ensures p in d.cities && d.cities[p] == d0.cities[p]
  {
    hide WellFormed;
  }

  lemma LegacyRowIs(d0: Db, d: Db, src: Source, l: Legacy)
    requires Partial(d0, d, src) && AllFilled(d, src) && l in src.legacy && PlaceOf(l) in d0.cities
    ensures l.country in d.countries && PlaceOf(l) in d.cities
    ensures d.cities[PlaceOf(l)] == Filled(d, src, l, d0.cities[PlaceOf(l)])
  {
    assert IsFilled(d, src, l);
    hide WellFormed, RegionOf;
  }

  lemma LegacyRowCarriesOver(d0: Db, d: Db, e: Db, src: Source, l: Legacy)
    requires Partial(d0, d, src) && Complete(d, src) && Partial(d0, e, src) && Complete(e, src)
    requires l in src.legacy && PlaceOf(l) in d0.cities
    ensures PlaceOf(l) in d.cities && PlaceOf(l) in e.cities && SameCityRow(d, e, PlaceOf(l))
  {
    LegacyRowIs(d0, d, src, l);
    LegacyRowIs(d0, e, src, l);
    RegionOfNames(d, e, src, src.regions, l.state);
    hide Partial, Complete, RegionOf, SameRegion;
  }

  /** A row of d0 that has the key of a country in one completed import has it in another. */
  lemma OldRowKeepsItsKey(d0: Db, d: Db, e: Db, src: Source, q: Place, iso: string)
    requires Partial(d0, d, src) && Complete(d, src) && Partial(d0, e, src) && Complete(e, src)
    requires iso in d.countries && iso in e.countries && q in e.cities
    requires e.cities[q].country == Some(e.countries[iso].id)
    ensures q in d0.cities ==> q in d.cities && d.cities[q].country == Some(d.countries[iso].id)
  {
    hide RegionOf;
    if q in d0.cities {
      if IsLegacy(src, q) {
        var l :| l in src.legacy && PlaceOf(l) == q;
        LegacyRowIs(d0, e, src, l);
        LegacyRowIs(d0, d, src, l);
        assert l.country == iso;
      } else {
        OtherRowsUntouched(d0, e, src, q);
        OtherRowsUntouched(d0, d, src, q);
        assert IsCountry(d0, e.countries[iso].id);
        OldCountryShared(d0, d, e, src, iso);
      }
    }
  }

  /** A completed import has a row for every candidate's key. */
  lemma RowOfCandidate(e: Db, src: Source, iso: string, slug: string) returns (q: Place)
    requires Complete(e, src) && FirstCity(src.cities, iso, slug).Some?
    ensures iso in e.countries && q in e.cities && q.slug == slug && e.cities[q].country == Some(e.countries[iso].id)
  {
    hide RegionOf, AllFilled;
    FirstCityIn(src.cities, iso, slug);
    assert HasCity(e, e.countries[iso].id, slug);
    q :| q in e.cities && q.slug == slug && e.cities[q].country == Some(e.countries[iso].id);
  }

  lemma NewCityIsHome(e: Db, src: Source, q: Place, iso: string)
    requires NewCity(e, src, q, iso)
    ensures iso in e.countries && q in e.cities && e.cities[q].country == Some(e.countries[iso].id)
  {
    hide RegionOf;
  }

  lemma SamePlace(d: Db, e: Db, src: Source, p: Place, q: Place, iso: string)
    requires NewCity(d, src, p, iso) && NewCity(e, src, q, iso) && p.slug == q.slug
    ensures p == q
  {
    hide RowFor, FirstCity;
  }

  /** The row of a new city in one completed import is the row of the same candidate in another. */
  lemma NewRowIsThere(d0: Db, d: Db, e: Db, src: Source, p: Place, iso: string)
    requires Partial(d0, d, src) && Complete(d, src) && Partial(d0, e, src) && Complete(e, src)
    requires p !in d0.cities && NewCity(d, src, p, iso) && LegacyPresent(d0, src)
    ensures iso in e.countries && NewCity(e, src, p, iso)
  {
    var q := RowOfCandidate(e, src, iso, p.slug);
    OldRowKeepsItsKey(d0, d, e, src, q, iso);
    assert CityKeys(d) && CountryIds(e) && d.cities[p].country == Some(d.countries[iso].id);
    assert q !in d0.cities;
    var other :| NewCity(e, src, q, other);
    hide Partial, Complete, RowFor, FirstCity;
    assert e.cities[q].country == Some(e.countries[other].id) by { NewCityIsHome(e, src, q, other); }
    assert other == iso;
    SamePlace(d, e, src, p, q, iso);
  }

  lemma NewRowCarriesOver(d0: Db, d: Db, e: Db, src: Source, p: Place)
    requires Partial(d0, d, src) && Complete(d, src) && Partial(d0, e, src) && Complete(e, src)
    requires p !in d0.cities && p in d.cities
    ensures p in e.cities && SameCityRow(d, e, p)
  {
    var iso :| NewCity(d, src, p, iso);
    assert LegacyPresent(d0, src);
    NewRowIsThere(d0, d, e, src, p, iso);
    RegionOfNames(d, e, src, src.regions, FirstCity(src.cities, iso, p.slug).value.state);
    hide Partial, Complete, RegionOf, SameRegion, FirstCity;
  }

  lemma CityRowCarriesOver(d0: Db, d: Db, e: Db, src: Source, p: Place)
    requires Partial(d0, d, src) && Complete(d, src) && Partial(d0, e, src) && Complete(e, src)
    requires p in d.cities
    ensures p in e.cities && SameCityRow(d, e, p)
  {
    if p !in d0.cities {
      hide Partial, Complete, SameCityRow;
      NewRowCarriesOver(d0, d, e, src, p);
    } else if IsLegacy(src, p) {
      hide Partial, Complete, SameCityRow;
      var l :| l in src.legacy && PlaceOf(l) == p;
      LegacyRowCarriesOver(d0, d, e, src, l);
    } else {
      assert WellFormed(d0);
      hide Partial, Complete;
      OtherRowsUntouched(d0, d, src, p);
      OtherRowsUntouched(d0, e, src, p);
      OldHome(d0, d, e, src, d0.cities[p].country);
      OldReference(d0, d, e, src, d0.cities[p].region);
    }
  }

  lemma CompletedImportsAgree(d0: Db, d: Db, e: Db, src: Source)
    requires Partial(d0, d, src) && Complete(d, src) && Partial(d0, e, src) && Complete(e, src)
    ensures SameContent(d, e)
  {
    hide Partial, Complete, SameCityRow;
    SameCountries(d0, d, e, src);
    forall iso, slug | iso in d.countries ensures SameRegionRow(d, e, iso, slug) {
      if Key(d.countries[iso].id, slug) in d.regions { RegionRowCarriesOver(d0, d, e, src, iso, slug); }
      if Key(e.countries[iso].id, slug) in e.regions { RegionRowCarriesOver(d0, e, d, src, iso, slug); }
    }
    forall p | p in d.cities ensures p in e.cities && SameCityRow(d, e, p) { CityRowCarriesOver(d0, d, e, src, p); }
    forall p | p in e.cities ensures p in d.cities { CityRowCarriesOver(d0, e, d, src, p); }
  }

  // ---------- any number of interrupted runs ----------

  /** The database after runs stopped after the given numbers of durable writes. */
  function After(d: Db, src: Source, runs: seq<nat>): Db
    requires ValidSource(src)
    decreases |runs|
  {
    if runs == [] then d else After(Run(d, src, runs[0]).db, src, runs[1..])
  }

  lemma {:induction false} AfterKeeps(d0: Db, d: Db, src: Source, runs: seq<nat>)
    requires ValidSource(src) && Partial(d0, d, src)
    ensures Partial(d0, After(d, src, runs), src)
    decreases |runs|
  {
    if runs != [] {
      RunKeeps(d0, d, src, runs[0]);
      AfterKeeps(d0, Run(d, src, runs[0]).db, src, runs[1..]);
    }
  }

  lemma StartIsPartial(d: Db, src: Source)
    requires WellFormed(d)
    ensures Partial(d, d, src)
  {
  }

  /** Main result: a run that finishes after any number of stopped runs leaves the same countries,
      regions and cities as any other way of finishing, an uninterrupted run included. */
  lemma Resumable(d0: Db, src: Source, stopped: seq<nat>, lives: nat, stopped': seq<nat>, lives': nat)
    requires ValidSource(src) && WellFormed(d0)
    requires Run(After(d0, src, stopped), src, lives).outcome == Finished
    requires Run(After(d0, src, stopped'), src, lives').outcome == Finished
    ensures SameContent(Run(After(d0, src, stopped), src, lives).db, Run(After(d0, src, stopped'), src, lives').db)
  {
    StartIsPartial(d0, src);
    AfterKeeps(d0, d0, src, stopped);
    AfterKeeps(d0, d0, src, stopped');
    RunKeeps(d0, After(d0, src, stopped), src, lives);
    RunKeeps(d0, After(d0, src, stopped'), src, lives');
    var one := Run(After(d0, src, stopped), src, lives).db;
    var other := Run(After(d0, src, stopped'), src, lives').db;
    CompletedImportsAgree(d0, one, other, src);
  }

  /** No run changes or re-creates a row that is there when it starts, whatever it started from, but for
      legacy cities, which keep their place and name. */
  lemma RowsAreKept(d: Db, src: Source, lives: nat)
    requires ValidSource(src) && WellFormed(d)
    ensures var d' := Run(d, src, lives).db;
            (forall iso :: iso in d.countries ==> iso in d'.countries && d'.countries[iso] == d.countries[iso]) &&
            (forall k :: k in d.regions ==> k in d'.regions && d'.regions[k] == d.regions[k]) &&
            (forall p :: p in d.cities ==>
               p in d'.cities && d'.cities[p].name == d.cities[p].name &&
               (IsLegacy(src, p) || d'.cities[p] == d.cities[p]))
  {
    StartIsPartial(d, src);
    RunKeeps(d, d, src, lives);
    hide Run, RegionOf;
  }

  /** A row with the key of c, which is c's own or was there before the import. */
  ghost predicate HasItsRow(d0: Db, d: Db, src: Source, c: CitySource)
    requires c.country in d.countries
  {
    var id := d.countries[c.country].id;
    exists p :: p in d.cities && p.slug == c.slug && d.cities[p].country == Some(id) &&
                (p in d0.cities || (p.code == c.code && d.cities[p] == RowFor(d, src, c, id)))
  }

  /** In a completed import every candidate has its own row, unless its key was taken before the import,
      by a legacy city for one: for distinct keys no source city disappears. */
  lemma EveryCityHasItsRow(d0: Db, d: Db, src: Source, c: CitySource)
    requires Partial(d0, d, src) && Complete(d, src) && c in src.cities
    requires forall other :: other in src.cities && other.country == c.country && other.slug == c.slug ==> other == c
    ensures c.country in d.countries
    ensures HasItsRow(d0, d, src, c)
  {
    hide RegionOf;
    var id := d.countries[c.country].id;
    assert HasCity(d, id, c.slug);
    var p :| p in d.cities && p.slug == c.slug && d.cities[p].country == Some(id);
    if p !in d0.cities {
      var iso :| NewCity(d, src, p, iso);
      FirstCityIn(src.cities, iso, p.slug);
      assert iso == c.country;
    }
  }

  ghost predicate TakenBy(d0: Db, src: Source, c: CitySource, p: Place)
    requires p in d0.cities
  {
    if IsLegacy(src, p) then p.code == c.country
    else c.country in d0.countries && d0.cities[p].country == Some(d0.countries[c.country].id)
  }

  /** The key of c will belong to a row from before the import: a legacy city of its country and slug, or a
      row that already has its country row and slug. */
  ghost predicate Taken(d0: Db, src: Source, c: CitySource) {
    exists p :: p in d0.cities && p.slug == c.slug && TakenBy(d0, src, c, p)
  }

  ghost predicate HasOwnRow(d0: Db, d: Db, src: Source, c: CitySource)
    requires c.country in d.countries
  {
    Place(c.code, c.slug) in d.cities && Place(c.code, c.slug) !in d0.cities &&
    d.cities[Place(c.code, c.slug)] == RowFor(d, src, c, d.countries[c.country].id)
  }

  /** A row of d0 has the key of c after the import exactly when it takes it. */
  lemma TakenByIff(d0: Db, d: Db, src: Source, c: CitySource, p: Place)
    requires Partial(d0, d, src) && Complete(d, src) && c in src.cities && p in d0.cities && c.country in d.countries
    ensures p in d.cities
    ensures d.cities[p].country == Some(d.countries[c.country].id) <==> TakenBy(d0, src, c, p)
  {
    hide RegionOf;
    if IsLegacy(src, p) {
      var l :| l in src.legacy && PlaceOf(l) == p;
      LegacyRowIs(d0, d, src, l);
    } else {
      OtherRowsUntouched(d0, d, src, p);
      if d0.cities[p].country == Some(d.countries[c.country].id) {
        assert IsCountry(d0, d0.cities[p].country.value);
        var iso := OldKey(d0, d, src, Key(d.countries[c.country].id, ""));
        assert iso == c.country;
      }
    }
  }

  /** Exactly when a candidate whose key no other has gets a row of its own. */
  lemma OwnRowIff(d0: Db, d: Db, src: Source, c: CitySource)
    requires Partial(d0, d, src) && Complete(d, src) && c in src.cities && c.country in d.countries
    requires forall other :: other in src.cities && other.country == c.country && other.slug == c.slug ==> other == c
    ensures HasOwnRow(d0, d, src, c) <==> !Taken(d0, src, c)
  {
    EveryCityHasItsRow(d0, d, src, c);
    assert CityKeys(d) && WellFormed(d);
    hide RegionOf, Partial, Complete, TakenBy, WellFormed;
    var id := d.countries[c.country].id;
    forall p | p in d0.cities
      ensures p in d.cities && (d.cities[p].country == Some(id) <==> TakenBy(d0, src, c, p))
    {
      TakenByIff(d0, d, src, c, p);
    }
    var p :| p in d.cities && p.slug == c.slug && d.cities[p].country == Some(id) &&
             (p in d0.cities || (p.code == c.code && d.cities[p] == RowFor(d, src, c, id)));
    assert p !in d0.cities ==> p == Place(c.code, c.slug);
  }

  // ---------- after completion ----------

  lemma {:induction false} CountriesIdle(d: Db, cs: seq<CountrySource>, lives: nat)
    requires forall c :: c in cs ==> c.iso in d.countries
    ensures CountriesFrom(d, cs, lives) == Progress(d, lives, Finished)
    decreases |cs|
  {
    if cs != [] { CountriesIdle(d, cs[1..], lives); }
  }

  lemma {:induction false} RegionsIdle(d: Db, rs: seq<RegionSource>, lives: nat)
    requires forall r :: r in rs ==> r.country in d.countries && Key(d.countries[r.country].id, r.slug) in d.regions
    ensures RegionsFrom(d, rs, lives) == Progress(d, lives, Finished)
    decreases |rs|
  {
    if rs != [] { RegionsIdle(d, rs[1..], lives); }
  }

  lemma {:induction false} BackfillIdle(d: Db, src: Source, ls: seq<Legacy>, lives: nat)
    requires AllFilled(d, src) && forall l :: l in ls ==> l in src.legacy && l.country in d.countries
    ensures BackfillFrom(d, src, ls, lives).db == d
    decreases |ls|
  {
    if ls != [] && lives > 0 {
      assert IsFilled(d, src, ls[0]);
      hide Filled, BackfillClash;
      assert d.cities[PlaceOf(ls[0]) := d.cities[PlaceOf(ls[0])]] == d.cities;
      if Backfill(d, src, ls[0]).Some? { BackfillIdle(d, src, ls[1..], lives - 1); }
    }
  }

  ghost predicate AllPresent(d: Db, cs: seq<CitySource>) {
    forall c :: c in cs ==> c.country in d.countries && HasCity(d, d.countries[c.country].id, c.slug)
  }

  lemma {:induction false} BatchIdle(d: Db, src: Source, batch: seq<CitySource>)
    requires AllPresent(d, batch)
    ensures UpsertAll(d, src, batch) == Some(d)
    decreases |batch|
  {
    hide HasCity;
    if batch != [] { BatchIdle(d, src, batch[1..]); }
  }

  lemma {:induction false} CitiesIdle(d: Db, src: Source, cs: seq<CitySource>, lives: nat)
    requires AllPresent(d, cs)
    ensures CitiesFrom(d, src, cs, lives).db == d
    decreases |cs|
  {
    if cs != [] && lives > 0 {
      var n := Smaller(BATCH_SIZE, |cs|);
      BatchIdle(d, src, cs[..n]);
      CitiesIdle(d, src, cs[n..], lives - 1);
    }
  }

  /** A run after completion leaves the database as it is: its updates write what is there. */
  lemma CompletedRunIsIdle(d: Db, src: Source, lives: nat)
    requires ValidSource(src) && Complete(d, src)
    ensures Run(d, src, lives).db == d
  {
    hide HasCity, Backfill;
    CountriesIdle(d, src.countries, lives);
    RegionsIdle(d, src.regions, lives);
    assert forall l :: l in src.legacy ==> IsFilled(d, src, l);
    BackfillIdle(d, src, src.legacy, lives);
    CitiesIdle(d, src, Remaining(d, src.cities), BackfillFrom(d, src, src.legacy, lives).lives);
  }

  // ---------- finishing ----------

  lemma {:induction false} EnoughForCountries(d: Db, cs: seq<CountrySource>, lives: nat)
    requires lives >= |cs|
    ensures var p := CountriesFrom(d, cs, lives); p.outcome != Stopped && p.lives >= lives - |cs|
    decreases |cs|
  {
    if cs != [] {
      if cs[0].iso in d.countries { EnoughForCountries(d, cs[1..], lives); }
      else if !CountryClash(d, cs[0]) { EnoughForCountries(AddCountry(d, cs[0]), cs[1..], lives - 1); }
    }
  }

  lemma {:induction false} EnoughForRegions(d: Db, rs: seq<RegionSource>, lives: nat)
    requires lives >= |rs| && forall r :: r in rs ==> r.country in d.countries
    ensures var p := RegionsFrom(d, rs, lives); p.outcome == Finished && p.lives >= lives - |rs|
    decreases |rs|
  {
    if rs != [] {
      if Key(d.countries[rs[0].country].id, rs[0].slug) in d.regions { EnoughForRegions(d, rs[1..], lives); }
      else { EnoughForRegions(AddRegion(d, rs[0]), rs[1..], lives - 1); }
    }
  }

  lemma {:induction false} EnoughForCities(d: Db, src: Source, cs: seq<CitySource>, lives: nat)
    requires lives >= |cs| && forall c :: c in cs ==> c.country in d.countries
    ensures CitiesFrom(d, src, cs, lives).outcome != Stopped
    decreases |cs|
  {
    if cs != [] {
      var n := Smaller(BATCH_SIZE, |cs|);
      var r := UpsertAll(d, src, cs[..n]);
      if r.Some? {
        UpsertKeepsCountries(d, src, cs[..n]);
        EnoughForCities(r.value, src, cs[n..], lives - 1);
      }
    }
  }

  lemma {:induction false} RemainingShorter(d: Db, cs: seq<CitySource>)
    requires forall c :: c in cs ==> c.country in d.countries
    ensures |Remaining(d, cs)| <= |cs|
  {
    if cs != [] { RemainingShorter(d, cs[1..]); }
  }

  lemma {:induction false} EnoughForLegacy(d: Db, src: Source, ls: seq<Legacy>, lives: nat)
    requires lives >= |ls| && forall l :: l in ls ==> l.country in d.countries
    ensures var p := BackfillFrom(d, src, ls, lives); p.outcome != Stopped && p.lives >= lives - |ls|
    decreases |ls|
  {
    hide BackfillClash, Filled;
    if ls != [] && Backfill(d, src, ls[0]).Some? {
      EnoughForLegacy(Backfill(d, src, ls[0]).value, src, ls[1..], lives - 1);
    }
  }

  /** With no conflict in the data, a run that is not stopped finishes: as many durable writes as there
      are source rows are always enough. */
  lemma UninterruptedRunFinishes(d0: Db, src: Source, stopped: seq<nat>, lives: nat)
    requires ValidSource(src) && WellFormed(d0) && Compatible(d0, src)
    requires lives >= |src.countries| + |src.regions| + |src.legacy| + |src.cities|
    ensures Run(After(d0, src, stopped), src, lives).outcome == Finished
  {
    StartIsPartial(d0, src);
    AfterKeeps(d0, d0, src, stopped);
    var d := After(d0, src, stopped);
    RunKeeps(d0, d, src, lives);
    hide Partial, Compatible, LegacyPresent, After;
    EnoughForCountries(d, src.countries, lives);
    CountriesDone(d, src.countries, lives);
    var p := CountriesFrom(d, src.countries, lives);
    if p.outcome == Finished {
      EnoughForRegions(p.db, src.regions, p.lives);
      RegionsKeepCountries(p.db, src.regions, p.lives);
      var q := RegionsFrom(p.db, src.regions, p.lives);
      EnoughForLegacy(q.db, src, src.legacy, q.lives);
      BackfillKeepsCountries(q.db, src, src.legacy, q.lives);
      var r := BackfillFrom(q.db, src, src.legacy, q.lives);
      RemainingShorter(r.db, src.cities);
      EnoughForCities(r.db, src, Remaining(r.db, src.cities), r.lives);
    }
  }

  function RowOf(d: Db, r: RegionSource): RegionRow
    requires r.country in d.countries && Key(d.countries[r.country].id, r.slug) in d.regions
  {
    d.regions[Key(d.countries[r.country].id, r.slug)]
  }

  /** Two source regions end on one row exactly when their country and final slug agree. */
  lemma SharedRegionIff(d: Db, src: Source, r: RegionSource, s: RegionSource)
    requires WellFormed(d) && Settled(d, src) && r in src.regions && s in src.regions
    ensures RowOf(d, r).id == RowOf(d, s).id <==> r.country == s.country && r.slug == s.slug
  {
    assert Key(d.countries[r.country].id, r.slug) == Key(d.countries[s.country].id, s.slug) ==> r.country == s.country;
  }
}
