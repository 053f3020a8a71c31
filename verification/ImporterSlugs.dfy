/**
 The slug assignments carried to the rows the importer writes: which source regions share a row, and
 that no source city is lost.
 */
module ImporterSlugs {
  import opened Wrappers
  import opened Importer
  import opened ImporterResume
  import CitySlugs
  import RegionSlugs
  import TwoTier

  type Slugify = string -> string
  type Region = RegionSlugs.Region

  // ---------- regions ----------

  /** Source region r is the region x of its country, with the slug the rule gives it. */
  ghost predicate NamedRegion(slug: TwoTier.Slugify, all: map<string, set<Region>>, r: RegionSource, x: Region) {
    && r.country in all && x in all[r.country] && x.id == r.sourceId
    && r.slug == RegionSlugs.SlugOf(slug, all[r.country], x)
  }

  /** Source ids are distinct and, like the dataset's numbers, have no dash. */
  ghost predicate SourceIds(regions: set<Region>) {
    && (forall x, y :: x in regions && y in regions && x.id == y.id ==> x == y)
    && (forall x :: x in regions ==> '-' !in x.id)
  }

  /** Why two regions of a country may end on one slug. */
  ghost predicate Collide(slug: TwoTier.Slugify, regions: set<Region>, x: Region, y: Region) {
    if RegionSlugs.Bare(slug, x) == RegionSlugs.Bare(slug, y)
    then RegionSlugs.SpellsOut(slug, regions, x, y) || RegionSlugs.SpellsOut(slug, regions, y, x)
    else RegionSlugs.Extends(slug, regions, x, y) || RegionSlugs.Extends(slug, regions, y, x)
  }

  /** Main result: two source regions are one row exactly when they are the same region, or their names
      and codes spell the same slug in one of the ways named. */
  lemma RegionsShareARowIff(
    slug: TwoTier.Slugify, all: map<string, set<Region>>, d: Db, src: Source,
    r: RegionSource, s: RegionSource, x: Region, y: Region)
    requires WellFormed(d) && Settled(d, src) && r in src.regions && s in src.regions
    requires NamedRegion(slug, all, r, x) && NamedRegion(slug, all, s, y) && SourceIds(all[r.country])
    ensures RowOf(d, r).id == RowOf(d, s).id <==>
            r.country == s.country && (x == y || Collide(slug, all[r.country], x, y))
  {
    SharedRegionIff(d, src, r, s);
    hide WellFormed, Settled, RegionSlugs.SlugOf, RegionSlugs.SpellsOut, RegionSlugs.Extends, RegionSlugs.Bare;
    if r.country == s.country && x != y {
      var regions := all[r.country];
      if RegionSlugs.Bare(slug, x) == RegionSlugs.Bare(slug, y) {
        RegionSlugs.SameNameCollideIff(slug, regions, x, y);
      } else {
        RegionSlugs.DifferentNamesCollideIff(slug, regions, x, y);
      }
    }
  }

  // ---------- cities ----------

  /** The cities to import are those the assignment gave a slug, each source row once. */
  ghost predicate NamedCities(
    slug: TwoTier.Slugify, all: map<string, set<CitySlugs.Candidate>>, src: Source,
    of: CitySource -> CitySlugs.Candidate)
  {
    && (forall c :: c in src.cities ==>
          c.country in all && of(c) in all[c.country] &&
          CitySlugs.Outcome(slug, all[c.country], of(c)) == CitySlugs.Assigned(c.slug))
    && (forall b, c | b in src.cities && c in src.cities :: b.country == c.country && of(b) == of(c) ==> b == c)
  }

  /** Main result: with the slugs of the assignment no source city disappears into another.  After a
      completed import each has a row of its own exactly when its key was not taken before the import, by a
      legacy city or a row already there. */
  lemma NoCityDisappears(
    slug: TwoTier.Slugify, all: map<string, set<CitySlugs.Candidate>>, of: CitySource -> CitySlugs.Candidate,
    d0: Db, d: Db, src: Source, c: CitySource)
    requires NamedCities(slug, all, src, of) && Partial(d0, d, src) && Complete(d, src) && c in src.cities
    ensures c.country in d.countries && HasItsRow(d0, d, src, c)
    ensures HasOwnRow(d0, d, src, c) <==> !Taken(d0, src, c)
  {
    hide CitySlugs.Outcome, Partial, Complete;
    forall other | other in src.cities && other.country == c.country && other.slug == c.slug ensures other == c {
      if of(other) != of(c) {
        CitySlugs.AssignedSlugsDiffer(slug, all[c.country], of(c), of(other));
      }
    }
    EveryCityHasItsRow(d0, d, src, c);
    OwnRowIff(d0, d, src, c);
  }

  /** A database with one legacy city, and a source with a new city of the same country and slug. */
  const BEFORE := Db(map[], map[], map[Place("X", "a") := CityRow(None, "A", None, false, "old")], 0)
  const CLAIMANT := CitySource("X", "a", "X", "A", None, "new")
  const CLAIMED :=
    Source([CountrySource("X", None, "x", "")], [], [Legacy("X", "a", None, "legacy")], [CLAIMANT])

  /** The import finishes and nothing is left of the new city. */
  lemma LegacyKeyIsSkipped()
    ensures ValidSource(CLAIMED) && WellFormed(BEFORE) && Taken(BEFORE, CLAIMED, CLAIMANT)
    ensures var p := Run(BEFORE, CLAIMED, 3);
            p.outcome == Finished &&
            p.db.cities == map[Place("X", "a") := CityRow(Some(0), "A", None, true, "legacy")]
  {
    var src, d0 := CLAIMED, BEFORE;
    var l := src.legacy[0];
    assert src.countries[0] in src.countries && l in src.legacy && PlaceOf(l) == Place("X", "a");
    assert Place("X", "a") in d0.cities;
    var d1 := AddCountry(d0, src.countries[0]);
    assert CountriesFrom(d0, src.countries, 3) == Progress(d1, 2, Finished) by {
      assert src.countries[1..] == [];
    }
    var d2 := d1.(cities := map[Place("X", "a") := CityRow(Some(0), "A", None, true, "legacy")]);
    var p := Place("X", "a");
    assert d1.cities == d0.cities && !BackfillClash(d1, l);
    assert Filled(d1, src, l, d1.cities[p]) == CityRow(Some(0), "A", None, true, "legacy");
    assert d1.cities[p := CityRow(Some(0), "A", None, true, "legacy")] == d2.cities;
    assert Backfill(d1, src, l) == Some(d2);
    assert BackfillFrom(d1, src, src.legacy, 2) == Progress(d2, 1, Finished) by {
      assert src.legacy[1..] == [];
    }
    assert HasImported(d2, 0, "a");
    assert Remaining(d2, src.cities) == [] by {
      assert src.cities[1..] == [];
    }
  }

  /** And two source cities never share a row. */
  lemma CitiesHaveTheirOwnRows(
    slug: TwoTier.Slugify, all: map<string, set<CitySlugs.Candidate>>, of: CitySource -> CitySlugs.Candidate,
    d: Db, src: Source, b: CitySource, c: CitySource, p: Place)
    requires NamedCities(slug, all, src, of) && WellFormed(d) && b in src.cities && c in src.cities && b != c
    requires b.country in d.countries && c.country in d.countries && p in d.cities
    requires p.slug == b.slug && d.cities[p].country == Some(d.countries[b.country].id)
    ensures !(p.slug == c.slug && d.cities[p].country == Some(d.countries[c.country].id))
  {
    hide CitySlugs.Outcome;
    if b.country == c.country && of(b) != of(c) {
      CitySlugs.AssignedSlugsDiffer(slug, all[c.country], of(b), of(c));
    }
  }
}
