/**
 Slug assignment for the cities of one country: bare name, then region name, then region code, never
 a guess.  The result is defined on the set of candidates, so it cannot depend on their order.
 Normalising and slugifying a name is a parameter.
 */
module CitySlugs {
  import opened Wrappers
  import opened Grouping
  import opened TwoTier

  datatype Candidate = Candidate(
    sourceId: string, cityName: string, regionName: Option<string>, regionCode: Option<string>)

  datatype Resolution = Assigned(slug: string) | UnresolvedCollision(bareSlug: string, regionSlug: Option<string>)

  /** An optional text that is neither missing nor empty. */
  predicate Present(o: Option<string>) {
    o.Some? && o.value != ""
  }

  function Bare(slug: Slugify, c: Candidate): string {
    slug(c.cityName)
  }

  function Regional(slug: Slugify, c: Candidate): string {
    if Present(c.regionName) && slug(c.regionName.value) != "" then Bare(slug, c) + "-" + slug(c.regionName.value)
    else Bare(slug, c)
  }

  // ---------- the rule ----------

  function Id(): Candidate -> string {
    (c: Candidate) => c.sourceId
  }

  /** Stage 1 as a two-level grouping. */
  function CityRule(slug: Slugify): Rule<Candidate, Resolution> {
    Rule(Id(), c => Bare(slug, c), c => Regional(slug, c),
         c => Assigned(Bare(slug, c)),
         c => Assigned(Regional(slug, c)),
         c => UnresolvedCollision(Bare(slug, c),
                if Regional(slug, c) == Bare(slug, c) then None else Some(Regional(slug, c))))
  }

  /** The slug of the first two tiers. */
  ghost function Named(slug: Slugify, all: set<Candidate>, c: Candidate): string {
    if Alone(CityRule(slug), all, c) then Bare(slug, c) else Regional(slug, c)
  }

  ghost predicate NamedAlone(slug: Slugify, all: set<Candidate>, c: Candidate) {
    Alone(CityRule(slug), all, c) || AloneInside(CityRule(slug), all, c)
  }

  /** Resolved by name: no other candidate resolved within its own group has the same slug. */
  ghost predicate ByName(slug: Slugify, all: set<Candidate>, c: Candidate) {
    NamedAlone(slug, all, c) &&
    forall d :: d in all && NamedAlone(slug, all, d) && Named(slug, all, d) == Named(slug, all, c) ==> d == c
  }

  ghost predicate Proposes(slug: Slugify, all: set<Candidate>, c: Candidate) {
    !ByName(slug, all, c) && Present(c.regionCode)
  }

  ghost function Coded(slug: Slugify, all: set<Candidate>, c: Candidate): string
    requires Present(c.regionCode)
  {
    Named(slug, all, c) + "-" + slug(c.regionCode.value)
  }

  /** Resolved by region code: no slug resolved by name and no other proposal is the same. */
  ghost predicate ByCode(slug: Slugify, all: set<Candidate>, c: Candidate) {
    Proposes(slug, all, c) &&
    (forall d :: d in all && ByName(slug, all, d) ==> Named(slug, all, d) != Coded(slug, all, c)) &&
    (forall d :: d in all && Proposes(slug, all, d) && Coded(slug, all, d) == Coded(slug, all, c) ==> d == c)
  }

  ghost function Collision(slug: Slugify, all: set<Candidate>, c: Candidate): Resolution {
    UnresolvedCollision(Bare(slug, c),
      if Named(slug, all, c) == Bare(slug, c) then None else Some(Named(slug, all, c)))
  }

  ghost function Outcome(slug: Slugify, all: set<Candidate>, c: Candidate): Resolution {
    if ByName(slug, all, c) then Assigned(Named(slug, all, c))
    else if ByCode(slug, all, c) then Assigned(Coded(slug, all, c))
    else Collision(slug, all, c)
  }

  // ---------- what the rule promises ----------

  /** Main result: no two candidates of a country are ever assigned the same slug. */
  lemma AssignedSlugsDiffer(slug: Slugify, all: set<Candidate>, c: Candidate, d: Candidate)
    requires c in all && d in all && c != d
    requires Outcome(slug, all, c).Assigned? && Outcome(slug, all, d).Assigned?
    ensures Outcome(slug, all, c).slug != Outcome(slug, all, d).slug
  {
  }

  lemma LongerText(a: string, b: string)
    ensures a + "-" + b != a
  {
    assert |a + "-" + b| > |a|;
  }

  /** A name nobody shares is kept bare, whenever no disambiguated slug of another name equals it. */
  lemma UniqueNamesStayBare(slug: Slugify, all: set<Candidate>, c: Candidate)
    requires c in all && Alone(CityRule(slug), all, c)
    ensures Outcome(slug, all, c) == Assigned(Bare(slug, c)) <==>
            (forall d :: d in all && d != c && !Alone(CityRule(slug), all, d) && AloneInside(CityRule(slug), all, d) ==>
               Regional(slug, d) != Bare(slug, c))
  {
    if Present(c.regionCode) { LongerText(Bare(slug, c), slug(c.regionCode.value)); }
    if ByName(slug, all, c) {
      forall d | d in all && d != c && !Alone(CityRule(slug), all, d) && AloneInside(CityRule(slug), all, d)
        ensures Regional(slug, d) != Bare(slug, c)
      {
        assert NamedAlone(slug, all, d) && Named(slug, all, d) == Regional(slug, d);
      }
    } else {
      var d :| d in all && NamedAlone(slug, all, d) && Named(slug, all, d) == Named(slug, all, c) && d != c;
      assert !Alone(CityRule(slug), all, d);
    }
  }

  ghost predicate SharesItsName(slug: Slugify, all: set<Candidate>, c: Candidate) {
    exists d :: d in all && d != c && slug(d.cityName) == slug(c.cityName)
  }

  /** The name, followed by the region's where the name is shared and the region has a slug. */
  ghost function Readable(slug: Slugify, all: set<Candidate>, c: Candidate): string {
    if SharesItsName(slug, all, c) && c.regionName.Some? && c.regionName.value != "" &&
       slug(c.regionName.value) != ""
    then slug(c.cityName) + "-" + slug(c.regionName.value)
    else slug(c.cityName)
  }

  /** No other candidate of the same name has the same readable slug. */
  ghost predicate Distinguished(slug: Slugify, all: set<Candidate>, c: Candidate) {
    forall d :: d in all && d != c && slug(d.cityName) == slug(c.cityName) ==>
      Readable(slug, all, d) != Readable(slug, all, c)
  }

  lemma NamedIsReadable(slug: Slugify, all: set<Candidate>, c: Candidate)
    requires c in all
    ensures Named(slug, all, c) == Readable(slug, all, c)
    ensures NamedAlone(slug, all, c) <==> Distinguished(slug, all, c)
  {
    forall d | d in all ensures Named(slug, all, d) == Readable(slug, all, d) {
      assert Alone(CityRule(slug), all, d) <==> !SharesItsName(slug, all, d);
    }
    forall d | d in all && d != c && slug(d.cityName) == slug(c.cityName)
      ensures Readable(slug, all, d) == Regional(slug, d) && Readable(slug, all, c) == Regional(slug, c)
    {
    }
    hide Readable, Regional;
  }

  /** The readable slug is distinguished within its name and no other such candidate has it. */
  ghost predicate Settles(slug: Slugify, all: set<Candidate>, c: Candidate) {
    Distinguished(slug, all, c) &&
    forall d :: d in all && d != c && Distinguished(slug, all, d) ==> Readable(slug, all, d) != Readable(slug, all, c)
  }

  /** Not settled, and the readable slug, dash, region code is this one. */
  ghost predicate FallsBackOn(slug: Slugify, all: set<Candidate>, c: Candidate, s: string) {
    !Settles(slug, all, c) && c.regionCode.Some? && c.regionCode.value != "" &&
    s == Readable(slug, all, c) + "-" + slug(c.regionCode.value)
  }

  lemma SettlesIsByName(slug: Slugify, all: set<Candidate>, c: Candidate)
    requires c in all
    ensures ByName(slug, all, c) <==> Settles(slug, all, c)
  {
    forall d | d in all
      ensures Named(slug, all, d) == Readable(slug, all, d)
      ensures NamedAlone(slug, all, d) <==> Distinguished(slug, all, d)
    {
      NamedIsReadable(slug, all, d);
    }
    hide Readable, Distinguished, Named, NamedAlone;
  }

  /** Main result: which slug a candidate is assigned, spelled out, and what is reported when it has none. */
  lemma SlugSpelledOut(slug: Slugify, all: set<Candidate>, c: Candidate, s: string)
    requires c in all
    ensures Outcome(slug, all, c) == Assigned(s) <==>
            (Settles(slug, all, c) && s == Readable(slug, all, c)) ||
            (FallsBackOn(slug, all, c, s) &&
             forall d :: d in all && d != c ==>
               !(Settles(slug, all, d) && Readable(slug, all, d) == s) && !FallsBackOn(slug, all, d, s))
    ensures var readable := Readable(slug, all, c);
            Outcome(slug, all, c).UnresolvedCollision? ==>
              Outcome(slug, all, c) ==
              UnresolvedCollision(slug(c.cityName), if readable == slug(c.cityName) then None else Some(readable))
  {
    forall d | d in all
      ensures Named(slug, all, d) == Readable(slug, all, d)
      ensures ByName(slug, all, d) <==> Settles(slug, all, d)
      ensures forall t :: FallsBackOn(slug, all, d, t) <==> Proposes(slug, all, d) && Coded(slug, all, d) == t
    {
      NamedIsReadable(slug, all, d);
      SettlesIsByName(slug, all, d);
      hide Readable, Settles, Named, ByName;
    }
    hide Readable, Settles, Named, ByName, FallsBackOn, Proposes, Coded;
  }

  // ---------- the program ----------

  /** The resolution after the first stage: within each group of one bare name. */
  ghost function FirstStage(slug: Slugify, all: set<Candidate>, c: Candidate): Resolution {
    if NamedAlone(slug, all, c) then Assigned(Named(slug, all, c)) else Collision(slug, all, c)
  }

  ghost function FirstStageOf(slug: Slugify, all: set<Candidate>): Candidate -> Resolution {
    c => FirstStage(slug, all, c)
  }

  lemma CityRuleIsFirstStage(slug: Slugify, all: set<Candidate>, c: Candidate)
    ensures Value(CityRule(slug), all, c) == FirstStage(slug, all, c)
  {
  }

  /** Stage 1. */
  method StageOne(slug: Slugify, cs: seq<Candidate>) returns (result: map<string, Resolution>)
    requires DistinctIds(Id(), cs)
    ensures Holds(Id(), result, cs, AllOf(cs), FirstStageOf(slug, AllOf(cs)))
  {
    result := Resolve(CityRule(slug), cs);
    forall c | c in cs ensures Wanted(CityRule(slug), AllOf(cs))(c) == FirstStageOf(slug, AllOf(cs))(c) {
      CityRuleIsFirstStage(slug, AllOf(cs), c);
    }
  }

  // ---------- stage 2 ----------

  ghost function SecondStage(slug: Slugify, all: set<Candidate>, c: Candidate): Resolution {
    if ByName(slug, all, c) then Assigned(Named(slug, all, c)) else Collision(slug, all, c)
  }

  /** Between the stages: the slugs in keys are still to be compared across groups. */
  ghost function Between(slug: Slugify, all: set<Candidate>, keys: set<string>): Candidate -> Resolution {
    c => if NamedAlone(slug, all, c) && Named(slug, all, c) in keys then FirstStage(slug, all, c)
         else SecondStage(slug, all, c)
  }

  /** Replaces the resolutions of the listed candidates. */
  method Overwrite(
    cs: seq<Candidate>, sub: seq<Candidate>, values: Candidate -> Resolution,
    before: map<string, Resolution>, ghost was: Candidate -> Resolution, ghost wanted: Candidate -> Resolution)
    returns (result: map<string, Resolution>)
    requires DistinctIds(Id(), cs) && Holds(Id(), before, cs, AllOf(cs), was)
    requires forall c :: c in sub ==> c in cs && wanted(c) == values(c)
    requires forall c :: c in cs && c !in sub ==> wanted(c) == was(c)
    ensures Holds(Id(), result, cs, AllOf(cs), wanted)
  {
    result := before;
    for i := 0 to |sub|
      invariant Holds(Id(), result, cs, AllOf(cs), c => if c in sub[..i] then wanted(c) else was(c))
    {
      var c := sub[i];
      assert c in sub && sub[..i + 1] == sub[..i] + [c];
      SameIdSameRow(Id(), cs, c);
      result := result[c.sourceId := values(c)];
    }
    assert sub[..|sub|] == sub;
  }

  /** The slug a candidate is assigned so far. */
  function AssignedTag(result: map<string, Resolution>): Candidate -> Option<string> {
    (c: Candidate) =>
      if c.sourceId in result && result[c.sourceId].Assigned? then Some(result[c.sourceId].slug) else None
  }

  function SlugKey(result: map<string, Resolution>): Candidate -> string {
    c => if AssignedTag(result)(c).Some? then AssignedTag(result)(c).value else ""
  }

  function AssignedOnly(cs: seq<Candidate>, result: map<string, Resolution>): (r: seq<Candidate>)
    ensures forall c :: c in r <==> c in cs && AssignedTag(result)(c).Some?
  {
    if cs == [] then [] else
    (if AssignedTag(result)(cs[0]).Some? then [cs[0]] else []) + AssignedOnly(cs[1..], result)
  }

  lemma {:induction false} AssignedOnlyDistinct(cs: seq<Candidate>, result: map<string, Resolution>)
    requires Distinct(cs)
    ensures Distinct(AssignedOnly(cs, result))
  {
    if cs != [] {
      assert forall j :: 1 <= j < |cs| ==> cs[j] == cs[1..][j - 1];
      AssignedOnlyDistinct(cs[1..], result);
      assert cs[0] !in cs[1..];
    }
  }

  /** The resolution of a candidate whose slug someone else holds as well. */
  function Downgraded(slug: Slugify, held: string): Candidate -> Resolution {
    c => UnresolvedCollision(Bare(slug, c), if held == Bare(slug, c) then None else Some(held))
  }

  /** What one group of equal slugs contributes. */
  lemma SlugGroup(
    slug: Slugify, cs: seq<Candidate>, first: map<string, Resolution>, held: string, group: seq<Candidate>)
    requires DistinctIds(Id(), cs) && Holds(Id(), first, cs, AllOf(cs), FirstStageOf(slug, AllOf(cs)))
    requires group == Having(AssignedOnly(cs, first), SlugKey(first), held)
    ensures forall c :: c in group <==> c in cs && NamedAlone(slug, AllOf(cs), c) && Named(slug, AllOf(cs), c) == held
    ensures forall c :: c in group ==> (|group| == 1 <==> ByName(slug, AllOf(cs), c))
  {
    var all, slugged := AllOf(cs), AssignedOnly(cs, first);
    DistinctRows(Id(), cs);
    AssignedOnlyDistinct(cs, first);
    hide NamedAlone, Named, Bare;
    forall c | c in cs
      ensures c in slugged <==> NamedAlone(slug, all, c)
      ensures c in slugged ==> SlugKey(first)(c) == Named(slug, all, c)
    {
      assert first[c.sourceId] == FirstStage(slug, all, c);
    }
    forall c ensures c in group <==> c in slugged && SlugKey(first)(c) == held {
      HavingMembers(slugged, SlugKey(first), held, c);
    }
    forall c | c in group ensures |group| == 1 <==> ByName(slug, all, c) {
      HavingOne(slugged, SlugKey(first), c);
    }
  }

  lemma BetweenStep(slug: Slugify, cs: seq<Candidate>, held: string, group: seq<Candidate>, keys: set<string>)
    requires held in keys
    requires forall c :: c in group <==> c in cs && NamedAlone(slug, AllOf(cs), c) && Named(slug, AllOf(cs), c) == held
    requires forall c :: c in group ==> (|group| == 1 <==> ByName(slug, AllOf(cs), c))
    ensures var was, wanted := Between(slug, AllOf(cs), keys), Between(slug, AllOf(cs), keys - {held});
            (forall c :: c in cs && c !in group ==> wanted(c) == was(c)) &&
            (|group| > 1 ==> forall c :: c in group ==> wanted(c) == Downgraded(slug, held)(c)) &&
            (|group| <= 1 ==> forall c :: c in group ==> wanted(c) == was(c))
  {
    hide NamedAlone, Named, Bare, ByName;
  }

  /** The claimants of one slug keep it only if there is one. */
  method Downgrade(
    slug: Slugify, cs: seq<Candidate>, ghost first: map<string, Resolution>, held: string, group: seq<Candidate>,
    before: map<string, Resolution>, ghost keys: set<string>)
    returns (result: map<string, Resolution>)
    requires DistinctIds(Id(), cs) && Holds(Id(), first, cs, AllOf(cs), FirstStageOf(slug, AllOf(cs)))
    requires held in keys && group == Having(AssignedOnly(cs, first), SlugKey(first), held)
    requires Holds(Id(), before, cs, AllOf(cs), Between(slug, AllOf(cs), keys))
    ensures Holds(Id(), result, cs, AllOf(cs), Between(slug, AllOf(cs), keys - {held}))
  {
    SlugGroup(slug, cs, first, held, group);
    hide NamedAlone, Named, Bare, ByName, SlugKey, AssignedTag, Holds, Having, AssignedOnly, Downgraded;
    BetweenStep(slug, cs, held, group, keys);
    hide Between;
    var losers := if |group| > 1 then group else [];
    result := Overwrite(cs, losers, Downgraded(slug, held), before, Between(slug, AllOf(cs), keys),
                        Between(slug, AllOf(cs), keys - {held}));
  }

  lemma StartBetween(slug: Slugify, cs: seq<Candidate>, first: map<string, Resolution>, keys: set<string>)
    requires Holds(Id(), first, cs, AllOf(cs), FirstStageOf(slug, AllOf(cs)))
    requires forall k :: k in keys <==> exists c :: c in AssignedOnly(cs, first) && SlugKey(first)(c) == k
    ensures Holds(Id(), first, cs, AllOf(cs), Between(slug, AllOf(cs), keys))
  {
    hide NamedAlone, Named, Bare;
    var all := AllOf(cs);
    forall c | c in cs ensures Between(slug, all, keys)(c) == FirstStage(slug, all, c) {
      assert first[c.sourceId] == FirstStage(slug, all, c);
      if NamedAlone(slug, all, c) {
        assert AssignedTag(first)(c) == Some(Named(slug, all, c));
        assert c in AssignedOnly(cs, first) && SlugKey(first)(c) == Named(slug, all, c);
      }
    }
  }

  /** Stage 2: equal slugs across groups lose them all. */
  method StageTwo(slug: Slugify, cs: seq<Candidate>, first: map<string, Resolution>)
    returns (result: map<string, Resolution>)
    requires DistinctIds(Id(), cs) && Holds(Id(), first, cs, AllOf(cs), FirstStageOf(slug, AllOf(cs)))
    ensures Holds(Id(), result, cs, AllOf(cs), Between(slug, AllOf(cs), {}))
  {
    hide *;
    ghost var all := AllOf(cs);
    var bySlug := GroupBy(AssignedOnly(cs, first), SlugKey(first));
    var keys := bySlug.Keys;
    result := first;
    StartBetween(slug, cs, first, keys);
    while keys != {}
      invariant keys <= bySlug.Keys
      invariant Holds(Id(), result, cs, all, Between(slug, all, keys))
      decreases |keys|
    {
      var held :| held in keys;
      result := Downgrade(slug, cs, first, held, bySlug[held], result, keys);
      keys := keys - {held};
    }
  }

  // ---------- stage 3 ----------

  /** The slug an unresolved candidate proposes: its slug so far and its region's code. */
  function ProposalTag(slug: Slugify, result: map<string, Resolution>): Candidate -> Option<string> {
    (c: Candidate) =>
      if c.sourceId in result && result[c.sourceId].UnresolvedCollision? && Present(c.regionCode) then
        var r := result[c.sourceId];
        Some((if r.regionSlug.Some? then r.regionSlug.value else r.bareSlug) + "-" + slug(c.regionCode.value))
      else None
  }

  function CountOf(counts: map<string, nat>, k: string): nat {
    if k in counts then counts[k] else 0
  }

  /** Adds the tags of a list to a table of counts. */
  method Tally(cs: seq<Candidate>, tag: Candidate -> Option<string>, before: map<string, nat>)
    returns (counts: map<string, nat>)
    ensures forall k :: CountOf(counts, k) == CountOf(before, k) + Count(cs, tag, k)
  {
    counts := before;
    for i := 0 to |cs|
      invariant forall k :: CountOf(counts, k) == CountOf(before, k) + Count(cs[..i], tag, k)
    {
      assert cs[..i + 1] == cs[..i] + [cs[i]];
      forall k ensures Count(cs[..i + 1], tag, k) == Count(cs[..i], tag, k) + if tag(cs[i]) == Some(k) then 1 else 0 {
        CountAppend(cs[..i], cs[i], tag, k);
      }
      if tag(cs[i]).Some? {
        counts := counts[tag(cs[i]).value := CountOf(counts, tag(cs[i]).value) + 1];
      }
    }
    assert cs[..|cs|] == cs;
  }

  ghost function OutcomeOf(slug: Slugify, all: set<Candidate>): Candidate -> Resolution {
    c => Outcome(slug, all, c)
  }

  /** What the tags say after stage 2. */
  lemma TagsMean(slug: Slugify, cs: seq<Candidate>, second: map<string, Resolution>, c: Candidate)
    requires DistinctIds(Id(), cs) && Holds(Id(), second, cs, AllOf(cs), Between(slug, AllOf(cs), {})) && c in cs
    ensures AssignedTag(second)(c) == if ByName(slug, AllOf(cs), c) then Some(Named(slug, AllOf(cs), c)) else None
    ensures ProposalTag(slug, second)(c) ==
            if Proposes(slug, AllOf(cs), c) then Some(Coded(slug, AllOf(cs), c)) else None
  {
    hide ByName, Named, Bare;
    assert second[c.sourceId] == SecondStage(slug, AllOf(cs), c);
  }

  /** A proposal counted once, over assigned slugs and proposals together, is one resolved by code. */
  lemma CountedOnceIsByCode(slug: Slugify, cs: seq<Candidate>, second: map<string, Resolution>, c: Candidate)
    requires DistinctIds(Id(), cs) && Holds(Id(), second, cs, AllOf(cs), Between(slug, AllOf(cs), {}))
    requires c in cs && Proposes(slug, AllOf(cs), c)
    ensures var k := Coded(slug, AllOf(cs), c);
            Count(cs, AssignedTag(second), k) + Count(cs, ProposalTag(slug, second), k) == 1 <==>
            ByCode(slug, AllOf(cs), c)
  {
    hide ByName, Named, Holds, AssignedTag, ProposalTag, Coded;
    var all, k := AllOf(cs), Coded(slug, AllOf(cs), c);
    DistinctRows(Id(), cs);
    forall d | d in cs
      ensures AssignedTag(second)(d) == (if ByName(slug, all, d) then Some(Named(slug, all, d)) else None)
      ensures ProposalTag(slug, second)(d) == if Proposes(slug, all, d) then Some(Coded(slug, all, d)) else None
    {
      TagsMean(slug, cs, second, d);
    }
    hide Proposes;
    CountZero(cs, AssignedTag(second), k);
    CountOne(cs, ProposalTag(slug, second), k, c);
  }

  function Coder(slug: Slugify, second: map<string, Resolution>): Candidate -> Resolution {
    c => match ProposalTag(slug, second)(c)
         case Some(k) => Assigned(k)
         case None => Assigned("")
  }

  lemma OutcomesHeld(slug: Slugify, cs: seq<Candidate>, result: map<string, Resolution>)
    requires Holds(Id(), result, cs, AllOf(cs), OutcomeOf(slug, AllOf(cs)))
    ensures forall c :: c in cs ==> c.sourceId in result && result[c.sourceId] == Outcome(slug, AllOf(cs), c)
  {
  }

  ghost predicate Wins(slug: Slugify, cs: seq<Candidate>, second: map<string, Resolution>, c: Candidate) {
    var proposal := ProposalTag(slug, second)(c);
    proposal.Some? &&
    Count(cs, AssignedTag(second), proposal.value) + Count(cs, ProposalTag(slug, second), proposal.value) == 1
  }

  lemma WinnersAreByCode(slug: Slugify, cs: seq<Candidate>, second: map<string, Resolution>, c: Candidate)
    requires DistinctIds(Id(), cs) && Holds(Id(), second, cs, AllOf(cs), Between(slug, AllOf(cs), {})) && c in cs
    ensures OutcomeOf(slug, AllOf(cs))(c) ==
            if Wins(slug, cs, second, c) then Coder(slug, second)(c) else Between(slug, AllOf(cs), {})(c)
  {
    hide ByName, Named, Holds, AssignedTag, ProposalTag, Coded, Bare, Count;
    TagsMean(slug, cs, second, c);
    if Proposes(slug, AllOf(cs), c) { CountedOnceIsByCode(slug, cs, second, c); }
  }

  /** The candidates whose proposal nobody else holds or proposes. */
  method Winners(slug: Slugify, cs: seq<Candidate>, second: map<string, Resolution>, counts: map<string, nat>)
    returns (winners: seq<Candidate>)
    requires forall k ::
               CountOf(counts, k) == Count(cs, AssignedTag(second), k) + Count(cs, ProposalTag(slug, second), k)
    ensures forall c :: c in winners <==> c in cs && Wins(slug, cs, second, c)
  {
    hide AssignedTag, ProposalTag, Count;
    winners := [];
    for i := 0 to |cs|
      invariant forall c :: c in winners <==> c in cs[..i] && Wins(slug, cs, second, c)
    {
      var c := cs[i];
      assert cs[..i + 1] == cs[..i] + [c];
      var proposal := ProposalTag(slug, second)(c);
      if proposal.Some? && CountOf(counts, proposal.value) == 1 {
        winners := winners + [c];
      }
    }
    assert cs[..|cs|] == cs;
  }

  /** The whole assignment computes the rule for every candidate, and so never gives two of them one
      slug. */
  method AssignSlugsForCountry(slug: Slugify, cs: seq<Candidate>) returns (result: map<string, Resolution>)
    requires DistinctIds(Id(), cs)
    ensures forall c :: c in cs ==> c.sourceId in result && result[c.sourceId] == Outcome(slug, AllOf(cs), c)
    ensures forall c, d | c in cs && d in cs && c != d ::
              result[c.sourceId].Assigned? && result[d.sourceId].Assigned? ==>
                result[c.sourceId].slug != result[d.sourceId].slug
  {
    hide Wins, Outcome, ByName, Named, Holds, AssignedTag, ProposalTag, Coded, FirstStageOf, Between, OutcomeOf, Count;
    var first := StageOne(slug, cs);
    var second := StageTwo(slug, cs, first);
    var counts := Tally(cs, AssignedTag(second), map[]);
    counts := Tally(cs, ProposalTag(slug, second), counts);
    var winners := Winners(slug, cs, second, counts);
    forall c | c in cs
      ensures OutcomeOf(slug, AllOf(cs))(c) ==
              if c in winners then Coder(slug, second)(c) else Between(slug, AllOf(cs), {})(c)
    {
      WinnersAreByCode(slug, cs, second, c);
    }
    result := Overwrite(cs, winners, Coder(slug, second), second,
                        Between(slug, AllOf(cs), {}), OutcomeOf(slug, AllOf(cs)));
    OutcomesHeld(slug, cs, result);
    forall c, d | c in cs && d in cs && c != d && result[c.sourceId].Assigned? && result[d.sourceId].Assigned?
      ensures result[c.sourceId].slug != result[d.sourceId].slug
    {
      AssignedSlugsDiffer(slug, AllOf(cs), c, d);
    }
  }
}
