/**
 Slugs of the regions of one country: the bare name when nobody shares it, else the name with the
 region's ISO code or, without one, its source id, and the source id again if that still collides.
 */
module RegionSlugs {
  import opened Wrappers
  import opened Grouping
  import opened TwoTier

  datatype Region = Region(id: string, name: string, code: Option<string>)

  function Bare(slug: Slugify, s: Region): string {
    slug(s.name)
  }

  /** The slugified code, if there is one. */
  function CodeSlug(slug: Slugify, s: Region): Option<string> {
    if s.code.Some? && s.code.value != "" && slug(s.code.value) != "" then Some(slug(s.code.value)) else None
  }

  function Coded(slug: Slugify, s: Region): string {
    Bare(slug, s) + "-" + (if CodeSlug(slug, s).Some? then CodeSlug(slug, s).value else s.id)
  }

  function RegionRule(slug: Slugify): Rule<Region, string> {
    Rule((s: Region) => s.id, s => Bare(slug, s), s => Coded(slug, s),
         s => Bare(slug, s), s => Coded(slug, s), s => Coded(slug, s) + "-" + s.id)
  }

  ghost function SlugOf(slug: Slugify, all: set<Region>, s: Region): string {
    Value(RegionRule(slug), all, s)
  }

  /** The loops give every region of the country a slug, the one the rule says. */
  method SlugsForCountry(slug: Slugify, list: seq<Region>) returns (slugFor: map<string, string>)
    requires DistinctIds((s: Region) => s.id, list)
    ensures forall s :: s in list ==> s.id in slugFor && slugFor[s.id] == SlugOf(slug, AllOf(list), s)
  {
    slugFor := Resolve(RegionRule(slug), list);
    assert forall s :: s in list ==> Wanted(RegionRule(slug), AllOf(list))(s) == SlugOf(slug, AllOf(list), s);
  }

  /** A name alone in its country keeps its bare slug. */
  lemma AloneStaysBare(slug: Slugify, all: set<Region>, s: Region)
    requires s in all && forall t :: t in all && Bare(slug, t) == Bare(slug, s) ==> t == s
    ensures SlugOf(slug, all, s) == Bare(slug, s)
  {
    assert Alone(RegionRule(slug), all, s);
  }

  /** The name with the code, or without a usable one with the source id. */
  function NameAndCode(slug: Slugify, s: Region): string {
    slug(s.name) + "-" + (match s.code
                          case Some(code) => if code == "" || slug(code) == "" then s.id else slug(code)
                          case None => s.id)
  }

  /** The slug spelled out: the name alone if no other region has it, followed by the code if the name is
      shared, and by the source id too if another region of the name ends on the same. */
  lemma SlugSpelledOut(slug: Slugify, all: set<Region>, s: Region)
    requires s in all
    ensures SlugOf(slug, all, s) ==
            if forall t :: t in all && t != s ==> slug(t.name) != slug(s.name) then slug(s.name)
            else if forall t :: t in all && t != s && slug(t.name) == slug(s.name) ==>
                                  NameAndCode(slug, t) != NameAndCode(slug, s)
            then NameAndCode(slug, s)
            else NameAndCode(slug, s) + "-" + s.id
  {
    forall t | t in all ensures Coded(slug, t) == NameAndCode(slug, t) {}
    hide NameAndCode, Coded;
    assert Alone(RegionRule(slug), all, s) <==> forall t :: t in all && t != s ==> slug(t.name) != slug(s.name);
  }

  ghost predicate CodesDistinct(slug: Slugify, all: set<Region>, bare: string) {
    forall x, y | x in all && y in all && Bare(slug, x) == bare && Bare(slug, y) == bare && x != y ::
      CodeSlug(slug, x).Some? && CodeSlug(slug, x) != CodeSlug(slug, y)
  }

  lemma SuffixDecides(prefix: string, a: string, b: string)
    ensures prefix + a == prefix + b <==> a == b
  {
    if prefix + a == prefix + b {
      assert (prefix + a)[|prefix|..] == a && (prefix + b)[|prefix|..] == b;
    }
  }

  lemma OnlyCodeDecides(slug: Slugify, all: set<Region>, s: Region, other: Region)
    requires s in all && other in all && other != s && Bare(slug, s) == Bare(slug, other)
    requires CodesDistinct(slug, all, Bare(slug, s))
    ensures SlugOf(slug, all, s) == Coded(slug, s)
  {
    var r := RegionRule(slug);
    assert r.outer(other) == r.outer(s);
    forall t | t in all && r.outer(t) == r.outer(s) && r.inner(t) == r.inner(s)
      ensures t == s
    {
      if t != s {
        assert CodeSlug(slug, t).Some? && CodeSlug(slug, s).Some?;
        SuffixDecides(Bare(slug, s) + "-", CodeSlug(slug, s).value, CodeSlug(slug, t).value);
      }
    }
  }

  /** Regions of one name whose codes give pairwise distinct slugs get distinct slugs: each the name
      and its own code. */
  lemma DistinctCodesDistinctSlugs(slug: Slugify, all: set<Region>, s: Region, t: Region)
    requires s in all && t in all && s != t && Bare(slug, s) == Bare(slug, t)
    requires CodesDistinct(slug, all, Bare(slug, s))
    ensures SlugOf(slug, all, s) == Bare(slug, s) + "-" + CodeSlug(slug, s).value
    ensures SlugOf(slug, all, s) != SlugOf(slug, all, t)
  {
    assert CodeSlug(slug, s).Some? && CodeSlug(slug, t).Some?;
    OnlyCodeDecides(slug, all, s, t);
    OnlyCodeDecides(slug, all, t, s);
    SuffixDecides(Bare(slug, s) + "-", CodeSlug(slug, s).value, CodeSlug(slug, t).value);
  }

  /** s keeps name and code, and they happen to spell t's name, code and source id. */
  ghost predicate SpellsOut(slug: Slugify, all: set<Region>, s: Region, t: Region) {
    AloneInside(RegionRule(slug), all, s) && !AloneInside(RegionRule(slug), all, t) &&
    Coded(slug, s) == Coded(slug, t) + "-" + t.id
  }

  lemma LastDash(a: string, x: string, b: string, y: string)
    requires '-' !in x && '-' !in y && a + "-" + x == b + "-" + y
    ensures x == y
  {
    var s := a + "-" + x;
    assert s[|a|] == '-' && (b + "-" + y)[|b|] == '-';
    assert forall k | |a| < k < |s| :: s[k] == x[k - |a| - 1];
    assert forall k | |b| < k < |s| :: (b + "-" + y)[k] == y[k - |b| - 1];
    assert x == s[|a| + 1..] && y == (b + "-" + y)[|b| + 1..];
  }

  /** Exactly when two regions of one name end on one slug, for source ids without a dash, whatever
      codes they have or lack. */
  lemma SameNameCollideIff(slug: Slugify, all: set<Region>, s: Region, t: Region)
    requires s in all && t in all && s != t && Bare(slug, s) == Bare(slug, t)
    requires s.id != t.id && '-' !in s.id && '-' !in t.id
    ensures SlugOf(slug, all, s) == SlugOf(slug, all, t) <==> SpellsOut(slug, all, s, t) || SpellsOut(slug, all, t, s)
  {
    var r := RegionRule(slug);
    assert r.outer(s) == r.outer(t);
    hide Coded;
    assert !Alone(r, all, s) && !Alone(r, all, t);
    if AloneInside(r, all, s) && AloneInside(r, all, t) {
      assert r.inner(s) != r.inner(t);
    }
    if !AloneInside(r, all, s) && !AloneInside(r, all, t) && SlugOf(slug, all, s) == SlugOf(slug, all, t) {
      LastDash(Coded(slug, s), s.id, Coded(slug, t), t.id);
    }
  }

  /** Such a pair: the code of one region is the shared code of two others and the source id of one. */
  lemma SameNameCanCollide(slug: Slugify)
    requires slug("A") == "a" && slug("X") == "x" && slug("X-2") == "x-2"
    ensures var s, t, u := Region("1", "A", Some("X-2")), Region("2", "A", Some("X")), Region("3", "A", Some("X"));
            SlugOf(slug, {s, t, u}, s) == SlugOf(slug, {s, t, u}, t) == "a-x-2"
  {
    var s, t, u := Region("1", "A", Some("X-2")), Region("2", "A", Some("X")), Region("3", "A", Some("X"));
    var all, r := {s, t, u}, RegionRule(slug);
    assert r.outer(s) == r.outer(t) == r.outer(u) == "a";
    assert r.inner(s) == "a-x-2" && r.inner(t) == "a-x" && r.inner(u) == "a-x";
    assert |"a-x-2"| != |"a-x"|;
    assert !Alone(r, all, s) && !Alone(r, all, t) && AloneInside(r, all, s);
    assert t in all && u in all && t != u;
    assert !AloneInside(r, all, t);
    assert "a-x" + "-" + "2" == "a-x-2";
  }

  // ---------- across names ----------

  /** What follows the bare name in a region's slug. */
  ghost function Tail(slug: Slugify, all: set<Region>, s: Region): string {
    var code := if CodeSlug(slug, s).Some? then CodeSlug(slug, s).value else s.id;
    if Alone(RegionRule(slug), all, s) then ""
    else if AloneInside(RegionRule(slug), all, s) then "-" + code
    else "-" + code + "-" + s.id
  }

  lemma SlugIsBareAndTail(slug: Slugify, all: set<Region>, s: Region)
    ensures SlugOf(slug, all, s) == Bare(slug, s) + Tail(slug, all, s)
    ensures Tail(slug, all, s) == "" || Tail(slug, all, s)[0] == '-'
  {
    hide Alone, AloneInside;
    var bare, code := Bare(slug, s), if CodeSlug(slug, s).Some? then CodeSlug(slug, s).value else s.id;
    assert bare + "" == bare;
    assert bare + "-" + code == bare + ("-" + code);
    assert bare + "-" + code + "-" + s.id == bare + ("-" + code + "-" + s.id);
  }

  /** t's bare name goes on after s's with a dash, and s's code and id spell the rest of it and t's own. */
  ghost predicate Extends(slug: Slugify, all: set<Region>, s: Region, t: Region) {
    Bare(slug, s) + "-" <= Bare(slug, t) &&
    Tail(slug, all, s) == Bare(slug, t)[|Bare(slug, s)|..] + Tail(slug, all, t)
  }

  lemma LongerNameGoesOn(a: string, x: string, b: string, y: string)
    requires a != b && (x == "" || x[0] == '-')
    ensures a + x == b + y && |a| <= |b| ==> a + "-" <= b && x == b[|a|..] + y
    ensures a + "-" <= b && x == b[|a|..] + y ==> a + x == b + y
  {
    if a + x == b + y && |a| <= |b| {
      var whole := a + x;
      assert a == whole[..|a|] && b == whole[..|b|] && x == whole[|a|..] && y == whole[|b|..];
      assert whole[|a|] == '-' && a + "-" == whole[..|a| + 1];
      assert whole[|a|..] == whole[|a|..|b|] + whole[|b|..] && b[|a|..] == whole[|a|..|b|];
    }
    if a + "-" <= b && x == b[|a|..] + y {
      assert b == a + b[|a|..];
    }
  }

  /** Exactly when two regions of different names end on one slug. */
  lemma DifferentNamesCollideIff(slug: Slugify, all: set<Region>, s: Region, t: Region)
    requires Bare(slug, s) != Bare(slug, t)
    ensures SlugOf(slug, all, s) == SlugOf(slug, all, t) <==> Extends(slug, all, s, t) || Extends(slug, all, t, s)
  {
    SlugIsBareAndTail(slug, all, s);
    SlugIsBareAndTail(slug, all, t);
    LongerNameGoesOn(Bare(slug, s), Tail(slug, all, s), Bare(slug, t), Tail(slug, all, t));
    LongerNameGoesOn(Bare(slug, t), Tail(slug, all, t), Bare(slug, s), Tail(slug, all, s));
    hide Tail, Bare, SlugOf;
  }

  ghost predicate Confused(slug: Slugify, name: string, name': string, all: set<Region>, s: Region, t: Region) {
    && s in all && t in all && s.name == name && t.name == name'
    && (forall x, y :: x in all && y in all && x.id == y.id ==> x == y)
    && SlugOf(slug, all, s) == SlugOf(slug, all, t)
  }

  /** Two regions of the shorter name, one with the rest of the longer name for an id. */
  lemma SpelledName(slug: Slugify, name: string, name': string) returns (all: set<Region>, s: Region, t: Region)
    requires slug(name) + "-" <= slug(name')
    ensures Confused(slug, name, name', all, s, t)
  {
    var rest := slug(name')[|slug(name)| + 1..];
    s, t := Region(rest, name, None), Region(rest + "xx", name', None);
    var u := Region(rest + "x", name, None);
    all := {s, t, u};
    var r := RegionRule(slug);
    assert slug(name') == slug(name) + "-" + rest;
    assert |s.id| < |u.id| < |t.id|;
    assert r.outer(u) == r.outer(s) && !Alone(r, all, s);
    assert Coded(slug, s) == slug(name) + "-" + rest && Coded(slug, u) == slug(name) + "-" + u.id;
    SuffixDecides(slug(name) + "-", rest, u.id);
    assert slug(name') != slug(name);
    assert AloneInside(r, all, s);
    assert Alone(r, all, t);
  }

  /** Exactly which two names can ever share a slug, over all countries and whatever the codes and ids. */
  lemma NamesConfusedIff(slug: Slugify, name: string, name': string)
    requires slug(name) != slug(name')
    ensures (exists all, s, t :: Confused(slug, name, name', all, s, t)) <==>
            slug(name) + "-" <= slug(name') || slug(name') + "-" <= slug(name)
  {
    if all, s, t :| Confused(slug, name, name', all, s, t) {
      DifferentNamesCollideIff(slug, all, s, t);
    }
    if slug(name) + "-" <= slug(name') {
      var all, s, t := SpelledName(slug, name, name');
      assert Confused(slug, name, name', all, s, t);
    }
    if slug(name') + "-" <= slug(name) {
      var all, t, s := SpelledName(slug, name', name);
      assert Confused(slug, name, name', all, s, t);
    }
  }

  /** With ISO codes: the code slug of a shared name can spell another region's bare name. */
  lemma SlugsCanCollide(slug: Slugify)
    requires slug("A") == "a" && slug("B") == "b" && slug("C") == "c" && slug("A B") == "a-b"
    ensures var s, t, u := Region("1", "A", Some("B")), Region("2", "A", Some("C")), Region("3", "A B", None);
            SlugOf(slug, {s, t, u}, s) == SlugOf(slug, {s, t, u}, u)
  {
    var s, t, u := Region("1", "A", Some("B")), Region("2", "A", Some("C")), Region("3", "A B", None);
    var all, r := {s, t, u}, RegionRule(slug);
    assert r.outer(t) == r.outer(s) && !Alone(r, all, s);
    assert Coded(slug, s) == "a-b" && Coded(slug, t) == "a-c";
    assert "a-b"[2] != "a-c"[2];
    assert AloneInside(r, all, s);
    assert Alone(r, all, u);
  }
}
