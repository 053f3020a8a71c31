/**
 The two-level grouping both slug assignments share: rows are grouped by an outer key, and within a
 group of several by an inner key.  What a row gets depends only on whether it is alone at each level.
 */
module TwoTier {
  import opened Grouping

  /** Normalising a name and turning it into a slug. */
  type Slugify = string -> string

  datatype Rule<!T, !V> = Rule(
    id: T -> string,
    outer: T -> string,
    inner: T -> string,
    alone: T -> V,            // alone in its outer group
    aloneInside: T -> V,      // in a group of several, but alone in its inner group
    crowded: T -> V)

  ghost predicate Alone<T(!new), V>(r: Rule<T, V>, all: set<T>, x: T) {
    forall y :: y in all && r.outer(y) == r.outer(x) ==> y == x
  }

  ghost predicate AloneInside<T(!new), V>(r: Rule<T, V>, all: set<T>, x: T) {
    forall y :: y in all && r.outer(y) == r.outer(x) && r.inner(y) == r.inner(x) ==> y == x
  }

  ghost function Value<T(!new), V>(r: Rule<T, V>, all: set<T>, x: T): V {
    if Alone(r, all, x) then r.alone(x)
    else if AloneInside(r, all, x) then r.aloneInside(x)
    else r.crowded(x)
  }

  ghost predicate DistinctIds<T(!new)>(id: T -> string, xs: seq<T>) {
    forall i, j :: 0 <= i < j < |xs| ==> id(xs[i]) != id(xs[j])
  }

  ghost function AllOf<T(!new)>(xs: seq<T>): set<T> {
    set x | x in xs
  }

  /** A result that holds exactly the entries of the rows in done, as wanted says. */
  ghost predicate Holds<T(!new), V>(
    id: T -> string, result: map<string, V>, xs: seq<T>, done: set<T>, wanted: T -> V)
  {
    && (forall x :: x in xs ==> (id(x) in result <==> x in done))
    && (forall x :: x in xs && x in done ==> id(x) in result && result[id(x)] == wanted(x))
  }

  ghost function Wanted<T(!new), V>(r: Rule<T, V>, all: set<T>): T -> V {
    x => Value(r, all, x)
  }

  lemma DistinctRows<T(!new)>(id: T -> string, xs: seq<T>)
    requires DistinctIds(id, xs)
    ensures Distinct(xs)
  {
  }

  lemma SameIdSameRow<T(!new)>(id: T -> string, xs: seq<T>, x: T)
    requires DistinctIds(id, xs) && x in xs
    ensures forall y :: y in xs && id(y) == id(x) ==> y == x
  {
  }

  lemma NothingHeld<T(!new), V>(id: T -> string, xs: seq<T>, wanted: T -> V)
    ensures Holds(id, map[], xs, {}, wanted)
  {
  }

  /** Stores a value for every listed row. */
  method Put<T(==,!new), V>(
    id: T -> string, xs: seq<T>, sub: seq<T>, values: T -> V,
    before: map<string, V>, ghost done: set<T>, ghost wanted: T -> V)
    returns (result: map<string, V>)
    requires DistinctIds(id, xs) && Holds(id, before, xs, done, wanted)
    requires forall x :: x in sub ==> x in xs && wanted(x) == values(x)
    ensures Holds(id, result, xs, done + AllOf(sub), wanted)
  {
    result := before;
    for i := 0 to |sub|
      invariant Holds(id, result, xs, done + AllOf(sub[..i]), wanted)
    {
      var x := sub[i];
      assert x in sub && sub[..i + 1] == sub[..i] + [x];
      SameIdSameRow(id, xs, x);
      result := result[id(x) := values(x)];
    }
    assert sub[..|sub|] == sub;
  }

  lemma OuterGroup<T(!new), V>(r: Rule<T, V>, xs: seq<T>, key: string, group: seq<T>)
    requires DistinctIds(r.id, xs) && group == Having(xs, r.outer, key)
    ensures Distinct(group)
    ensures forall x :: x in group <==> x in xs && r.outer(x) == key
    ensures forall x :: x in group ==> (|group| == 1 <==> Alone(r, AllOf(xs), x))
  {
    DistinctRows(r.id, xs);
    HavingDistinct(xs, r.outer, key);
    forall x ensures x in group <==> x in xs && r.outer(x) == key { HavingMembers(xs, r.outer, key, x); }
    forall x | x in group ensures |group| == 1 <==> Alone(r, AllOf(xs), x) { HavingOne(xs, r.outer, x); }
  }

  function InnerValue<T, V>(r: Rule<T, V>, size: nat): T -> V {
    if size == 1 then r.aloneInside else r.crowded
  }

  lemma InnerGroup<T(!new), V>(
    r: Rule<T, V>, xs: seq<T>, outer: string, group: seq<T>, key: string, sub: seq<T>)
    requires DistinctIds(r.id, xs) && group == Having(xs, r.outer, outer) && |group| > 1
    requires sub == Having(group, r.inner, key)
    ensures forall x :: x in sub <==> x in group && r.inner(x) == key
    ensures forall x :: x in sub ==> x in xs && Value(r, AllOf(xs), x) == InnerValue(r, |sub|)(x)
  {
    hide Alone;
    OuterGroup(r, xs, outer, group);
    forall x ensures x in sub <==> x in group && r.inner(x) == key { HavingMembers(group, r.inner, key, x); }
    forall x | x in sub ensures |sub| == 1 <==> AloneInside(r, AllOf(xs), x) { HavingOne(group, r.inner, x); }
  }

  ghost function Handled<T(!new)>(xs: seq<T>, key: T -> string, done: set<T>, keys: set<string>): set<T> {
    done + set x | x in xs && key(x) !in keys
  }

  lemma NothingHandled<T(!new)>(xs: seq<T>, key: T -> string, done: set<T>, keys: set<string>)
    requires forall x :: x in xs ==> key(x) in keys
    ensures Handled(xs, key, done, keys) == done
  {
  }

  lemma HandledStep<T(!new)>(xs: seq<T>, sub: seq<T>, key: T -> string, done: set<T>, keys: set<string>, k: string)
    requires k in keys
    requires forall x :: x in sub <==> x in xs && key(x) == k
    ensures Handled(xs, key, done, keys - {k}) == Handled(xs, key, done, keys) + AllOf(sub)
  {
  }

  lemma EverythingHandled<T(!new)>(xs: seq<T>, key: T -> string, done: set<T>)
    ensures Handled(xs, key, done, {}) == done + AllOf(xs)
  {
  }

  /** One outer group. */
  method ResolveGroup<T(==,!new), V>(
    r: Rule<T, V>, xs: seq<T>, outer: string, group: seq<T>, before: map<string, V>, ghost done: set<T>)
    returns (result: map<string, V>)
    requires DistinctIds(r.id, xs) && group == Having(xs, r.outer, outer) && group != []
    requires Holds(r.id, before, xs, done, Wanted(r, AllOf(xs)))
    ensures Holds(r.id, result, xs, done + AllOf(group), Wanted(r, AllOf(xs)))
  {
    hide Alone, AloneInside, Holds, Handled, Having, AllOf;
    OuterGroup(r, xs, outer, group);
    if |group| == 1 {
      assert group[0] in group;
      result := Put(r.id, xs, group, r.alone, before, done, Wanted(r, AllOf(xs)));
      return;
    }
    result := before;
    var subgroups := GroupBy(group, r.inner);
    var keys := subgroups.Keys;
    NothingHandled(group, r.inner, done, keys);
    while keys != {}
      invariant keys <= subgroups.Keys
      invariant Holds(r.id, result, xs, Handled(group, r.inner, done, keys), Wanted(r, AllOf(xs)))
      decreases |keys|
    {
      var key :| key in keys;
      var sub := subgroups[key];
      InnerGroup(r, xs, outer, group, key, sub);
      HandledStep(group, sub, r.inner, done, keys, key);
      result := Put(r.id, xs, sub, InnerValue(r, |sub|), result,
                    Handled(group, r.inner, done, keys), Wanted(r, AllOf(xs)));
      keys := keys - {key};
    }
    EverythingHandled(group, r.inner, done);
  }

  /** Every group: the loops compute the rule for every row. */
  method Resolve<T(==,!new), V>(r: Rule<T, V>, xs: seq<T>) returns (result: map<string, V>)
    requires DistinctIds(r.id, xs)
    ensures Holds(r.id, result, xs, AllOf(xs), Wanted(r, AllOf(xs)))
  {
    hide Holds, Having, Handled, AllOf, Wanted;
    var groups := GroupBy(xs, r.outer);
    var keys := groups.Keys;
    result := map[];
    NothingHeld(r.id, xs, Wanted(r, AllOf(xs)));
    NothingHandled(xs, r.outer, {}, keys);
    while keys != {}
      invariant keys <= groups.Keys
      invariant Holds(r.id, result, xs, Handled(xs, r.outer, {}, keys), Wanted(r, AllOf(xs)))
      decreases |keys|
    {
      var key :| key in keys;
      var group := groups[key];
      OuterGroup(r, xs, key, group);
      HandledStep(xs, group, r.outer, {}, keys, key);
      assert group != [];
      result := ResolveGroup(r, xs, key, group, result, Handled(xs, r.outer, {}, keys));
      keys := keys - {key};
    }
    EverythingHandled(xs, r.outer, {});
    assert {} + AllOf(xs) == AllOf(xs);
  }
}
