/** groupBy and counting over lists of distinct rows. */
module Grouping {
  import opened Wrappers

  /** The items with the given key, in their order. */
  function Having<T>(items: seq<T>, key: T -> string, k: string): seq<T> {
    if items == [] then [] else
    (if key(items[0]) == k then [items[0]] else []) + Having(items[1..], key, k)
  }

  lemma {:induction false} HavingAppend<T>(items: seq<T>, last: T, key: T -> string, k: string)
    ensures Having(items + [last], key, k) == Having(items, key, k) + (if key(last) == k then [last] else [])
  {
    if items == [] {
      assert [last][1..] == [] && [] + [last] == [last];
    } else {
      assert (items + [last])[1..] == items[1..] + [last];
      HavingAppend(items[1..], last, key, k);
    }
  }

  lemma {:induction false} NoneHaving<T>(items: seq<T>, key: T -> string, k: string)
    requires forall x :: x in items ==> key(x) != k
    ensures Having(items, key, k) == []
  {
    if items != [] {
      assert items[0] in items;
      NoneHaving(items[1..], key, k);
    }
  }

  method GroupBy<T>(items: seq<T>, key: T -> string) returns (groups: map<string, seq<T>>)
    ensures forall k :: k in groups <==> exists x :: x in items && key(x) == k
    ensures forall k :: k in groups ==> groups[k] == Having(items, key, k)
  {
    groups := map[];
    for i := 0 to |items|
      invariant forall k :: k in groups <==> exists x :: x in items[..i] && key(x) == k
      invariant forall k :: k in groups ==> groups[k] == Having(items[..i], key, k)
    {
      var k := key(items[i]);
      assert items[..i + 1] == items[..i] + [items[i]];
      forall k' ensures Having(items[..i + 1], key, k') ==
                        Having(items[..i], key, k') + (if k' == k then [items[i]] else []) {
        HavingAppend(items[..i], items[i], key, k');
      }
      if k !in groups {
        NoneHaving(items[..i], key, k);
        groups := groups[k := []];
      }
      groups := groups[k := groups[k] + [items[i]]];
    }
    assert items[..|items|] == items;
  }

  lemma {:induction false} HavingMembers<T>(items: seq<T>, key: T -> string, k: string, x: T)
    ensures x in Having(items, key, k) <==> x in items && key(x) == k
  {
    if items != [] { HavingMembers(items[1..], key, k, x); }
  }

  ghost predicate Distinct<T(!new)>(items: seq<T>) {
    forall i, j :: 0 <= i < j < |items| ==> items[i] != items[j]
  }

  lemma {:induction false} HavingDistinct<T(!new)>(items: seq<T>, key: T -> string, k: string)
    requires Distinct(items)
    ensures Distinct(Having(items, key, k))
  {
    if items != [] {
      HavingDistinct(items[1..], key, k);
      HavingMembers(items[1..], key, k, items[0]);
      assert forall j :: 1 <= j < |items| ==> items[j] == items[1..][j - 1];
    }
  }

  /** A group has one member exactly when no other item shares its key. */
  lemma HavingOne<T(!new)>(items: seq<T>, key: T -> string, x: T)
    requires Distinct(items) && x in items
    ensures |Having(items, key, key(x))| == 1 <==> forall y :: y in items && key(y) == key(x) ==> y == x
    ensures |Having(items, key, key(x))| == 1 ==> Having(items, key, key(x)) == [x]
  {
    var group := Having(items, key, key(x));
    HavingDistinct(items, key, key(x));
    forall y ensures y in group <==> y in items && key(y) == key(x) { HavingMembers(items, key, key(x), y); }
    assert x in group;
    if |group| == 1 {
      assert group[0] == x;
    } else {
      assert group[0] in group && group[1] in group && group[0] != group[1];
    }
  }

  /** How many items have the given tag. */
  function Count<T>(items: seq<T>, tag: T -> Option<string>, k: string): nat {
    if items == [] then 0 else (if tag(items[0]) == Some(k) then 1 else 0) + Count(items[1..], tag, k)
  }

  lemma {:induction false} CountAppend<T>(items: seq<T>, last: T, tag: T -> Option<string>, k: string)
    ensures Count(items + [last], tag, k) == Count(items, tag, k) + if tag(last) == Some(k) then 1 else 0
  {
    if items == [] {
      assert [last][1..] == [] && [] + [last] == [last];
    } else {
      assert (items + [last])[1..] == items[1..] + [last];
      CountAppend(items[1..], last, tag, k);
    }
  }

  lemma {:induction false} CountZero<T>(items: seq<T>, tag: T -> Option<string>, k: string)
    ensures Count(items, tag, k) == 0 <==> forall x :: x in items ==> tag(x) != Some(k)
  {
    if items != [] {
      CountZero(items[1..], tag, k);
      assert forall x :: x in items <==> x == items[0] || x in items[1..];
    }
  }

  lemma {:induction false} CountOne<T(!new)>(items: seq<T>, tag: T -> Option<string>, k: string, x: T)
    requires Distinct(items) && x in items && tag(x) == Some(k)
    ensures Count(items, tag, k) >= 1
    ensures Count(items, tag, k) == 1 <==> forall y :: y in items && tag(y) == Some(k) ==> y == x
  {
    assert forall j :: 1 <= j < |items| ==> items[j] == items[1..][j - 1];
    assert Distinct(items[1..]);
    CountZero(items[1..], tag, k);
    assert forall y :: y in items <==> y == items[0] || y in items[1..];
    if x == items[0] {
      assert x !in items[1..];
    } else {
      CountOne(items[1..], tag, k, x);
    }
  }
}
