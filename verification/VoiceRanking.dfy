/**
 The Hindi voices an announcement may use, best first (voice-announce.ts): ranked by how their language
 tag matches, one per identifier, with the owner's own choice moved to the front.
 */
module VoiceRanking {
  import opened Wrappers

  /** An absent identifier is the empty one. */
  datatype Voice = Voice(identifier: string, language: Option<string>)

  // ---------- language tags ----------

  function LowerChar(c: char): char {
    if 'A' <= c <= 'Z' then c - 'A' + 'a' else c
  }

  function Lower(s: string): (r: string)
    ensures |r| == |s|
  {
    seq(|s|, i requires 0 <= i < |s| => LowerChar(s[i]))
  }

  /** replace(/_/g, '-') */
  function Dashed(s: string): (r: string)
    ensures |r| == |s|
  {
    seq(|s|, i requires 0 <= i < |s| => if s[i] == '_' then '-' else s[i])
  }

  /** What precedes the first '-' or '_'. */
  function BeforeSeparator(s: string): (r: string)
    ensures r <= s && '-' !in r && '_' !in r
    ensures |r| < |s| ==> s[|r|] == '-' || s[|r|] == '_'
  {
    if s == "" || s[0] == '-' || s[0] == '_' then "" else [s[0]] + BeforeSeparator(s[1..])
  }

  function PrimarySubtag(tag: string): string {
    Lower(BeforeSeparator(tag))
  }

  predicate InFamily(language: Option<string>, primary: string) {
    language.Some? && language.value != "" && PrimarySubtag(language.value) == primary
  }

  /** 0 the requested tag, 1 the same with another separator, 2 another of the family, 3 the bare subtag. */
  function RankOf(tag: string, requested: string): (rank: nat)
    ensures rank <= 3
  {
    if Lower(tag) == Lower(requested) then 0
    else if Dashed(Lower(tag)) == Dashed(Lower(requested)) then 1
    else if Lower(tag) == PrimarySubtag(requested) then 3
    else 2
  }

  predicate IsSeparator(c: char) {
    c == '-' || c == '_'
  }

  predicate HasSeparator(s: string) {
    '-' in s || '_' in s
  }

  /** The same text, case aside, or also with other separators in the same places. */
  ghost predicate SameTag(s: string, t: string, anySeparator: bool) {
    |s| == |t| &&
    forall i | 0 <= i < |s| ::
      LowerChar(s[i]) == LowerChar(t[i]) || (anySeparator && IsSeparator(s[i]) && IsSeparator(t[i]))
  }

  lemma BareIff(tag: string)
    ensures BeforeSeparator(tag) == tag <==> !HasSeparator(tag)
    ensures |BeforeSeparator(tag)| == |tag| <==> BeforeSeparator(tag) == tag
  {
    var bare := BeforeSeparator(tag);
    if |bare| < |tag| { assert tag[|bare|] in tag; }
  }

  lemma SameLower(s: string, t: string)
    ensures Lower(s) == Lower(t) <==> SameTag(s, t, false)
  {
    hide LowerChar;
    if Lower(s) == Lower(t) {
      forall i | 0 <= i < |s| ensures LowerChar(s[i]) == LowerChar(t[i]) { assert Lower(s)[i] == Lower(t)[i]; }
    }
  }

  lemma SameDashed(s: string, t: string)
    ensures Dashed(Lower(s)) == Dashed(Lower(t)) <==> SameTag(s, t, true)
  {
    forall c: char ensures IsSeparator(LowerChar(c)) <==> IsSeparator(c) {}
    hide LowerChar;
    if Dashed(Lower(s)) == Dashed(Lower(t)) {
      forall i | 0 <= i < |s|
        ensures LowerChar(s[i]) == LowerChar(t[i]) || (IsSeparator(s[i]) && IsSeparator(t[i]))
      {
        assert Dashed(Lower(s))[i] == Dashed(Lower(t))[i];
      }
    }
    if SameTag(s, t, true) {
      forall i | 0 <= i < |s| ensures Dashed(Lower(s))[i] == Dashed(Lower(t))[i] {
        assert IsSeparator(LowerChar(s[i])) <==> IsSeparator(s[i]);
      }
    }
  }

  /** The four documented tiers, for any requested tag: 0 the tag itself, 1 its other separator form, 3 the
      bare subtag of a longer tag, 2 whatever else the family has. */
  lemma TiersOfTheFamily(tag: string, requested: string)
    requires InFamily(Some(tag), PrimarySubtag(requested))
    ensures RankOf(tag, requested) == 0 <==> SameTag(tag, requested, false)
    ensures RankOf(tag, requested) <= 1 <==> SameTag(tag, requested, true)
    ensures RankOf(tag, requested) == 3 <==> !HasSeparator(tag) && HasSeparator(requested)
  {
    SameLower(tag, requested);
    SameDashed(tag, requested);
    BareIff(tag);
    BareIff(requested);
    assert |PrimarySubtag(tag)| == |BeforeSeparator(tag)|;
    if Lower(tag) == PrimarySubtag(requested) { assert |tag| == |BeforeSeparator(tag)|; }
    hide Lower, Dashed, LowerChar, BeforeSeparator, HasSeparator, SameTag;
  }

  // ---------- filter, map, sort, filter ----------

  /** at is the voice's place in the device's list. */
  datatype Entry = Entry(voice: Voice, rank: nat, at: nat)

  function EntriesFrom(voices: seq<Voice>, requested: string, at: nat): seq<Entry>
    requires at <= |voices|
    decreases |voices| - at
  {
    if at == |voices| then [] else
    var v := voices[at];
    (if InFamily(v.language, PrimarySubtag(requested)) then [Entry(v, RankOf(v.language.value, requested), at)]
     else []) +
    EntriesFrom(voices, requested, at + 1)
  }

  /** Insertion behind every entry of the same or a better rank. */
  function Insert(e: Entry, sorted: seq<Entry>): seq<Entry> {
    if sorted != [] && sorted[0].rank <= e.rank then [sorted[0]] + Insert(e, sorted[1..]) else [e] + sorted
  }

  /** Array.prototype.sort by rank, which is stable (ECMA-262 section 23.1.3.30). */
  function StableSort(entries: seq<Entry>): seq<Entry> {
    if entries == [] then [] else Insert(entries[|entries| - 1], StableSort(entries[..|entries| - 1]))
  }

  /** v.identifier || v.language */
  function KeyOf(v: Voice): string {
    if v.identifier != "" then v.identifier else if v.language.Some? then v.language.value else ""
  }

  /** The first entry of each key not seen yet. */
  function FirstOfEachKey(entries: seq<Entry>, seen: set<string>): seq<Entry> {
    if entries == [] then [] else
    var key := KeyOf(entries[0].voice);
    if key == "" || key in seen then FirstOfEachKey(entries[1..], seen)
    else [entries[0]] + FirstOfEachKey(entries[1..], seen + {key})
  }

  function Candidates(voices: seq<Voice>, requested: string): seq<Entry> {
    FirstOfEachKey(StableSort(EntriesFrom(voices, requested, 0)), {})
  }

  function Voices(entries: seq<Entry>): (vs: seq<Voice>)
    ensures |vs| == |entries|
    ensures forall i | 0 <= i < |vs| :: vs[i] == entries[i].voice
  {
    seq(|entries|, i requires 0 <= i < |entries| => entries[i].voice)
  }

  method RankedCandidates(voices: seq<Voice>, requested: string) returns (candidates: seq<Voice>)
    ensures candidates == Voices(Candidates(voices, requested))
  {
    var entries := [];
    for i := 0 to |voices|
      invariant EntriesFrom(voices, requested, 0) == entries + EntriesFrom(voices, requested, i)
    {
      var v := voices[i];
      if InFamily(v.language, PrimarySubtag(requested)) {
        var e := Entry(v, RankOf(v.language.value, requested), i);
        ghost var rest := EntriesFrom(voices, requested, i + 1);
        assert entries + ([e] + rest) == entries + [e] + rest;
        entries := entries + [e];
      }
    }
    assert entries == entries + [];
    var sorted := StableSort(entries);
    var seen := {};
    var kept := [];
    for i := 0 to |sorted|
      invariant FirstOfEachKey(sorted, {}) == kept + FirstOfEachKey(sorted[i..], seen)
    {
      var key := KeyOf(sorted[i].voice);
      assert sorted[i..][1..] == sorted[i + 1..];
      if key != "" && key !in seen {
        seen := seen + {key};
        ghost var rest := FirstOfEachKey(sorted[i + 1..], seen);
        assert kept + ([sorted[i]] + rest) == kept + [sorted[i]] + rest;
        kept := kept + [sorted[i]];
      }
    }
    assert kept == kept + [];
    candidates := Voices(kept);
  }

  // ---------- exactly which voices, in exactly which order ----------

  ghost predicate Before(a: Entry, b: Entry) {
    a.rank < b.rank || (a.rank == b.rank && a.at < b.at)
  }

  ghost predicate Ordered(es: seq<Entry>) {
    forall i, j | 0 <= i < j < |es| :: Before(es[i], es[j])
  }

  /** An entry is a voice of the family, with its rank and its place. */
  ghost predicate IsEntry(voices: seq<Voice>, requested: string, e: Entry) {
    && e.at < |voices| && voices[e.at] == e.voice
    && InFamily(e.voice.language, PrimarySubtag(requested))
    && e.rank == RankOf(e.voice.language.value, requested)
  }

  /** No other family voice of the device with the same key comes before it. */
  ghost predicate BestOfItsKey(voices: seq<Voice>, requested: string, e: Entry) {
    && IsEntry(voices, requested, e)
    && forall f :: IsEntry(voices, requested, f) && KeyOf(f.voice) == KeyOf(e.voice) ==> f == e || Before(e, f)
  }

  /** The entry of one place, if its voice is of the family. */
  function EntryAt(voices: seq<Voice>, requested: string, at: nat): seq<Entry>
    requires at < |voices|
  {
    var v := voices[at];
    if InFamily(v.language, PrimarySubtag(requested)) then [Entry(v, RankOf(v.language.value, requested), at)] else []
  }

  lemma EntryOfPlace(voices: seq<Voice>, requested: string, at: nat, e: Entry)
    requires at < |voices|
    ensures e in EntryAt(voices, requested, at) <==> e.at == at && IsEntry(voices, requested, e)
  {
    hide RankOf;
    hide PrimarySubtag;
  }

  lemma {:induction false} EntriesExact(voices: seq<Voice>, requested: string, at: nat)
    requires at <= |voices|
    ensures var es := EntriesFrom(voices, requested, at);
            (forall e :: e in es <==> e.at >= at && IsEntry(voices, requested, e)) &&
            forall i, j | 0 <= i < j < |es| :: es[i].at < es[j].at
    decreases |voices| - at
  {
    if at < |voices| {
      EntriesExact(voices, requested, at + 1);
      var here, rest := EntryAt(voices, requested, at), EntriesFrom(voices, requested, at + 1);
      var es := EntriesFrom(voices, requested, at);
      assert es == here + rest && |here| <= 1;
      hide EntriesFrom;
      hide EntryAt;
      hide IsEntry;
      forall e
        ensures e in es <==> e.at >= at && IsEntry(voices, requested, e)
        ensures e in here ==> e.at == at
      {
        EntryOfPlace(voices, requested, at, e);
      }
      forall i, j | 0 <= i < j < |es| ensures es[i].at < es[j].at {
        if i < |here| { assert here[i] in here && rest[j - |here|] in rest; }
      }
    }
  }

  lemma {:induction false} InsertOrdered(e: Entry, sorted: seq<Entry>)
    requires Ordered(sorted) && forall x :: x in sorted ==> x.at < e.at
    ensures Ordered(Insert(e, sorted))
    ensures forall x :: x in Insert(e, sorted) <==> x == e || x in sorted
  {
    if sorted != [] && sorted[0].rank <= e.rank {
      InsertOrdered(e, sorted[1..]);
      var r := Insert(e, sorted[1..]);
      assert Insert(e, sorted) == [sorted[0]] + r;
      forall x | x in r ensures Before(sorted[0], x) {
        if x != e { assert x in sorted[1..]; }
      }
      assert sorted == [sorted[0]] + sorted[1..];
    } else {
      assert Insert(e, sorted) == [e] + sorted;
      forall x | x in sorted ensures Before(e, x) {}
    }
  }

  lemma {:induction false} SortOrdered(es: seq<Entry>)
    requires forall i, j | 0 <= i < j < |es| :: es[i].at < es[j].at
    ensures Ordered(StableSort(es))
    ensures forall x :: x in StableSort(es) <==> x in es
  {
    if es != [] {
      var front, last := es[..|es| - 1], es[|es| - 1];
      SortOrdered(front);
      InsertOrdered(last, StableSort(front));
      assert es == front + [last];
    }
  }

  ghost predicate FirstAmong(es: seq<Entry>, seen: set<string>, e: Entry) {
    e in es && KeyOf(e.voice) != "" && KeyOf(e.voice) !in seen &&
    forall f :: f in es && KeyOf(f.voice) == KeyOf(e.voice) ==> f == e || Before(e, f)
  }

  lemma FirstAmongMore(first: Entry, rest: seq<Entry>, seen: set<string>, e: Entry)
    requires forall f | f in rest :: Before(first, f)
    requires KeyOf(first.voice) != "" && KeyOf(first.voice) !in seen
    ensures FirstAmong([first] + rest, seen, e) <==> e == first || FirstAmong(rest, seen + {KeyOf(first.voice)}, e)
  {
    hide KeyOf;
    var es := [first] + rest;
    assert forall f :: f in es <==> f == first || f in rest;
    assert first in es;
  }

  lemma {:induction false} FirstsExact(es: seq<Entry>, seen: set<string>)
    requires Ordered(es)
    ensures var r := FirstOfEachKey(es, seen);
            Ordered(r) && forall e :: e in r <==>
              e in es && KeyOf(e.voice) != "" && KeyOf(e.voice) !in seen &&
              forall f :: f in es && KeyOf(f.voice) == KeyOf(e.voice) ==> f == e || Before(e, f)
  {
    hide KeyOf;
    if es != [] {
      var first, rest := es[0], es[1..];
      var key := KeyOf(first.voice);
      assert es == [first] + rest;
      assert forall f | f in rest :: Before(first, f);
      if key == "" || key in seen {
        FirstsExact(rest, seen);
        forall e ensures e in FirstOfEachKey(es, seen) <==> FirstAmong(es, seen, e) {
          assert e in FirstOfEachKey(rest, seen) <==> FirstAmong(rest, seen, e);
        }
      } else {
        FirstsExact(rest, seen + {key});
        var r := FirstOfEachKey(rest, seen + {key});
        assert FirstOfEachKey(es, seen) == [first] + r;
        forall e ensures e in FirstOfEachKey(es, seen) <==> FirstAmong(es, seen, e) {
          assert e in r <==> FirstAmong(rest, seen + {key}, e);
          FirstAmongMore(first, rest, seen, e);
        }
      }
    }
  }

  /** The candidates are exactly the best voice of each key, strictly in the order of rank and device place. */
  lemma CandidatesExact(voices: seq<Voice>, requested: string)
    ensures var r := Candidates(voices, requested);
            Ordered(r) && forall e :: e in r <==> BestOfItsKey(voices, requested, e)
  {
    hide Lower;
    hide RankOf;
    var entries := EntriesFrom(voices, requested, 0);
    EntriesExact(voices, requested, 0);
    SortOrdered(entries);
    var sorted := StableSort(entries);
    FirstsExact(sorted, {});
    forall e ensures e in Candidates(voices, requested) <==> BestOfItsKey(voices, requested, e) {
      if IsEntry(voices, requested, e) { assert KeyOf(e.voice) != ""; }
    }
  }

  /** Looking through the device's list for the best voice of a key. */
  lemma {:induction false} Best(voices: seq<Voice>, requested: string, e: Entry, n: nat, so: Entry)
    returns (best: Entry)
    requires n <= |voices| && IsEntry(voices, requested, e) && IsEntry(voices, requested, so)
    requires KeyOf(so.voice) == KeyOf(e.voice)
    requires forall f | IsEntry(voices, requested, f) && KeyOf(f.voice) == KeyOf(e.voice) && f.at < n ::
               f == so || Before(so, f)
    ensures BestOfItsKey(voices, requested, best) && KeyOf(best.voice) == KeyOf(e.voice)
    decreases |voices| - n
  {
    hide KeyOf;
    hide RankOf;
    hide PrimarySubtag;
    if n == |voices| {
      best := so;
    } else {
      var v := voices[n];
      var next := so;
      if InFamily(v.language, PrimarySubtag(requested)) && KeyOf(v) == KeyOf(e.voice) {
        var f := Entry(v, RankOf(v.language.value, requested), n);
        if Before(f, so) { next := f; }
      }
      forall f | IsEntry(voices, requested, f) && KeyOf(f.voice) == KeyOf(e.voice) && f.at < n + 1
        ensures f == next || Before(next, f)
      {
        if f.at == n { assert f == Entry(v, RankOf(v.language.value, requested), n); }
      }
      best := Best(voices, requested, e, n + 1, next);
    }
  }

  /** Every family voice is stood for by exactly one candidate of its key, nothing else is a candidate. */
  lemma OnePerKey(voices: seq<Voice>, requested: string, at: nat)
    requires at < |voices|
    ensures var r := Candidates(voices, requested);
            InFamily(voices[at].language, PrimarySubtag(requested)) ==>
              exists i | 0 <= i < |r| :: KeyOf(r[i].voice) == KeyOf(voices[at]) &&
                forall j | 0 <= j < |r| :: KeyOf(r[j].voice) == KeyOf(voices[at]) ==> j == i
  {
    hide RankOf;
    hide KeyOf;
    CandidatesExact(voices, requested);
    var r := Candidates(voices, requested);
    if InFamily(voices[at].language, PrimarySubtag(requested)) {
      var mine := Entry(voices[at], RankOf(voices[at].language.value, requested), at);
      var best := Best(voices, requested, mine, 0, mine);
      var i :| 0 <= i < |r| && r[i] == best;
      hide Candidates;
      forall j | 0 <= j < |r| && KeyOf(r[j].voice) == KeyOf(voices[at]) ensures j == i {
        assert r[j] in r && BestOfItsKey(voices, requested, r[j]);
      }
    }
  }

  // ---------- the owner's own voice ----------

  function FirstNamed(candidates: seq<Voice>, identifier: string): (i: nat)
    ensures i <= |candidates|
    ensures i < |candidates| ==> candidates[i].identifier == identifier
    ensures forall j | 0 <= j < i :: candidates[j].identifier != identifier
  {
    if candidates == [] || candidates[0].identifier == identifier then 0
    else 1 + FirstNamed(candidates[1..], identifier)
  }

  /** chosen is the owner's stored voice, None or empty when there is none. */
  function Preferred(candidates: seq<Voice>, chosen: Option<string>): seq<Voice> {
    if chosen.None? || chosen.value == "" then candidates else
    var i := FirstNamed(candidates, chosen.value);
    if 0 < i < |candidates| then [candidates[i]] + (candidates[..i] + candidates[i + 1..]) else candidates
  }

  lemma FrontPermutes<T>(a: seq<T>, x: T, b: seq<T>)
    ensures multiset([x] + (a + b)) == multiset(a + [x] + b)
  {
    assert multiset([x] + (a + b)) == multiset([x]) + multiset(a + b);
    assert multiset(a + [x] + b) == multiset(a + [x]) + multiset(b);
  }

  /** r is the candidates with number i moved to the front, the others in their order. */
  ghost predicate Fronted(candidates: seq<Voice>, i: nat, r: seq<Voice>) {
    i < |candidates| && r == [candidates[i]] + (candidates[..i] + candidates[i + 1..])
  }

  lemma FrontedPermutes(candidates: seq<Voice>, i: nat, r: seq<Voice>)
    requires Fronted(candidates, i, r)
    ensures multiset(r) == multiset(candidates)
  {
    var a, x, b := candidates[..i], candidates[i], candidates[i + 1..];
    assert candidates == a + [x] + b;
    FrontPermutes(a, x, b);
  }

  lemma AlreadyInFront(candidates: seq<Voice>)
    requires candidates != []
    ensures Fronted(candidates, 0, candidates)
  {
    assert candidates == [candidates[0]] + ([] + candidates[1..]);
  }

  /** The owner's choice comes first if a candidate has it; nothing is lost and nothing else moves. */
  lemma PreferredPermutes(candidates: seq<Voice>, chosen: Option<string>)
    ensures var r := Preferred(candidates, chosen);
            multiset(r) == multiset(candidates) &&
            if chosen.Some? && chosen.value != "" && exists v :: v in candidates && v.identifier == chosen.value
            then exists i: nat :: Fronted(candidates, i, r) && candidates[i].identifier == chosen.value
            else r == candidates
  {
    var r := Preferred(candidates, chosen);
    if chosen.Some? && chosen.value != "" {
      var i := FirstNamed(candidates, chosen.value);
      if i < |candidates| {
        assert candidates[i] in candidates;
        if i == 0 { AlreadyInFront(candidates); }
        assert Fronted(candidates, i, r);
        FrontedPermutes(candidates, i, r);
      }
    }
  }
}
