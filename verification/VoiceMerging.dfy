/**
 Which voices of the device an announcement may use, told from the voices themselves: their tags'
 letters, their identifiers and their languages.
 */
module VoiceMerging {
  import opened Wrappers
  import opened VoiceRanking

  // ---------- the family ----------

  /** n characters come before the first separator. */
  ghost predicate SubtagEnds(s: string, n: nat) {
    n <= |s| && (forall i | 0 <= i < n :: !IsSeparator(s[i])) && (n < |s| ==> IsSeparator(s[n]))
  }

  lemma {:induction false} SubtagLength(s: string, n: nat)
    ensures SubtagEnds(s, n) <==> n == |BeforeSeparator(s)|
  {
    var bare := BeforeSeparator(s);
    assert forall i | 0 <= i < |bare| :: bare[i] == s[i] && bare[i] in bare;
  }

  /** A voice is of the family when its language and the requested one agree, case aside, up to their first
      separators. */
  lemma FamilyIff(language: Option<string>, requested: string)
    ensures InFamily(language, PrimarySubtag(requested)) <==>
            language.Some? && language.value != "" &&
            exists n: nat :: SubtagEnds(language.value, n) && SubtagEnds(requested, n) &&
                        SameTag(language.value[..n], requested[..n], false)
  {
    if language.Some? {
      var tag := language.value;
      var n := |BeforeSeparator(tag)|;
      SubtagLength(tag, n);
      SubtagLength(requested, n);
      forall k: nat
        ensures SubtagEnds(tag, k) ==> k == n
        ensures SubtagEnds(requested, k) ==> k == |BeforeSeparator(requested)|
      {
        SubtagLength(tag, k);
        SubtagLength(requested, k);
      }
      assert tag[..n] == BeforeSeparator(tag);
      if n == |BeforeSeparator(requested)| { assert requested[..n] == BeforeSeparator(requested); }
      SameLower(BeforeSeparator(tag), BeforeSeparator(requested));
      hide Lower, LowerChar, BeforeSeparator, SubtagEnds;
      assert SubtagEnds(requested, n) <==> n == |BeforeSeparator(requested)| by { SubtagLength(requested, n); }
    }
  }

  // ---------- one voice for several ----------

  /** Two voices count as one: by their identifiers where both have one, by their languages where neither
      has, and by identifier against language otherwise. */
  ghost predicate Merged(v: Voice, w: Voice) {
    if v.identifier != "" && w.identifier != "" then v.identifier == w.identifier
    else if v.identifier != "" then w.language == Some(v.identifier)
    else if w.identifier != "" then v.language == Some(w.identifier)
    else v.language == w.language
  }

  lemma MergedIsSameKey(voices: seq<Voice>, requested: string, e: Entry, f: Entry)
    requires IsEntry(voices, requested, e) && IsEntry(voices, requested, f)
    ensures KeyOf(e.voice) == KeyOf(f.voice) <==> Merged(e.voice, f.voice)
    ensures e == f || Before(e, f) || Before(f, e)
    ensures !(Before(e, f) && Before(f, e)) && (Before(e, f) ==> e != f)
  {
    hide RankOf, PrimarySubtag;
  }

  /** Main result: the candidates are the family voices that count as one with none before them. */
  lemma CandidateIff(voices: seq<Voice>, requested: string, e: Entry)
    ensures e in Candidates(voices, requested) <==>
            IsEntry(voices, requested, e) &&
            forall f | IsEntry(voices, requested, f) && Before(f, e) :: !Merged(f.voice, e.voice)
  {
    CandidatesExact(voices, requested);
    hide Candidates;
    if IsEntry(voices, requested, e) {
      forall f | IsEntry(voices, requested, f)
        ensures KeyOf(f.voice) == KeyOf(e.voice) <==> Merged(f.voice, e.voice)
        ensures Before(f, e) <==> !(f == e || Before(e, f))
      {
        MergedIsSameKey(voices, requested, f, e);
      }
      hide IsEntry, KeyOf, Merged, Before;
    }
  }

  /** No two candidates share an identifier. */
  lemma IdentifiersDiffer(voices: seq<Voice>, requested: string, i: nat, j: nat)
    requires i < j < |Candidates(voices, requested)|
    ensures var r := Candidates(voices, requested);
            r[i].voice.identifier != "" ==> r[i].voice.identifier != r[j].voice.identifier
  {
    var r := Candidates(voices, requested);
    CandidatesExact(voices, requested);
    assert Ordered(r) && r[i] in r && r[j] in r;
    CandidateIff(voices, requested, r[i]);
    CandidateIff(voices, requested, r[j]);
    hide Candidates, IsEntry;
  }

  /** A voice of the family that has no identifier and this one as its language. */
  ghost predicate Shadows(voices: seq<Voice>, requested: string, f: Entry, identifier: string) {
    IsEntry(voices, requested, f) && f.voice.identifier == "" && f.voice.language == Some(identifier)
  }

  ghost predicate Unshadowed(voices: seq<Voice>, requested: string, e: Entry) {
    IsEntry(voices, requested, e) && forall f | Shadows(voices, requested, f, e.voice.identifier) :: Before(e, f)
  }

  /** An identifier is among the candidates exactly when a family voice has it that no voice without
      identifier, and with it as language, precedes: different identifiers are never merged. */
  lemma IdentifierIsCandidateIff(voices: seq<Voice>, requested: string, identifier: string)
    requires identifier != ""
    ensures (exists c :: c in Candidates(voices, requested) && c.voice.identifier == identifier) <==>
            (exists e :: Unshadowed(voices, requested, e) && e.voice.identifier == identifier)
  {
    if c :| c in Candidates(voices, requested) && c.voice.identifier == identifier {
      CandidateIff(voices, requested, c);
      hide Candidates;
      forall f | Shadows(voices, requested, f, identifier) ensures Before(c, f) {
        MergedIsSameKey(voices, requested, c, f);
      }
      assert Unshadowed(voices, requested, c);
    }
    if e :| Unshadowed(voices, requested, e) && e.voice.identifier == identifier {
      CandidatesExact(voices, requested);
      var best := Best(voices, requested, e, 0, e);
      hide Candidates, InFamily, RankOf;
      MergedIsSameKey(voices, requested, best, e);
      assert best in Candidates(voices, requested);
      assert best.voice.identifier == "" ==> Shadows(voices, requested, best, identifier);
    }
  }

  /** A voice without an identifier is dropped exactly when one before it has its language as identifier, or
      has no identifier and the same language. */
  lemma UnnamedIsDroppedIff(voices: seq<Voice>, requested: string, e: Entry)
    requires IsEntry(voices, requested, e) && e.voice.identifier == ""
    ensures e !in Candidates(voices, requested) <==>
            exists f :: IsEntry(voices, requested, f) && Before(f, e) &&
                        (e.voice.language == Some(f.voice.identifier) ||
                         (f.voice.identifier == "" && f.voice.language == e.voice.language))
  {
    CandidateIff(voices, requested, e);
    hide Candidates, RankOf, PrimarySubtag, Before;
  }
}
