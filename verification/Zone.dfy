/**
 Finding the instant at which a shop-local day begins.  A zone is any function from instants to
 offsets, both in whole seconds; local midnights are whole days on the local scale.
 */
module Zone {
  const DAY := 86_400

  type Zone = int -> int

  function Local(z: Zone, u: int): int {
    u + z(u)
  }

  /** Offsets of real zones stay within a day. */
  ghost predicate Bounded(z: Zone) {
    forall u :: -DAY < z(u) < DAY
  }

  /** Within r of g the offset changes at most once, from a to b at instant t. */
  ghost predicate ChangesOnce(z: Zone, g: int, r: int, t: int, a: int, b: int) {
    -DAY < a < DAY && -DAY < b < DAY &&
    forall u :: g - r <= u <= g + r ==> z(u) == if u < t then a else b
  }

  /** The two passes of startOfZonedDay for the local midnight g. */
  function TwoPass(z: Zone, g: int): int {
    g - z(g - z(g))
  }

  /** The clock is set back over g: local time g occurs twice. */
  predicate Repeated(g: int, t: int, a: int, b: int) {
    g - a < t <= g - b
  }

  /** The clock is set forward over g: local time g does not occur. */
  predicate Skipped(g: int, t: int, a: int, b: int) {
    g - b < t <= g - a
  }

  /** The result reads exactly midnight if and only if that midnight exists. */
  lemma MidnightFound(z: Zone, g: int, t: int, a: int, b: int)
    requires Bounded(z) && ChangesOnce(z, g, DAY, t, a, b)
    ensures Local(z, TwoPass(z, g)) == g <==> exists u :: Local(z, u) == g
    ensures (exists u :: Local(z, u) == g) <==> !Skipped(g, t, a, b)
  {
    assert -DAY < z(g) < DAY;
    var first := g - z(g);
    assert -DAY < z(first) < DAY;
    var r := g - z(first);
    assert z(g) == (if g < t then a else b) && z(first) == (if first < t then a else b);
    assert z(r) == if r < t then a else b;
    if u :| Local(z, u) == g {
      assert -DAY < z(u) < DAY;
      assert z(u) == if u < t then a else b;
    }
    if !Skipped(g, t, a, b) { assert Local(z, r) == g; }
  }

  /** The earliest instant whose local time has reached g. */
  ghost predicate IsDayStart(z: Zone, g: int, r: int) {
    Local(z, r) >= g && forall u :: u < r ==> Local(z, u) < g
  }

  lemma TwoPassIs(z: Zone, g: int, t: int, a: int, b: int)
    requires Bounded(z) && ChangesOnce(z, g, DAY, t, a, b)
    ensures TwoPass(z, g) ==
            if Repeated(g, t, a, b) then (if g < t then g - a else g - b)
            else if Skipped(g, t, a, b) then (if g < t then g - b else g - a)
            else if g - a < t then g - a else g - b
    ensures g - DAY < TwoPass(z, g) < g + DAY
  {
    assert -DAY < z(g) < DAY;
    var first := g - z(g);
    assert -DAY < z(first) < DAY;
    assert z(g) == (if g < t then a else b) && z(first) == (if first < t then a else b);
  }

  /** Local time reached g or not, at every instant: read off the change inside the window, off the
      bound outside. */
  lemma NearOrFar(z: Zone, g: int, t: int, a: int, b: int)
    requires Bounded(z) && ChangesOnce(z, g, DAY, t, a, b)
    ensures forall u :: g - DAY <= u <= g + DAY ==> Local(z, u) == u + (if u < t then a else b)
    ensures forall u :: u < g - DAY ==> Local(z, u) < g
    ensures forall u :: u > g + DAY ==> Local(z, u) > g
  {
    forall u
      ensures u < g - DAY ==> Local(z, u) < g
      ensures u > g + DAY ==> Local(z, u) > g
    {
      assert -DAY < z(u) < DAY;
    }
  }

  /** The result is the first instant of the local day, except when midnight occurs twice and the
      change comes no later than g on the UTC scale, and when midnight is skipped, unless the clock
      jumps exactly at midnight in a zone whose earlier offset is not west of UTC. */
  lemma DayStartIff(z: Zone, g: int, t: int, a: int, b: int)
    requires Bounded(z) && ChangesOnce(z, g, DAY, t, a, b)
    ensures IsDayStart(z, g, TwoPass(z, g)) <==>
            (Repeated(g, t, a, b) ==> g < t) && (Skipped(g, t, a, b) ==> t == g - a <= g)
  {
    var r := TwoPass(z, g);
    TwoPassIs(z, g, t, a, b);
    NearOrFar(z, g, t, a, b);
    if Repeated(g, t, a, b) {
      assert Local(z, g - a) == g;
      if g < t {
        assert forall u :: u < r ==> Local(z, u) < g;
      } else {
        assert g - a < r;
      }
    } else if Skipped(g, t, a, b) {
      if t == g - a <= g {
        assert forall u :: u < r ==> Local(z, u) < g;
      } else if a <= 0 && g < t {
        assert Local(z, r) < g;
      } else {
        assert t < r && Local(z, t) >= g;
      }
    } else {
      assert forall u :: u < r ==> Local(z, u) < g;
    }
  }

  /** Three hours behind UTC until the clock jumps from midnight to one o'clock. */
  function JumpsAtMidnight(): Zone {
    u => if u < 10_800 then -10_800 else -7_200
  }

  /** There the two passes land an hour before the day starts. */
  lemma JumpedMidnightIsMissed()
    ensures var z := JumpsAtMidnight();
            Bounded(z) && ChangesOnce(z, 0, DAY, 10_800, -10_800, -7_200) && Skipped(0, 10_800, -10_800, -7_200) &&
            TwoPass(z, 0) == 7_200 && IsDayStart(z, 0, 10_800) && !IsDayStart(z, 0, TwoPass(z, 0))
  {
    var z := JumpsAtMidnight();
    assert Local(z, 7_200) == -3_600;
  }

  /** The result separates the instants before local midnight g from those at or after it. */
  ghost predicate Separates(z: Zone, g: int, r: int) {
    forall u :: Local(z, u) >= g <==> u >= r
  }

  /** No clock change straddles the midnight, or one does so harmlessly: set back to exactly midnight
      after it, or forward from exactly midnight at it. */
  predicate HarmlessAt(g: int, t: int, a: int, b: int) {
    (Repeated(g, t, a, b) ==> g < t == g - b) && (Skipped(g, t, a, b) ==> t == g - a <= g)
  }

  /** It does exactly when the change is harmless. */
  lemma SeparatesIff(z: Zone, g: int, t: int, a: int, b: int)
    requires Bounded(z) && ChangesOnce(z, g, DAY, t, a, b)
    ensures Separates(z, g, TwoPass(z, g)) <==> HarmlessAt(g, t, a, b)
  {
    var r := TwoPass(z, g);
    TwoPassIs(z, g, t, a, b);
    NearOrFar(z, g, t, a, b);
    DayStartIff(z, g, t, a, b);
    assert Local(z, r) == r + z(r) && Local(z, t) == t + z(t);
    if Separates(z, g, r) { assert IsDayStart(z, g, r); }
  }

  /** From r until s it is past g and not yet h. */
  ghost predicate Bounds(z: Zone, g: int, r: int, h: int, s: int) {
    forall u :: r <= u < s <==> g <= Local(z, u) < h
  }

  /** What a window from one midnight to a later one says of an instant. */
  lemma BoundsAt(z: Zone, g: int, r: int, h: int, s: int, u: int)
    requires Bounds(z, g, r, h, s)
    ensures r <= u < s <==> g <= Local(z, u) < h
  {
  }

  lemma EarlierFaultShows(z: Zone, g: int, t: int, a: int, b: int, h: int, t': int, a': int, b': int)
    requires Bounded(z) && ChangesOnce(z, g, DAY, t, a, b) && ChangesOnce(z, h, DAY, t', a', b') && g + DAY <= h
    requires Bounds(z, g, TwoPass(z, g), h, TwoPass(z, h))
    ensures HarmlessAt(g, t, a, b)
  {
    var r, s := TwoPass(z, g), TwoPass(z, h);
    TwoPassIs(z, g, t, a, b);
    TwoPassIs(z, h, t', a', b');
    NearOrFar(z, g, t, a, b);
    NearOrFar(z, h, t', a', b');
    hide TwoPass, ChangesOnce, Bounded, Bounds;
    BoundsAt(z, g, r, h, s, r); BoundsAt(z, g, r, h, s, r - 1);
    BoundsAt(z, g, r, h, s, s); BoundsAt(z, g, r, h, s, s - 1);
    BoundsAt(z, g, r, h, s, t); BoundsAt(z, g, r, h, s, t - 1);
    BoundsAt(z, g, r, h, s, g - a); BoundsAt(z, g, r, h, s, g - b);
  }

  lemma ReadsOnTheDay(z: Zone, g: int, t: int, a: int, b: int)
    requires Bounded(z) && ChangesOnce(z, g, DAY, t, a, b) && HarmlessAt(g, t, a, b)
    ensures g <= Local(z, TwoPass(z, g)) < g + DAY
  {
    TwoPassIs(z, g, t, a, b);
    NearOrFar(z, g, t, a, b);
    hide TwoPass;
  }

  /** With the earlier midnight separated, the later one must be. */
  lemma LaterSeparated(z: Zone, g: int, r: int, h: int, s: int)
    requires g + DAY <= h && Separates(z, g, r) && g <= Local(z, r) < g + DAY && Bounds(z, g, r, h, s)
    ensures Separates(z, h, s)
  {
    BoundsAt(z, g, r, h, s, r);
    forall u ensures Local(z, u) >= h <==> u >= s {
      BoundsAt(z, g, r, h, s, u);
      assert Local(z, u) >= g <==> u >= r;
    }
  }

  /** The window between the results for two midnights at least a day apart holds exactly the local times
      between them if and only if the changes at both are harmless: no fault at one makes up for a fault at
      the other. */
  lemma WindowIff(z: Zone, g: int, t: int, a: int, b: int, h: int, t': int, a': int, b': int)
    requires Bounded(z) && ChangesOnce(z, g, DAY, t, a, b) && ChangesOnce(z, h, DAY, t', a', b') && g + DAY <= h
    ensures Bounds(z, g, TwoPass(z, g), h, TwoPass(z, h)) <==> HarmlessAt(g, t, a, b) && HarmlessAt(h, t', a', b')
  {
    var r, s := TwoPass(z, g), TwoPass(z, h);
    SeparatesIff(z, g, t, a, b);
    SeparatesIff(z, h, t', a', b');
    if Bounds(z, g, r, h, s) {
      EarlierFaultShows(z, g, t, a, b, h, t', a', b');
      ReadsOnTheDay(z, g, t, a, b);
      LaterSeparated(z, g, r, h, s);
    }
    hide TwoPass, ChangesOnce, HarmlessAt;
  }
}
