/** Whole windows: when the stop position of Between loses nothing, and when a window may be cut. */
module Windows {
  import opened Calendar
  import FieldSets
  import opened Search
  import opened Zone
  import opened Iterate

  /** What Between answers when it reports no error, and what the window really holds. */
  ghost predicate Answers(q: Query, out: seq<Occurrence>)
    requires q.Ok()
  {
    Rising(out) && !RanOut(q) && forall o :: o in out <==> q.Listed(o)
  }

  ghost predicate Whole(q: Query, out: seq<Occurrence>)
    requires q.Ok()
  {
    Rising(out) && forall o :: o in out <==> q.InWindow(o)
  }

  /** An occurrence past the stop position belongs to the window all the same. */
  ghost predicate LosesPastStop(q: Query)
    requires q.Ok()
  {
    exists o :: q.InWindow(o) && WallOrdinal(o.slot) > q.StopPos()
  }

  /** Without an error, the stop position is the only thing an answer can lose occurrences to. */
  lemma CompleteIffNothingPastStop(q: Query, out: seq<Occurrence>)
    requires q.Ok() && Answers(q, out)
    ensures Whole(q, out) <==> !LosesPastStop(q)
  {
    hide Compiled.Matches, CivilOf, MinuteNumber;
    var x :| q.c.Matches(x) && !Lt(x, q.Start()) && x.y <= q.YearLimit() && WallOrdinal(x) > q.StopPos();
    VixieRule(q.c, x);
    forall o | q.InWindow(o) && WallOrdinal(o.slot) <= q.StopPos() ensures q.Listed(o) {
      OrdinalEmbedsTime(o.slot, x);
      LtMinutes(o.slot, x);
    }
  }

  /** With the error, everything of the window up to the year limit has come back. */
  lemma CompleteUpToTheYearLimit(q: Query, out: seq<Occurrence>)
    requires q.Ok() && RanOut(q) && forall o :: o in out <==> q.Listed(o)
    ensures forall o :: o in out <==> q.InWindow(o) && o.slot.y <= q.YearLimit()
  {
    hide Compiled.Matches, CivilOf, MinuteNumber;
    forall o | q.InWindow(o) && o.slot.y <= q.YearLimit() ensures q.Listed(o) {
      OrdinalEmbedsTime(o.slot, q.Start());
      LtMinutes(o.slot, q.Start());
    }
  }

  // ----- how far ahead of a later instant a tuple can land

  /** No tuple that has landed by instant m lies more than v wall minutes past m's own wall clock. */
  ghost predicate LeadAtMost(z: Zone, v: int)
    requires Regular(z)
  {
    forall p, l, e, m :: e in EmissionsOf(z, p, l) && e.at <= m ==> l - Local(z, m) <= v
  }

  ghost predicate Constant(z: Zone, off: int) {
    forall m :: z.off(m) == off
  }

  lemma LeadOfSpread(z: Zone, v: int)
    requires Regular(z) && forall a, b :: z.off(a) - z.off(b) <= v
    ensures LeadAtMost(z, v)
  {
    forall p, l, e, m | e in EmissionsOf(z, p, l) && e.at <= m ensures l - Local(z, m) <= v {
      var k := OffsetOfEmission(z, p, l, e);
    }
  }

  /** Local time falls back by at most an hour. */
  lemma LocalFallsBackAnHour(z: Zone, a: int, b: int)
    requires Regular(z) && a <= b
    ensures Local(z, b) >= Local(z, a) - 60
    ensures Local(z, b) < Local(z, a) ==> b - a < 60
  {
    if b <= a + 2880 {
      ShiftWithin(z, a, b);
    }
  }

  /** A tuple lands ahead of a later instant only by having been rendered before it. */
  lemma LandsAheadOnlyRendered(z: Zone, p: Policy, l: int, e: Emission, m: int)
    requires Regular(z) && e in EmissionsOf(z, p, l) && e.at <= m && l > Local(z, m)
    ensures Renders(z, e.at, l)
  {
    hide TableRow;
    if !Exists(z, l) {
      var t := GapExists(z, l);
      GapRow(z, p, l, t);
      GapPlace(z, t, l);
      LocalFallsBackAnHour(z, e.at, m);
      SteadyAfter(z, t, e.at);
      if m < t + 2880 {
        SteadyAfter(z, t, m);
      }
    } else {
      RenderedRow(z, p, l, e);
    }
  }

  lemma LeadOfRegular(z: Zone)
    requires Regular(z)
    ensures LeadAtMost(z, 60)
  {
    forall p, l, e, m | e in EmissionsOf(z, p, l) && e.at <= m ensures l - Local(z, m) <= 60 {
      if l > Local(z, m) {
        LandsAheadOnlyRendered(z, p, l, e, m);
        LocalFallsBackAnHour(z, e.at, m);
      }
    }
  }

  predicate SameMonth(a: Wall, b: Wall) {
    a.y == b.y && a.mo == b.mo
  }

  /** Inside one month ordinals count minutes. */
  lemma OrdinalsCountMinutes(a: Wall, b: Wall)
    requires Real(a) && Real(b) && SameMonth(a, b)
    ensures WallOrdinal(b) - WallOrdinal(a) == MinuteNumber(b) - MinuteNumber(a)
  {
  }

  /** The stop position reaches sixteen hours past the end's wall clock, but never into the month after it; the year
      limit is six calendar years on, and 9999. */
  lemma StopIsSixteenHours(q: Query, w: Wall)
    requires Real(w)
    ensures var start, end := CivilOf(Local(q.z, q.from / TICKS)), CivilOf(Local(q.z, q.to / TICKS));
            q.Reached(w) <==> w.y <= 9999 && w.y <= start.y + 6
                              && (!Lt(end, w) || (SameMonth(end, w) && MinuteNumber(w) <= MinuteNumber(end) + 960))
  {
    hide CivilOf, MinuteNumber;
    var end := CivilOf(Local(q.z, q.to / TICKS));
    OrdinalEmbedsTime(end, w);
    LtMinutes(end, w);
    if SameMonth(end, w) {
      OrdinalsCountMinutes(end, w);
    }
  }

  lemma BetweenInMonth(a: Wall, x: Wall, b: Wall)
    requires Real(a) && Real(x) && Real(b) && SameMonth(a, b)
    requires MinuteNumber(a) <= MinuteNumber(x) <= MinuteNumber(b)
    ensures SameMonth(a, x)
  {
    LtMinutes(x, a);
    LtMinutes(b, x);
  }

  /** The stop position is safe when the end's wall clock plus the zone's lead stays in its month. */
  lemma StopIsSafeInsideMonth(q: Query, v: int)
    requires q.Ok() && LeadAtMost(q.z, v) && 0 <= v <= 960
    requires SameMonth(WallAt(q.z, q.to), CivilOf(Local(q.z, q.to / TICKS) + v))
    ensures !LosesPastStop(q)
  {
    hide CivilOf, MinuteNumber, WallOrdinal, Compiled.Matches;
    var end := WallAt(q.z, q.to);
    forall o | q.InWindow(o) ensures WallOrdinal(o.slot) <= q.StopPos() {
      var l := MinuteNumber(o.slot);
      var e := Emission(o.at, o.skipped, o.reason);
      assert e in EmissionsOf(q.z, q.p, l) && e.at <= q.to / TICKS;
      OrdinalEmbedsTime(end, o.slot);
      if l > MinuteNumber(end) {
        BetweenInMonth(end, o.slot, CivilOf(Local(q.z, q.to / TICKS) + v));
        OrdinalsCountMinutes(end, o.slot);
      }
    }
  }

  /** In a zone without shifts it is always safe. */
  lemma StopIsSafeWithoutShifts(q: Query, off: int)
    requires q.Ok() && Constant(q.z, off)
    ensures !LosesPastStop(q)
  {
    hide CivilOf, MinuteNumber, WallOrdinal, LosesPastStop;
    LeadOfSpread(q.z, 0);
    StopIsSafeInsideMonth(q, 0);
  }

  // ----- exactly when the stop position is safe

  /** The end lies in the second pass of a doubled stretch that reaches into another month. */
  ghost predicate StraddlesMonth(z: Zone, e: int) {
    exists m :: SeenAhead(z, m, e)
  }

  predicate SeenAhead(z: Zone, m: int, e: int) {
    e - 60 <= m <= e && Local(z, m) > Local(z, e) && !SameMonth(CivilOf(Local(z, m)), CivilOf(Local(z, e)))
  }

  lemma NoStraddleNoLoss(q: Query)
    requires q.Ok() && !StraddlesMonth(q.z, q.to / TICKS)
    ensures !LosesPastStop(q)
  {
    hide CivilOf, MinuteNumber, WallOrdinal, Compiled.Matches;
    var e := q.to / TICKS;
    var end := WallAt(q.z, q.to);
    forall o | q.InWindow(o) ensures WallOrdinal(o.slot) <= q.StopPos() {
      var l := MinuteNumber(o.slot);
      CivilOfInverse(o.slot);
      OrdinalEmbedsTime(end, o.slot);
      if l > Local(q.z, e) {
        var em := Emission(o.at, o.skipped, o.reason);
        LandsAheadOnlyRendered(q.z, q.p, l, em, e);
        LocalFallsBackAnHour(q.z, o.at, e);
        assert !SeenAhead(q.z, o.at, e);
        assert SameMonth(o.slot, end);
        OrdinalsCountMinutes(end, o.slot);
      }
    }
  }

  function UpFrom(lo: int, hi: int): (s: seq<int>)
    requires lo <= hi
    ensures FieldSets.FieldSet(s, lo, hi) && |s| == hi - lo + 1
  {
    seq(hi - lo + 1, i => lo + i)
  }

  /** "* * * * *" */
  function EveryMinute(): (c: Compiled)
    ensures c.Valid()
  {
    Compiled(UpFrom(0, 59), UpFrom(0, 23), UpFrom(1, 31), UpFrom(1, 12), UpFrom(0, 6), true, true)
  }

  lemma EveryMinuteMatches(w: Wall)
    requires Real(w)
    ensures EveryMinute().Matches(w)
  {
    var c := EveryMinute();
    assert UpFrom(0, 59)[w.mi] == w.mi && UpFrom(0, 23)[w.h] == w.h && UpFrom(1, 12)[w.mo - 1] == w.mo;
  }

  /** The first minutes of a month lie past the stop position of an end late in the month before. */
  lemma NextMonthIsPastStop(end: Wall, w: Wall)
    requires Real(end) && Real(w) && !SameMonth(end, w)
    requires MinuteNumber(end) < MinuteNumber(w) <= MinuteNumber(end) + 60
    ensures WallOrdinal(w) > WallOrdinal(end) + 960
  {
    hide MinuteNumber;
    LtMinutes(end, w);
    LtMinutes(w, end);
    if end.h < 22 {
      var later := end.(h := end.h + 2);
      OrdinalsCountMinutes(end, later);
      LtMinutes(later, w);
    }
  }

  /** An instant whose local time is ahead of the end's was reached by an unbroken minute. */
  lemma AheadOfFallBack(z: Zone, m: int, e: int)
    requires Regular(z) && m <= e <= m + 60 && Local(z, m) > Local(z, e)
    ensures m < e && Local(z, m - 1) == Local(z, m) - 1
    ensures Local(z, m) - Local(z, e) <= 60
    ensures forall k :: k < m ==> !Renders(z, k, Local(z, m))
  {
    LocalFallsBackAnHour(z, m, e);
    var t := FindShift(z, m, e);
    SteadyBefore(z, m - 1, t);
    SteadyBefore(z, m, t);
    forall k | k < m ensures !Renders(z, k, Local(z, m)) {
      if Renders(z, k, Local(z, m)) {
        TwinDistance(z, k, m, Local(z, m));
        SteadyBefore(z, k, t);
      }
    }
  }

  /** When it does straddle, Between loses an occurrence of the every minute schedule, with no error. */
  lemma StraddleLoses(z: Zone, p: Policy, m: int, e: int)
    requires Valid(z) && SeenAhead(z, m, e)
    ensures var q := Query(z, p, EveryMinute(), (m - 1) * TICKS, e * TICKS);
            q.from < q.to && (CivilOf(Local(z, m)).y <= 9999 ==> !RanOut(q))
            && q.InWindow(Occurrence(CivilOf(Local(z, m)), m, false, NoReason))
            && WallOrdinal(CivilOf(Local(z, m))) > q.StopPos()
  {
    hide CivilOf, MinuteNumber, WallOrdinal, Compiled.Matches;
    var q := Query(z, p, EveryMinute(), (m - 1) * TICKS, e * TICKS);
    var w := CivilOf(Local(z, m));
    var o := Occurrence(w, m, false, NoReason);
    AheadOfFallBack(z, m, e);
    EveryMinuteMatches(w);
    EarliestIsReal(z, p, m);
    NextMonthIsPastStop(WallAt(z, q.to), w);
    AboveCursor(z, q.from, o);
    LtMinutes(q.Start(), w);
    assert q.Due(o);
    NextMinuteSameEra(q.Start(), w);
    assert q.c.Matches(w) && !Lt(w, q.Start()) && WallOrdinal(w) > q.StopPos();
  }

  lemma NextMinuteSameEra(a: Wall, b: Wall)
    requires Real(a) && Real(b) && MinuteNumber(b) == MinuteNumber(a) + 1
    ensures b.y <= a.y + 1 && !Lt(b, a)
  {
    LtMinutes(b, a);
    LtMinutes(Wall(a.y + 1, 1, 1, 0, 0), b);
    LtMinutes(a, Wall(a.y + 1, 1, 1, 0, 0));
  }

  lemma EarliestIsReal(z: Zone, p: Policy, m: int)
    requires Regular(z) && forall k :: k < m ==> !Renders(z, k, Local(z, m))
    ensures Emission(m, false, NoReason) in EmissionsOf(z, p, Local(z, m))
  {
    var l := Local(z, m);
    assert Renders(z, m, l);
    var es := EmissionsOf(z, p, l);
    assert Renders(z, es[0].at, l);
  }

  /** For one zone and one end, Between is complete for every schedule and every start exactly when the
      end does not lie in the second pass of a doubled stretch that reaches into another month. */
  lemma StopIsSafeIff(z: Zone, p: Policy, e: int)
    requires Valid(z)
    ensures (forall c: Compiled, from, to :: c.Valid() && to / TICKS == e ==> !LosesPastStop(Query(z, p, c, from, to)))
            <==> !StraddlesMonth(z, e)
  {
    hide CivilOf, MinuteNumber, WallOrdinal, Regular, DateContract, SeenAhead, LosesPastStop;
    if StraddlesMonth(z, e) {
      var m :| SeenAhead(z, m, e);
      StraddleLoses(z, p, m, e);
      var q := Query(z, p, EveryMinute(), (m - 1) * TICKS, e * TICKS);
      assert LosesPastStop(q) by {
        LosesBy(q, Occurrence(CivilOf(Local(z, m)), m, false, NoReason));
      }
      assert q.to / TICKS == e;
    } else {
      forall c: Compiled, from, to | c.Valid() && to / TICKS == e
        ensures !LosesPastStop(Query(z, p, c, from, to))
      {
        NoStraddleNoLoss(Query(z, p, c, from, to));
      }
    }
  }

  lemma LosesBy(q: Query, o: Occurrence)
    requires q.Ok() && q.InWindow(o) && WallOrdinal(o.slot) > q.StopPos()
    ensures LosesPastStop(q)
  {
  }

  /** A zone whose clocks fall back once, at instant t, with the offset looked up twice as a resolver. */
  ghost predicate FallsBackOnce(z: Zone, t: int, before: int, after: int) {
    (forall m :: z.off(m) == if m < t then before else after)
    && (forall l :: z.date(l) == l - z.off(l - z.off(l)))
  }

  function StepDown(t: int, before: int, after: int, m: int): int {
    if m < t then before else after
  }

  lemma FallsBackOnceExists(t: int, before: int, after: int) returns (z: Zone)
    ensures FallsBackOnce(z, t, before, after)
  {
    z := Zone(m => StepDown(t, before, after, m),
              l => l - StepDown(t, before, after, l - StepDown(t, before, after, l)));
  }

  lemma FallsBackOnceIsValid(z: Zone, t: int, before: int, after: int)
    requires -960 <= after < before <= 960 && (before - after == 30 || before - after == 60)
    requires FallsBackOnce(z, t, before, after)
    ensures Valid(z)
  {
    assert Regular(z) by {
      forall a, b, c ensures OneShift(z, a, b, c) {
      }
    }
    hide Regular;
    LookupTwiceKeepsThePromise(z);
  }

  /** "0 0 * * *" */
  function EveryMidnight(): (c: Compiled)
    ensures c.Valid()
  {
    Compiled([0], [0], UpFrom(1, 31), UpFrom(1, 12), UpFrom(0, 6), true, true)
  }

  lemma EveryMidnightMatches(w: Wall)
    requires Real(w) && w.h == 0 && w.mi == 0
    ensures EveryMidnight().Matches(w)
  {
    var c := EveryMidnight();
    assert UpFrom(1, 12)[w.mo - 1] == w.mo;
  }

  lemma NewfoundlandMinutes()
    ensures MinuteNumber(Wall(2009, 11, 1, 0, 0)) == 1056543840
    ensures MinuteNumber(Wall(2009, 10, 31, 23, 30)) == 1056543810
    ensures MinuteNumber(Wall(2009, 10, 31, 12, 30)) == 1056543150
  {
  }

  /** 02:31 UTC on 2009-11-01. */
  const NEWFOUNDLAND_SHIFT := 1056543991

  /** From noon thirty on October 31 to the second 23:30 of that evening. */
  function NewfoundlandWindow(z: Zone, p: Policy): (q: Query)
    ensures q.z == z && q.p == p && q.c == EveryMidnight() && q.from < q.to
  {
    Query(z, p, EveryMidnight(), (NEWFOUNDLAND_SHIFT - 691) * TICKS, (NEWFOUNDLAND_SHIFT + 29) * TICKS)
  }

  /** The midnight of November 1, which struck at 02:30 UTC. */
  function LostMidnight(): Occurrence {
    Occurrence(Wall(2009, 11, 1, 0, 0), NEWFOUNDLAND_SHIFT - 1, false, NoReason)
  }

  lemma NewfoundlandWalls(z: Zone, p: Policy)
    requires FallsBackOnce(z, NEWFOUNDLAND_SHIFT, -150, -210)
    ensures NewfoundlandWindow(z, p).Start() == Wall(2009, 10, 31, 12, 30)
    ensures WallAt(z, NewfoundlandWindow(z, p).to) == Wall(2009, 10, 31, 23, 30)
  {
    hide CivilOf, MinuteNumber;
    NewfoundlandMinutes();
    CivilOfInverse(Wall(2009, 10, 31, 23, 30));
    CivilOfInverse(Wall(2009, 10, 31, 12, 30));
  }

  lemma LostMidnightIsInWindow(z: Zone, p: Policy)
    requires FallsBackOnce(z, NEWFOUNDLAND_SHIFT, -150, -210) && Valid(z)
    ensures NewfoundlandWindow(z, p).InWindow(LostMidnight())
  {
    hide CivilOf, MinuteNumber, Compiled.Matches, Regular, DateContract;
    NewfoundlandMinutes();
    NewfoundlandWalls(z, p);
    CivilOfInverse(LostMidnight().slot);
    EveryMidnightMatches(LostMidnight().slot);
    EarliestIsReal(z, p, NEWFOUNDLAND_SHIFT - 1);
  }

  /** Newfoundland, 2009-11-01: at 00:01 the clocks went back to 23:01 on October 31. The window holds the
      midnight of November 1; the stop position cuts it off, and Between reports no error. */
  lemma NewfoundlandMidnightIsLost(z: Zone, p: Policy)
    requires FallsBackOnce(z, NEWFOUNDLAND_SHIFT, -150, -210)
    ensures Valid(z) && NewfoundlandWindow(z, p).InWindow(LostMidnight())
    ensures !NewfoundlandWindow(z, p).Reached(LostMidnight().slot)
    ensures LosesPastStop(NewfoundlandWindow(z, p)) && !RanOut(NewfoundlandWindow(z, p))
  {
    hide CivilOf, MinuteNumber, Compiled.Matches, Valid, FallsBackOnce, LosesPastStop, RanOut, Query.InWindow;
    FallsBackOnceIsValid(z, NEWFOUNDLAND_SHIFT, -150, -210);
    var q := NewfoundlandWindow(z, p);
    LostMidnightIsInWindow(z, p);
    PastTheNewfoundlandStop(z, p);
    EveryMidnightMatches(LostMidnight().slot);
    LosesBy(q, LostMidnight());
    MatchPastStop(q, LostMidnight().slot);
  }

  lemma PastTheNewfoundlandStop(z: Zone, p: Policy)
    requires FallsBackOnce(z, NEWFOUNDLAND_SHIFT, -150, -210)
    ensures var q, w := NewfoundlandWindow(z, p), LostMidnight().slot;
            !Lt(w, q.Start()) && w.y <= q.YearLimit() && WallOrdinal(w) > q.StopPos()
  {
    hide WallAt, CivilOf, FallsBackOnce, Query.Start, NewfoundlandWindow;
    NewfoundlandWalls(z, p);
  }

  lemma MatchPastStop(q: Query, w: Wall)
    requires q.Ok() && q.c.Matches(w) && !Lt(w, q.Start()) && w.y <= q.YearLimit() && WallOrdinal(w) > q.StopPos()
    ensures !RanOut(q)
  {
  }

  /** Such a zone exists, so there is a window whose answer without an error misses an occurrence. */
  lemma SomeAnswerIsNotWhole(p: Policy)
    ensures exists q: Query :: q.Ok() && q.p == p && q.from < q.to && LosesPastStop(q) && !RanOut(q)
  {
    hide LosesPastStop, RanOut, Valid, FallsBackOnce, Query.InWindow, Query.Reached;
    var z := FallsBackOnceExists(NEWFOUNDLAND_SHIFT, -150, -210);
    NewfoundlandMidnightIsLost(z, p);
    var q := NewfoundlandWindow(z, p);
    hide NewfoundlandWindow;
    assert q.Ok();
  }
}
