/** Cutting a window in two, and enumerating it with Next: when the halves make the whole. */
module Splits {
  import opened Calendar
  import opened Search
  import opened Zone
  import opened Iterate
  import opened Windows

  // ----- strictly rising listings

  lemma {:induction false} SameMembersSameListing(a: seq<Occurrence>, b: seq<Occurrence>)
    requires Rising(a) && Rising(b) && forall o :: o in a <==> o in b
    ensures a == b
  {
    assert b != [] ==> b[0] in b;
    if a != [] {
      assert a[0] in b && b != [];
      assert b[0] in a;
      assert a[0] == b[0];
      forall o ensures o in a[1..] <==> o in b[1..] {
        assert o in a[1..] <==> o in a && o != a[0];
        assert o in b[1..] <==> o in b && o != b[0];
      }
      SameMembersSameListing(a[1..], b[1..]);
      assert a == [a[0]] + a[1..] && b == [b[0]] + b[1..];
    }
  }

  lemma RisingHasNoRepeats(a: seq<Occurrence>, b: seq<Occurrence>, o: Occurrence)
    requires Rising(a + b)
    ensures o in a ==> o !in b
  {
    if o in a {
      var i :| 0 <= i < |a| && a[i] == o;
      forall j | 0 <= j < |b| ensures b[j] != o {
        assert KeyLess(KeyOf((a + b)[i]), KeyOf((a + b)[|a| + j]));
      }
    }
  }

  // ----- one cut

  /** At the cut b, the order by key and the order by instant agree on every emission up to the end. */
  ghost predicate OrdersAgree(z: Zone, p: Policy, c: Compiled, a: int, b: int, end: int)
    requires Valid(z) && c.Valid()
  {
    forall o :: Emits(z, p, c, o) && o.at * TICKS <= end ==>
      (KeyLess(CursorKey(z, b), KeyOf(o)) <==> KeyLess(CursorKey(z, a), KeyOf(o)) && b < o.at * TICKS)
  }

  lemma AgreeingCutJoins(z: Zone, p: Policy, c: Compiled, a: int, b: int, end: int,
      ab: seq<Occurrence>, bc: seq<Occurrence>, ac: seq<Occurrence>)
    requires Valid(z) && c.Valid() && a <= b <= end && OrdersAgree(z, p, c, a, b, end)
    requires Whole(Query(z, p, c, a, b), ab) && Whole(Query(z, p, c, b, end), bc) && Whole(Query(z, p, c, a, end), ac)
    ensures ac == ab + bc
  {
    hide CivilOf, MinuteNumber, WallOrdinal, Compiled.Matches, Regular, DateContract, Emits;
    var q1, q2 := Query(z, p, c, a, b), Query(z, p, c, b, end);
    forall i, j | 0 <= i < |ab| && 0 <= j < |bc| ensures KeyLess(KeyOf(ab[i]), KeyOf(bc[j])) {
      assert ab[i] in ab && bc[j] in bc;
      assert q1.InWindow(ab[i]) && q2.InWindow(bc[j]);
    }
    forall o ensures o in ab + bc <==> o in ac {
      assert o in ab + bc <==> o in ab || o in bc;
    }
    SameMembersSameListing(ab + bc, ac);
  }

  lemma JoiningCutAgrees(z: Zone, p: Policy, c: Compiled, a: int, b: int, end: int,
      ab: seq<Occurrence>, bc: seq<Occurrence>, ac: seq<Occurrence>)
    requires Valid(z) && c.Valid() && a <= b <= end && ac == ab + bc
    requires Whole(Query(z, p, c, a, b), ab) && Whole(Query(z, p, c, b, end), bc) && Whole(Query(z, p, c, a, end), ac)
    ensures OrdersAgree(z, p, c, a, b, end)
  {
    hide CivilOf, MinuteNumber, WallOrdinal, Compiled.Matches, Regular, DateContract, Emits;
    var q1, q2, q := Query(z, p, c, a, b), Query(z, p, c, b, end), Query(z, p, c, a, end);
    forall o | Emits(z, p, c, o) && o.at * TICKS <= end
      ensures KeyLess(CursorKey(z, b), KeyOf(o)) <==> KeyLess(CursorKey(z, a), KeyOf(o)) && b < o.at * TICKS
    {
      assert o in ac <==> o in ab || o in bc;
      assert q.InWindow(o) <==> o in ac;
      assert q2.InWindow(o) <==> o in bc;
      assert q1.InWindow(o) <==> o in ab;
      RisingHasNoRepeats(ab, bc, o);
    }
  }

  /** A window may be cut at b exactly when key order and instant order agree there. */
  lemma SplitIffOrdersAgree(z: Zone, p: Policy, c: Compiled, a: int, b: int, end: int,
      ab: seq<Occurrence>, bc: seq<Occurrence>, ac: seq<Occurrence>)
    requires Valid(z) && c.Valid() && a < b < end
    requires Whole(Query(z, p, c, a, b), ab) && Whole(Query(z, p, c, b, end), bc) && Whole(Query(z, p, c, a, end), ac)
    ensures ac == ab + bc <==> OrdersAgree(z, p, c, a, b, end)
  {
    hide Whole, OrdersAgree;
    if ac == ab + bc {
      JoiningCutAgrees(z, p, c, a, b, end, ab, bc, ac);
    }
    if OrdersAgree(z, p, c, a, b, end) {
      AgreeingCutJoins(z, p, c, a, b, end, ab, bc, ac);
    }
  }

  // ----- cuts that are always good

  /** Away from shifts a cursor's key orders emissions as its instant does. */
  lemma QuietKeyIsInstant(z: Zone, p: Policy, c: Compiled, u: int, o: Occurrence)
    requires Valid(z) && c.Valid() && Emits(z, p, c, o)
    requires forall m :: u / TICKS - 4320 <= m <= u / TICKS + 4320 ==> z.off(m) == z.off(u / TICKS)
    ensures KeyLess(CursorKey(z, u), KeyOf(o)) <==> u < o.at * TICKS
  {
    hide CivilOf, MinuteNumber, WallOrdinal, Compiled.Matches, EmissionsOf, DateContract;
    var l := MinuteNumber(o.slot);
    var e := Emission(o.at, o.skipped, o.reason);
    AboveCursor(z, u, o);
    LtMinutes(WallAt(z, u), o.slot);
    var m := OffsetOfEmission(z, p, l, e);
    if -2880 <= o.at - u / TICKS <= 2880 {
      assert z.off(m) == z.off(u / TICKS);
    }
  }

  /** No shift within three days of the cut or of the start: the cut is good. */
  lemma QuietCutAgrees(z: Zone, p: Policy, c: Compiled, a: int, b: int, end: int)
    requires Valid(z) && c.Valid() && a <= b
    requires forall m :: a / TICKS - 4320 <= m <= a / TICKS + 4320 ==> z.off(m) == z.off(a / TICKS)
    requires forall m :: b / TICKS - 4320 <= m <= b / TICKS + 4320 ==> z.off(m) == z.off(b / TICKS)
    ensures OrdersAgree(z, p, c, a, b, end)
  {
    hide CivilOf, MinuteNumber, WallOrdinal, Compiled.Matches, EmissionsOf, DateContract, Emits, Regular;
    forall o | Emits(z, p, c, o) && o.at * TICKS <= end
      ensures KeyLess(CursorKey(z, b), KeyOf(o)) <==> KeyLess(CursorKey(z, a), KeyOf(o)) && b < o.at * TICKS
    {
      QuietKeyIsInstant(z, p, c, a, o);
      QuietKeyIsInstant(z, p, c, b, o);
    }
  }

  /** In a zone without shifts every error free answer splits at every cut. */
  lemma ConstantZoneSplits(z: Zone, off: int, p: Policy, c: Compiled, a: int, b: int, end: int,
      ab: seq<Occurrence>, bc: seq<Occurrence>, ac: seq<Occurrence>)
    requires Valid(z) && Constant(z, off) && c.Valid() && a <= b <= end
    requires Answers(Query(z, p, c, a, b), ab) && Answers(Query(z, p, c, b, end), bc)
    requires Answers(Query(z, p, c, a, end), ac)
    ensures ac == ab + bc
  {
    hide Whole, OrdersAgree, Answers, LosesPastStop, Regular, DateContract;
    StopIsSafeWithoutShifts(Query(z, p, c, a, b), off);
    StopIsSafeWithoutShifts(Query(z, p, c, b, end), off);
    StopIsSafeWithoutShifts(Query(z, p, c, a, end), off);
    CompleteIffNothingPastStop(Query(z, p, c, a, b), ab);
    CompleteIffNothingPastStop(Query(z, p, c, b, end), bc);
    CompleteIffNothingPastStop(Query(z, p, c, a, end), ac);
    QuietCutAgrees(z, p, c, a, b, end);
    AgreeingCutJoins(z, p, c, a, b, end, ab, bc, ac);
  }

  // ----- exactly which cuts are good for every schedule

  /** Local time has passed everything at or before minute m and nothing after it, and no wall clock of a gap
      already jumped over has yet to land. */
  ghost predicate SteadyCut(z: Zone, m: int) {
    (forall k :: k <= m ==> Local(z, k) <= Local(z, m)) && (forall k :: m <= k ==> Local(z, m) <= Local(z, k))
    && forall t, l :: Gap(z, t, l) && t <= m ==> l - z.off(t - 1) <= m
  }

  lemma SteadyKeyIsInstant(z: Zone, p: Policy, c: Compiled, b: int, o: Occurrence)
    requires Valid(z) && c.Valid() && Emits(z, p, c, o) && SteadyCut(z, b / TICKS)
    ensures KeyLess(CursorKey(z, b), KeyOf(o)) <==> b < o.at * TICKS
  {
    hide CivilOf, MinuteNumber, WallOrdinal, Compiled.Matches, TableRow, DateContract, Regular;
    var l, m := MinuteNumber(o.slot), b / TICKS;
    var e := Emission(o.at, o.skipped, o.reason);
    AboveCursor(z, b, o);
    LtMinutes(WallAt(z, b), o.slot);
    if Exists(z, l) {
      RenderedRow(z, p, l, e);
    } else {
      var t := GapExists(z, l);
      GapRow(z, p, l, t);
      GapPlace(z, t, l);
      assert t <= m ==> Local(z, t) <= Local(z, m);
      assert m < t ==> Local(z, m) <= Local(z, t - 1);
    }
  }

  lemma SteadyCutAgrees(z: Zone, p: Policy, c: Compiled, a: int, b: int, end: int)
    requires Valid(z) && c.Valid() && a <= b && SteadyCut(z, b / TICKS)
    ensures OrdersAgree(z, p, c, a, b, end)
  {
    hide CivilOf, MinuteNumber, WallOrdinal, Compiled.Matches, Emits, DateContract, Regular;
    assert Local(z, a / TICKS) <= Local(z, b / TICKS);
    OrdinalEmbedsTime(WallAt(z, b), WallAt(z, a));
    forall o | Emits(z, p, c, o) && o.at * TICKS <= end
      ensures KeyLess(CursorKey(z, b), KeyOf(o)) <==> KeyLess(CursorKey(z, a), KeyOf(o)) && b < o.at * TICKS
    {
      SteadyKeyIsInstant(z, p, c, b, o);
    }
  }

  /** The every minute schedule emits what any instant renders. */
  lemma RenderedIsEmitted(z: Zone, p: Policy, m: int) returns (o: Occurrence)
    requires Valid(z)
    ensures Emits(z, p, EveryMinute(), o) && o.at == m && MinuteNumber(o.slot) == Local(z, m)
  {
    hide CivilOf, MinuteNumber, Compiled.Matches, DateContract, Regular;
    var l := Local(z, m);
    var es := EmissionsOf(z, p, l);
    assert Renders(z, m, l);
    var e := if es[0].at == m then es[0] else es[|es| - 1];
    o := Occurs(CivilOf(l), e);
    EveryMinuteMatches(CivilOf(l));
  }

  /** It also emits what a gap jumps over, at the instant the offset before the jump gives. */
  lemma JumpedIsEmitted(z: Zone, p: Policy, t: int, l: int) returns (o: Occurrence)
    requires Valid(z) && Gap(z, t, l)
    ensures Emits(z, p, EveryMinute(), o) && o.at == l - z.off(t - 1) && MinuteNumber(o.slot) == l
  {
    hide CivilOf, MinuteNumber, Compiled.Matches, DateContract, Regular;
    GapRow(z, p, l, t);
    var es := EmissionsOf(z, p, l);
    o := Occurs(CivilOf(l), es[0]);
    EveryMinuteMatches(CivilOf(l));
  }

  /** An emission on the far side of the cut by one order and on the near side by the other breaks it. */
  lemma TornBreaks(z: Zone, p: Policy, b: int, o: Occurrence)
    requires Valid(z) && Emits(z, p, EveryMinute(), o)
    requires KeyLess(CursorKey(z, b), KeyOf(o)) != (b < o.at * TICKS)
    ensures exists a, end :: a < b < end && !OrdersAgree(z, p, EveryMinute(), a, b, end)
  {
    hide CivilOf, MinuteNumber, WallOrdinal, Compiled.Matches, DateContract, TableRow;
    var end := if o.at * TICKS > b then o.at * TICKS else b + 1;
    var a := (b / TICKS - 5000) * TICKS;
    LandsNearby(z, p, MinuteNumber(o.slot), Emission(o.at, o.skipped, o.reason));
    AboveCursor(z, a, o);
    LtMinutes(WallAt(z, a), o.slot);
    assert b < o.at * TICKS ==> KeyLess(CursorKey(z, a), KeyOf(o));
    assert !OrdersAgree(z, p, EveryMinute(), a, b, end);
  }

  lemma UnsteadyBreaks(z: Zone, p: Policy, b: int)
    requires Valid(z) && !SteadyCut(z, b / TICKS)
    ensures exists a, end :: a < b < end && !OrdersAgree(z, p, EveryMinute(), a, b, end)
  {
    hide CivilOf, MinuteNumber, WallOrdinal, Compiled.Matches, DateContract, Regular, OrdersAgree, Emits;
    var m := b / TICKS;
    var o: Occurrence;
    if k :| k <= m && Local(z, k) > Local(z, m) {
      o := RenderedIsEmitted(z, p, k);
    } else if k :| m <= k && Local(z, m) > Local(z, k) {
      o := RenderedIsEmitted(z, p, k);
    } else {
      var t, l :| Gap(z, t, l) && t <= m && l - z.off(t - 1) > m;
      o := JumpedIsEmitted(z, p, t, l);
      assert Local(z, t) <= Local(z, m);
    }
    EmittedSlotIsReal(z, p, o);
    AboveCursor(z, b, o);
    LtMinutes(WallAt(z, b), o.slot);
    TornBreaks(z, p, b, o);
  }

  lemma EmittedSlotIsReal(z: Zone, p: Policy, o: Occurrence)
    requires Valid(z) && Emits(z, p, EveryMinute(), o)
    ensures Real(o.slot)
  {
  }

  /** Chopping a window in two is safe for every schedule, start and end exactly at a steady cut: outside doubled
      stretches, and outside the stretch after a gap in which its missing wall clocks land. */
  lemma CutIsSafeIff(z: Zone, p: Policy, b: int)
    requires Valid(z)
    ensures (forall c: Compiled, a, end :: c.Valid() && a < b < end ==> OrdersAgree(z, p, c, a, b, end))
       <==> SteadyCut(z, b / TICKS)
  {
    hide SteadyCut, OrdersAgree, Regular, DateContract, Compiled.Valid;
    if SteadyCut(z, b / TICKS) {
      forall c: Compiled, a, end | c.Valid() && a < b < end ensures OrdersAgree(z, p, c, a, b, end) {
        SteadyCutAgrees(z, p, c, a, b, end);
      }
    } else {
      UnsteadyBreaks(z, p, b);
      var a, end :| a < b < end && !OrdersAgree(z, p, EveryMinute(), a, b, end);
      var c := EveryMinute();
      assert c.Valid();
    }
  }

  // ----- cuts that are not

  /** "30 2 * * *" */
  function DailyHalfPastTwo(): (c: Compiled)
    ensures c.Valid()
  {
    Compiled([30], [2], UpFrom(1, 31), UpFrom(1, 12), UpFrom(0, 6), true, true)
  }

  lemma DailyHalfPastTwoMatches(w: Wall)
    requires Real(w) && w.h == 2 && w.mi == 30
    ensures DailyHalfPastTwo().Matches(w)
  {
    assert UpFrom(1, 12)[w.mo - 1] == w.mo;
  }

  lemma OsloMinutes()
    ensures MinuteNumber(Wall(2026, 10, 25, 2, 30)) == 1065474870
    ensures MinuteNumber(Wall(2026, 10, 25, 2, 45)) == 1065474885
    ensures MinuteNumber(Wall(2026, 10, 25, 2, 10)) == 1065474850
    ensures MinuteNumber(Wall(2026, 10, 24, 17, 0)) == 1065474300
  {
  }

  ghost predicate LostByCut(z: Zone, p: Policy, c: Compiled, a: int, b: int, end: int, o: Occurrence)
    requires Valid(z) && c.Valid()
  {
    Query(z, p, c, a, end).InWindow(o) && !Query(z, p, c, a, b).InWindow(o) && !Query(z, p, c, b, end).InWindow(o)
  }

  ghost predicate RepeatedByCut(z: Zone, p: Policy, c: Compiled, a: int, b: int, end: int, o: Occurrence)
    requires Valid(z) && c.Valid()
  {
    Query(z, p, c, a, b).InWindow(o) && Query(z, p, c, b, end).InWindow(o)
  }

  lemma BrokenCutDisagrees(z: Zone, p: Policy, c: Compiled, a: int, b: int, end: int, o: Occurrence)
    requires Valid(z) && c.Valid() && b <= end
    requires LostByCut(z, p, c, a, b, end, o) || RepeatedByCut(z, p, c, a, b, end, o)
    ensures !OrdersAgree(z, p, c, a, b, end)
  {
    hide Emits;
  }

  lemma OsloTwins(z: Zone, p: Policy, t: int)
    requires t == 1065474780 && FallsBackOnce(z, t, 120, 60) && Valid(z)
    ensures var w := Wall(2026, 10, 25, 2, 30);
            var twins := FallBackEmissions(t - 30, t + 30, p);
            Emits(z, p, DailyHalfPastTwo(), Occurs(w, twins[0])) && Emits(z, p, DailyHalfPastTwo(), Occurs(w, twins[1]))
  {
    hide CivilOf, MinuteNumber, Compiled.Matches, Regular, DateContract;
    OsloMinutes();
    var w := Wall(2026, 10, 25, 2, 30);
    DailyHalfPastTwoMatches(w);
    TwinsMakeTheRow(z, p, t - 30, t + 30, MinuteNumber(w));
    RowIsUnique(z, p, MinuteNumber(w), FallBackEmissions(t - 30, t + 30, p), EmissionsOf(z, p, MinuteNumber(w)));
  }

  lemma OsloWalls(z: Zone, t: int)
    requires t == 1065474780 && FallsBackOnce(z, t, 120, 60)
    ensures WallAt(z, (t - 15) * TICKS) == Wall(2026, 10, 25, 2, 45)
    ensures WallAt(z, (t + 10) * TICKS) == Wall(2026, 10, 25, 2, 10)
    ensures WallAt(z, (t - 600) * TICKS) == Wall(2026, 10, 24, 17, 0)
  {
    hide CivilOf, MinuteNumber;
    OsloMinutes();
    CivilOfInverse(Wall(2026, 10, 25, 2, 45));
    CivilOfInverse(Wall(2026, 10, 25, 2, 10));
    CivilOfInverse(Wall(2026, 10, 24, 17, 0));
  }

  /** Oslo, 2026-10-25, clocks back from 03:00 to 02:00 at 01:00 UTC, with a slot at the doubled 02:30. A
      cut at the first 02:45 loses its second instance; a cut at the second 02:10 lists its first twice. */
  lemma DoubledHourCannotBeCut(z: Zone, p: Policy, t: int)
    requires t == 1065474780 && FallsBackOnce(z, t, 120, 60) && Valid(z)
    ensures var w, c, twins := Wall(2026, 10, 25, 2, 30), DailyHalfPastTwo(), FallBackEmissions(t - 30, t + 30, p);
            LostByCut(z, p, c, (t - 600) * TICKS, (t - 15) * TICKS, (t + 600) * TICKS, Occurs(w, twins[1]))
            && RepeatedByCut(z, p, c, (t - 600) * TICKS, (t + 10) * TICKS, (t + 600) * TICKS, Occurs(w, twins[0]))
    ensures !OrdersAgree(z, p, DailyHalfPastTwo(), (t - 600) * TICKS, (t - 15) * TICKS, (t + 600) * TICKS)
    ensures !OrdersAgree(z, p, DailyHalfPastTwo(), (t - 600) * TICKS, (t + 10) * TICKS, (t + 600) * TICKS)
  {
    hide WallAt, MinuteNumber, Compiled.Matches, Regular, DateContract, Emits, OrdersAgree;
    OsloTwins(z, p, t);
    OsloWalls(z, t);
    var w, c, twins := Wall(2026, 10, 25, 2, 30), DailyHalfPastTwo(), FallBackEmissions(t - 30, t + 30, p);
    var from, end := (t - 600) * TICKS, (t + 600) * TICKS;
    BrokenCutDisagrees(z, p, c, from, (t - 15) * TICKS, end, Occurs(w, twins[1]));
    BrokenCutDisagrees(z, p, c, from, (t + 10) * TICKS, end, Occurs(w, twins[0]));
  }

  /** Such a zone exists, so some cut loses an occurrence of its window and some cut repeats one. */
  lemma SomeCutIsNotSafe(p: Policy)
    ensures exists z, c: Compiled, a, b, end, o: Occurrence ::
              Valid(z) && c.Valid() && a < b < end && LostByCut(z, p, c, a, b, end, o)
    ensures exists z, c: Compiled, a, b, end, o: Occurrence ::
              Valid(z) && c.Valid() && a < b < end && RepeatedByCut(z, p, c, a, b, end, o)
  {
    hide LostByCut, RepeatedByCut, Valid;
    var t := 1065474780;
    var z := FallsBackOnceExists(t, 120, 60);
    FallsBackOnceIsValid(z, t, 120, 60);
    DoubledHourCannotBeCut(z, p, t);
  }

  // ----- chaining Next

  /** Without shifts keys are instants, and an instant has one slot. */
  lemma ConstantKeys(z: Zone, off: int, p: Policy, c: Compiled, x: Occurrence, o: Occurrence)
    requires Valid(z) && Constant(z, off) && c.Valid() && Emits(z, p, c, x) && Emits(z, p, c, o)
    ensures KeyLess(KeyOf(x), KeyOf(o)) <==> x.at < o.at
    ensures x.at == o.at ==> x == o
  {
    hide CivilOf, MinuteNumber, WallOrdinal, Compiled.Matches, DateContract, EmissionsOf;
    var l, k := MinuteNumber(x.slot), MinuteNumber(o.slot);
    Slots(x, o);
    LtMinutes(x.slot, o.slot);
    var m := OffsetOfEmission(z, p, l, Emission(x.at, x.skipped, x.reason));
    var n := OffsetOfEmission(z, p, k, Emission(o.at, o.skipped, o.reason));
    RowRises(z, p, l);
  }

  ghost predicate EmittedIn(z: Zone, p: Policy, c: Compiled, from: int, to: int, o: Occurrence)
    requires Valid(z) && c.Valid()
  {
    Emits(z, p, c, o) && from < o.at * TICKS <= to
  }

  /** Nothing is emitted after b within the horizon and the supported era. */
  ghost predicate Stuck(z: Zone, p: Policy, c: Compiled, b: int)
    requires Valid(z) && c.Valid()
  {
    forall o :: Emits(z, p, c, o) && b < o.at * TICKS ==> !NextMayAnswer(b, o)
  }

  /** The chain stands at the start of the window and at each emission in it. */
  ghost predicate Station(z: Zone, p: Policy, c: Compiled, from: int, to: int, b: int)
    requires Valid(z) && c.Valid()
  {
    b == from || exists o :: EmittedIn(z, p, c, from, to, o) && b == o.at * TICKS
  }

  /** After some station the schedule has a gap longer than the horizon. */
  ghost predicate ChainBreaks(z: Zone, p: Policy, c: Compiled, from: int, to: int)
    requires Valid(z) && c.Valid()
  {
    exists b :: Station(z, p, c, from, to, b) && Stuck(z, p, c, b)
  }

  /** Without shifts, an emission after a cursor means there is a least one, no later than it. */
  lemma LeastExists(z: Zone, off: int, p: Policy, c: Compiled, u: int, o: Occurrence) returns (least: Occurrence)
    requires Valid(z) && Constant(z, off) && c.Valid() && Emits(z, p, c, o) && u < o.at * TICKS
    ensures LeastAbove(z, p, c, CursorKey(z, u), least) && least.at <= o.at
  {
    hide CivilOf, MinuteNumber, WallOrdinal, Compiled.Matches, Regular, DateContract, Emits;
    least := EarliestAfter(z, p, c, u, o);
    QuietKeyIsInstant(z, p, c, u, least);
    forall x | Emits(z, p, c, x) && KeyLess(CursorKey(z, u), KeyOf(x)) ensures !KeyLess(KeyOf(x), KeyOf(least)) {
      QuietKeyIsInstant(z, p, c, u, x);
      ConstantKeys(z, off, p, c, x, least);
    }
  }

  lemma {:induction false} EarliestAfter(z: Zone, p: Policy, c: Compiled, u: int, o: Occurrence) returns (e: Occurrence)
    requires Valid(z) && c.Valid() && Emits(z, p, c, o) && u < o.at * TICKS
    ensures Emits(z, p, c, e) && u < e.at * TICKS && e.at <= o.at
    ensures forall x :: Emits(z, p, c, x) && u < x.at * TICKS ==> e.at <= x.at
    decreases o.at - u / TICKS
  {
    hide Emits, Regular, DateContract;
    e := o;
    if x :| Emits(z, p, c, x) && u < x.at * TICKS && x.at < o.at {
      e := EarliestAfter(z, p, c, u, x);
    }
  }

  /** Next fails exactly where the schedule is stuck. */
  lemma NextFailsIffStuck(z: Zone, off: int, p: Policy, c: Compiled, u: int)
    requires Valid(z) && Constant(z, off) && c.Valid()
    ensures (forall x :: LeastAbove(z, p, c, CursorKey(z, u), x) ==> !NextMayAnswer(u, x)) <==> Stuck(z, p, c, u)
  {
    hide CivilOf, MinuteNumber, WallOrdinal, Compiled.Matches, Regular, DateContract, Emits;
    if forall x :: LeastAbove(z, p, c, CursorKey(z, u), x) ==> !NextMayAnswer(u, x) {
      forall o | Emits(z, p, c, o) && u < o.at * TICKS ensures !NextMayAnswer(u, o) {
        var least := LeastExists(z, off, p, c, u, o);
        ConstantKeys(z, off, p, c, o, least);
        EmittedIsReal(z, p, c, o);
        EmittedIsReal(z, p, c, least);
        Slots(o, least);
        Slots(least, o);
      }
    }
    forall x | LeastAbove(z, p, c, CursorKey(z, u), x) ensures u < x.at * TICKS {
      QuietKeyIsInstant(z, p, c, u, x);
    }
  }

  lemma EmittedIsReal(z: Zone, p: Policy, c: Compiled, o: Occurrence)
    requires Valid(z) && c.Valid() && Emits(z, p, c, o)
    ensures Real(o.slot)
  {
  }

  /** One link of the chain: Next answers the first emission after the cursor, or the schedule is stuck. */
  method NextInstant(z: Zone, ghost off: int, p: Policy, c: Compiled, u: int) returns (o: Occurrence, ok: bool)
    requires Valid(z) && Constant(z, off) && c.Valid()
    ensures ok <==> !Stuck(z, p, c, u)
    ensures ok ==> Emits(z, p, c, o) && u < o.at * TICKS
    ensures ok ==> forall x :: Emits(z, p, c, x) && u < x.at * TICKS ==> o.at <= x.at && (x.at == o.at ==> x == o)
  {
    hide CivilOf, MinuteNumber, WallOrdinal, Compiled.Matches, Regular, DateContract, Emits;
    ghost var examined;
    o, ok, examined := CronNext(z, p, c, u);
    NextFailsIffStuck(z, off, p, c, u);
    if ok {
      QuietKeyIsInstant(z, p, c, u, o);
      forall x | Emits(z, p, c, x) && u < x.at * TICKS ensures o.at <= x.at && (x.at == o.at ==> x == o) {
        QuietKeyIsInstant(z, p, c, u, x);
        ConstantKeys(z, off, p, c, x, o);
      }
    }
  }

  /** Feed each result's instant back into Next until it passes the end: it enumerates the whole window, and
      stops short exactly when a gap of the schedule exceeds the horizon. */
  method ChainNext(z: Zone, ghost off: int, p: Policy, c: Compiled, from: int, to: int)
    returns (out: seq<Occurrence>, stopped: bool)
    requires Valid(z) && Constant(z, off) && c.Valid() && from <= to
    ensures stopped <==> ChainBreaks(z, p, c, from, to)
    ensures !stopped ==> Whole(Query(z, p, c, from, to), out)
  {
    hide CivilOf, MinuteNumber, WallOrdinal, Compiled.Matches, Regular, DateContract, Emits, Stuck;
    out := [];
    var cur := from;
    while true
      invariant from <= cur <= to && Station(z, p, c, from, to, cur)
      invariant Rising(out)
      invariant forall o :: o in out <==> EmittedIn(z, p, c, from, cur, o)
      invariant forall b :: Station(z, p, c, from, to, b) && b < cur ==> !Stuck(z, p, c, b)
      decreases -cur + to
    {
      var o, ok := NextInstant(z, off, p, c, cur);
      if !ok {
        return out, true;
      }
      if o.at * TICKS > to {
        forall x | Emits(z, p, c, x) ensures KeyLess(CursorKey(z, from), KeyOf(x)) <==> from < x.at * TICKS {
          QuietKeyIsInstant(z, p, c, from, x);
        }
        forall b | Station(z, p, c, from, to, b) ensures b <= cur {
        }
        return out, false;
      }
      forall x <- out ensures KeyLess(KeyOf(x), KeyOf(o)) {
        ConstantKeys(z, off, p, c, x, o);
      }
      forall x ensures x in out + [o] <==> EmittedIn(z, p, c, from, o.at * TICKS, x) {
        assert x in out + [o] <==> x in out || x == o;
      }
      forall b | Station(z, p, c, from, to, b) && b < o.at * TICKS ensures b <= cur {
      }
      assert EmittedIn(z, p, c, from, to, o);
      out := out + [o];
      cur := o.at * TICKS;
    }
  }

  /** Without shifts, Between is the chain of Nexts for every schedule that has a match past the stop position
      and no gap beyond the horizon. */
  method BetweenIsTheChain(z: Zone, ghost off: int, p: Policy, c: Compiled, from: int, to: int)
    returns (out: seq<Occurrence>, chained: seq<Occurrence>, noOccurrence: bool, stopped: bool)
    requires Valid(z) && Constant(z, off) && c.Valid() && from < to && WallAt(z, from).y >= 0
    ensures noOccurrence <==> RanOut(Query(z, p, c, from, to))
    ensures stopped <==> ChainBreaks(z, p, c, from, to)
    ensures !noOccurrence && !stopped ==> out == chained && Whole(Query(z, p, c, from, to), out)
  {
    hide CivilOf, MinuteNumber, WallOrdinal, Compiled.Matches, Regular, DateContract, Emits, RanOut, LosesPastStop;
    hide ChainBreaks;
    out, noOccurrence := Between(z, p, c, from, to);
    chained, stopped := ChainNext(z, off, p, c, from, to);
    if !noOccurrence && !stopped {
      StopIsSafeWithoutShifts(Query(z, p, c, from, to), off);
      CompleteIffNothingPastStop(Query(z, p, c, from, to), out);
      SameMembersSameListing(out, chained);
    }
  }
}
