/** Time zones and the DST classification of internal/cronx/iter.go. Instants are whole UTC minutes
    counted from 0001-01-01 00:00, wall clocks the minutes of local time counted from the same date. */
module Zone {
  import opened Calendar

  /** off(m) is the offset in force during UTC minute m; date(l) is the instant the time package
      answers when asked for the wall clock minute l. */
  datatype Zone = Zone(off: int -> int, date: int -> int)

  function Local(z: Zone, m: int): int {
    m + z.off(m)
  }

  predicate Renders(z: Zone, m: int, l: int) {
    Local(z, m) == l
  }

  /** The clocks jump over wall minute l at instant t. */
  predicate Gap(z: Zone, t: int, l: int) {
    Local(z, t - 1) < l < Local(z, t)
  }

  ghost predicate Exists(z: Zone, l: int) {
    exists m :: Renders(z, m, l)
  }

  // ----- what is assumed of a zone

  predicate OneShift(z: Zone, a: int, b: int, c: int) {
    a <= b <= c <= a + 2880 ==> z.off(a) == z.off(b) || z.off(b) == z.off(c)
  }

  predicate ShiftSize(s: int) {
    s == -60 || s == -30 || 0 <= s < 1380
  }

  /** Offsets stay within sixteen hours, change at most once in any two days, and change by a gap
      under 23 hours or by a fall back of 30 or 60 minutes. */
  ghost predicate Regular(z: Zone) {
    (forall m :: -960 <= z.off(m) <= 960)
    && (forall a, b, c :: OneShift(z, a, b, c))
    && (forall m :: ShiftSize(z.off(m) - z.off(m - 1)))
  }

  /** What the time package promises: a wall clock that exists is rendered by the answer, and one that
      does not is resolved through one of the two offsets around the jump, unspecified which. */
  ghost predicate DateContract(z: Zone) {
    (forall l :: Exists(z, l) ==> Renders(z, z.date(l), l))
    && (forall l, t :: Gap(z, t, l) ==> z.date(l) == l - z.off(t - 1) || z.date(l) == l - z.off(t))
  }

  ghost predicate Valid(z: Zone) {
    Regular(z) && DateContract(z)
  }

  // ----- emissions

  datatype SpringForward = Skip | Shift
  datatype FallBack = First | Both
  datatype Policy = Policy(springForward: SpringForward, fallBack: FallBack)

  datatype SkipReason = NoReason | Nonexistent | Duplicate
  datatype Emission = Emission(at: int, skipped: bool, reason: SkipReason)

  function FallBackEmissions(first: int, second: int, p: Policy): seq<Emission> {
    if p.fallBack.Both? then [Emission(first, false, NoReason), Emission(second, false, NoReason)]
    else [Emission(first, false, NoReason), Emission(second, true, Duplicate)]
  }

  function GapEmissions(at: int, p: Policy): seq<Emission> {
    if p.springForward.Shift? then [Emission(at, false, NoReason)]
    else [Emission(at, true, Nonexistent)]
  }

  /** The documented table, read off the zone alone: every instant rendering the wall clock, earliest
      first, or the one instant the wall clock names under the offset before the jump. */
  ghost predicate TableRow(z: Zone, p: Policy, l: int, es: seq<Emission>) {
    if !Exists(z, l) then
      exists t :: Gap(z, t, l) && es == GapEmissions(l - z.off(t - 1), p)
    else
      (|es| == 1 && es[0] == Emission(es[0].at, false, NoReason) && Once(z, l, es[0].at))
      || (|es| == 2 && es == FallBackEmissions(es[0].at, es[1].at, p) && Twice(z, l, es[0].at, es[1].at))
  }

  ghost predicate Once(z: Zone, l: int, a: int) {
    forall m :: Renders(z, m, l) <==> m == a
  }

  ghost predicate Twice(z: Zone, l: int, a: int, b: int) {
    a < b && forall m :: Renders(z, m, l) <==> m == a || m == b
  }

  // ----- offsets inside two days

  lemma {:induction false} FindShift(z: Zone, a: int, b: int) returns (t: int)
    requires Regular(z) && a < b && z.off(a) != z.off(b)
    ensures a < t <= b && z.off(t - 1) != z.off(t)
    decreases b - a
  {
    if z.off(b - 1) != z.off(b) {
      t := b;
    } else {
      t := FindShift(z, a, b - 1);
    }
  }

  /** Within two days the offset differs by at most one shift, at one instant. */
  lemma ShiftWithin(z: Zone, a: int, b: int)
    requires Regular(z) && a <= b <= a + 2880
    ensures ShiftSize(z.off(b) - z.off(a))
  {
    if z.off(a) != z.off(b) {
      var t := FindShift(z, a, b);
      assert OneShift(z, a, t - 1, t) && OneShift(z, t - 1, t, b);
    }
  }

  lemma SteadyBefore(z: Zone, m: int, t: int)
    requires Regular(z) && z.off(t - 1) != z.off(t) && t - 2880 <= m < t
    ensures z.off(m) == z.off(t - 1)
  {
    assert OneShift(z, m, t - 1, t);
  }

  lemma SteadyAfter(z: Zone, t: int, m: int)
    requires Regular(z) && z.off(t - 1) != z.off(t) && t <= m < t + 2880
    ensures z.off(m) == z.off(t)
  {
    assert OneShift(z, t - 1, t, m);
  }

  /** Two instants share a wall clock only half an hour or an hour apart. */
  lemma TwinDistance(z: Zone, m1: int, m2: int, l: int)
    requires Regular(z) && Renders(z, m1, l) && Renders(z, m2, l) && m1 < m2
    ensures m2 - m1 == 30 || m2 - m1 == 60
  {
    ShiftWithin(z, m1, m2);
  }

  lemma NoTriplets(z: Zone, m1: int, m2: int, m3: int, l: int)
    requires Regular(z) && m1 < m2 < m3 && Renders(z, m1, l) && Renders(z, m2, l)
    ensures !Renders(z, m3, l)
  {
    if Renders(z, m3, l) {
      TwinDistance(z, m1, m3, l);
      TwinDistance(z, m2, m3, l);
      var _ := OneShift(z, m1, m2, m3);
    }
  }

  lemma {:induction false} Crossing(z: Zone, a: int, b: int, l: int) returns (t: int)
    requires a < b && Local(z, a) < l < Local(z, b) && !Exists(z, l)
    ensures a < t <= b && Gap(z, t, l)
    decreases b - a
  {
    assert !Renders(z, b - 1, l);
    if Local(z, b - 1) < l {
      t := b;
    } else {
      t := Crossing(z, a, b - 1, l);
    }
  }

  /** A wall clock no instant renders is jumped over. */
  lemma GapExists(z: Zone, l: int) returns (t: int)
    requires Regular(z) && !Exists(z, l)
    ensures Gap(z, t, l)
  {
    t := Crossing(z, l - 961, l + 961, l);
  }

  lemma GapPlace(z: Zone, t: int, l: int)
    requires Regular(z) && Gap(z, t, l)
    ensures z.off(t - 1) < z.off(t)
    ensures t <= l - z.off(t - 1) && l - z.off(t) < t
    ensures z.off(l - z.off(t - 1)) == z.off(t) && z.off(l - z.off(t)) == z.off(t - 1)
  {
    ShiftWithin(z, t - 1, t);
    SteadyAfter(z, t, l - z.off(t - 1));
    SteadyBefore(z, l - z.off(t), t);
  }

  /** It is jumped over once, and then nothing renders it. */
  lemma GapUnique(z: Zone, t: int, u: int, l: int)
    requires Regular(z) && Gap(z, t, l) && Gap(z, u, l)
    ensures t == u
  {
    GapPlace(z, t, l);
    GapPlace(z, u, l);
    if t < u {
      SteadyAfter(z, t, u);
      SteadyBefore(z, t, u);
    } else if u < t {
      SteadyAfter(z, u, t);
      SteadyBefore(z, u, t);
    }
  }

  lemma GapRendersNothing(z: Zone, t: int, m: int, l: int)
    requires Regular(z) && Gap(z, t, l)
    ensures !Renders(z, m, l)
  {
    GapPlace(z, t, l);
    if Renders(z, m, l) {
      if m < t {
        SteadyBefore(z, m, t);
      } else {
        SteadyAfter(z, t, m);
      }
    }
  }

  // ----- the classification

  /** Two wall clocks show the same hour and minute exactly when they are whole days apart. */
  lemma SameClock(a: int, b: int)
    ensures CivilOf(a).h == CivilOf(b).h && CivilOf(a).mi == CivilOf(b).mi <==> (a - b) % 1440 == 0
  {
    hide CivilOf, MinuteNumber;
    ClockOf(a);
    ClockOf(b);
    SameRemainder(a, b);
  }

  lemma SameRemainder(a: int, b: int)
    ensures a % 1440 == b % 1440 <==> (a - b) % 1440 == 0
  {
  }

  lemma ClockOf(a: int)
    ensures CivilOf(a).h * 60 + CivilOf(a).mi == a % 1440
  {
  }

  /** Reading a neighbouring instant's clock finds the twin, and only the twin. */
  lemma NeighbourShowsTwin(z: Zone, t: int, alt: int, l: int)
    requires Regular(z) && Renders(z, t, l)
    requires alt == t - 60 || alt == t + 60 || alt == t - 30 || alt == t + 30
    ensures (Local(z, alt) - l) % 1440 == 0 <==> Renders(z, alt, l)
  {
    if alt < t {
      ShiftWithin(z, alt, t);
    } else {
      ShiftWithin(z, t, alt);
    }
  }

  /** In a gap the answer of the time package shows another clock, before the wall asked for exactly
      when it used the offset after the jump. */
  lemma GapReadback(z: Zone, t: int, l: int)
    requires Valid(z) && Gap(z, t, l)
    ensures (Local(z, z.date(l)) - l) % 1440 != 0
    ensures Local(z, z.date(l)) >= l ==> z.date(l) == l - z.off(t - 1)
    ensures Local(z, z.date(l)) < l ==> z.off(z.date(l)) == z.off(t - 1)
  {
    GapPlace(z, t, l);
    ShiftWithin(z, t - 1, t);
  }

  lemma TwinsMakeTheRow(z: Zone, p: Policy, first: int, second: int, l: int)
    requires Regular(z) && Renders(z, first, l) && Renders(z, second, l) && first < second
    ensures TableRow(z, p, l, FallBackEmissions(first, second, p))
  {
    forall m | Renders(z, m, l) ensures m == first || m == second {
      if m < first {
        NoTriplets(z, m, first, second, l);
      } else if first < m < second {
        NoTriplets(z, first, m, second, l);
      } else if second < m {
        NoTriplets(z, first, second, m, l);
      }
    }
  }

  /** The same table, mark by mark: what the policy makes real and what it skips, and why. */
  ghost predicate Marked(z: Zone, p: Policy, l: int, es: seq<Emission>) {
    (forall t :: Gap(z, t, l) ==> MarkedInGap(l - z.off(t - 1), p, es))
    && (forall a, b :: Renders(z, a, l) && Renders(z, b, l) && a < b ==> MarkedTwins(a, b, p, es))
    && (forall a :: Once(z, l, a) ==> es == [Emission(a, false, NoReason)])
  }

  predicate MarkedInGap(at: int, p: Policy, es: seq<Emission>) {
    |es| == 1 && es[0].at == at && (es[0].skipped <==> p.springForward == Skip)
    && es[0].reason == (if p.springForward == Skip then Nonexistent else NoReason)
  }

  predicate MarkedTwins(a: int, b: int, p: Policy, es: seq<Emission>) {
    |es| == 2 && es[0].at == a && es[1].at == b && !es[0].skipped && es[0].reason == NoReason
    && (es[1].skipped <==> p.fallBack == First)
    && es[1].reason == (if p.fallBack == First then Duplicate else NoReason)
  }

  /** In a gap one emission, skipped as nonexistent under Skip and real under Shift; of two twins the first is
      real and the second skipped as a duplicate under First and real under Both; a wall clock that happens
      once is never skipped. */
  lemma RowIsMarked(z: Zone, p: Policy, l: int, es: seq<Emission>)
    requires Regular(z) && TableRow(z, p, l, es)
    ensures Marked(z, p, l, es)
  {
    forall t | Gap(z, t, l) ensures MarkedInGap(l - z.off(t - 1), p, es) {
      GapRowIsMarked(z, p, l, es, t);
    }
    forall a, b | Renders(z, a, l) && Renders(z, b, l) && a < b ensures MarkedTwins(a, b, p, es) {
      TwinsMakeTheRow(z, p, a, b, l);
      RowIsUnique(z, p, l, es, FallBackEmissions(a, b, p));
    }
    forall a | Once(z, l, a) ensures es == [Emission(a, false, NoReason)] {
      OnceRowIsReal(z, p, l, es, a);
    }
  }

  lemma GapRowIsMarked(z: Zone, p: Policy, l: int, es: seq<Emission>, t: int)
    requires Regular(z) && TableRow(z, p, l, es) && Gap(z, t, l)
    ensures MarkedInGap(l - z.off(t - 1), p, es)
  {
    forall m ensures !Renders(z, m, l) {
      GapRendersNothing(z, t, m, l);
    }
    var u :| Gap(z, u, l) && es == GapEmissions(l - z.off(u - 1), p);
    GapUnique(z, t, u, l);
  }

  lemma OnceRowIsReal(z: Zone, p: Policy, l: int, es: seq<Emission>, a: int)
    requires TableRow(z, p, l, es) && Once(z, l, a)
    ensures es == [Emission(a, false, NoReason)]
  {
    hide FallBackEmissions, Gap;
    assert Renders(z, a, l);
    forall x, y ensures !Twice(z, l, x, y) {
      assert (Renders(z, x, l) <==> x == a) && (Renders(z, y, l) <==> y == a);
    }
    assert Renders(z, es[0].at, l);
  }

  method ClassifyEmissions(w: Wall, z: Zone, p: Policy) returns (es: seq<Emission>)
    requires Real(w) && Valid(z)
    ensures TableRow(z, p, MinuteNumber(w), es) && Marked(z, p, MinuteNumber(w), es)
  {
    es := EmissionsAround(w, z, p);
    RowIsMarked(z, p, MinuteNumber(w), es);
  }

  /** The first half of the classification: a wall clock that reads back as another one lies in a gap. */
  method EmissionsAround(w: Wall, z: Zone, p: Policy) returns (es: seq<Emission>)
    requires Real(w) && Valid(z)
    ensures TableRow(z, p, MinuteNumber(w), es)
  {
    hide CivilOf, MinuteNumber;
    var l := MinuteNumber(w);
    CivilOfInverse(w);
    var t := z.date(l);
    var shown := CivilOf(Local(z, t));
    SameClock(Local(z, t), l);
    if shown.h != w.h || shown.mi != w.mi {
      assert !Exists(z, l);
      ghost var jump := GapExists(z, l);
      GapReadback(z, jump, l);
      OrdinalEmbedsTime(shown, w);
      var preJump := if WallOrdinal(shown) >= WallOrdinal(w) then l - t else z.off(t);
      return GapEmissions(l - preJump, p);
    }
    if !Exists(z, l) {
      ghost var jump := GapExists(z, l);
      GapReadback(z, jump, l);
    }
    es := EmissionsAt(w, z, p, t);
  }

  /** The second half of the classification: the wall clock exists at t, scan for its twin. */
  method EmissionsAt(w: Wall, z: Zone, p: Policy, t: int) returns (es: seq<Emission>)
    requires Real(w) && Regular(z) && Renders(z, t, MinuteNumber(w))
    ensures TableRow(z, p, MinuteNumber(w), es)
  {
    hide CivilOf, MinuteNumber;
    var l := MinuteNumber(w);
    CivilOfInverse(w);
    var deltas := [60, 30];
    for i := 0 to |deltas|
      invariant forall k :: 0 <= k < i ==> !Renders(z, t - deltas[k], l) && !Renders(z, t + deltas[k], l)
    {
      var alt := t - deltas[i];
      var before := CivilOf(Local(z, alt));
      SameClock(Local(z, alt), l);
      NeighbourShowsTwin(z, t, alt, l);
      if before.h == w.h && before.mi == w.mi {
        TwinsMakeTheRow(z, p, alt, t, l);
        return FallBackEmissions(alt, t, p);
      }
      alt := t + deltas[i];
      var after := CivilOf(Local(z, alt));
      SameClock(Local(z, alt), l);
      NeighbourShowsTwin(z, t, alt, l);
      if after.h == w.h && after.mi == w.mi {
        TwinsMakeTheRow(z, p, t, alt, l);
        return FallBackEmissions(t, alt, p);
      }
    }
    assert deltas[0] == 60 && deltas[1] == 30;
    assert !Renders(z, t - 60, l) && !Renders(z, t + 60, l) && !Renders(z, t - 30, l) && !Renders(z, t + 30, l);
    forall m | Renders(z, m, l) ensures m == t {
      if m < t {
        TwinDistance(z, m, t, l);
      } else if t < m {
        TwinDistance(z, t, m, l);
      }
    }
    return [Emission(t, false, NoReason)];
  }

  /** The row is determined by the zone: whichever offset the time package resolves a gap through, and
      whichever of two twins it lands on, the emissions are the same. */
  lemma RowIsUnique(z: Zone, p: Policy, l: int, es: seq<Emission>, fs: seq<Emission>)
    requires Regular(z) && TableRow(z, p, l, es) && TableRow(z, p, l, fs)
    ensures es == fs
  {
    if !Exists(z, l) {
      hide Regular, Gap;
      var t :| Gap(z, t, l) && es == GapEmissions(l - z.off(t - 1), p);
      var u :| Gap(z, u, l) && fs == GapEmissions(l - z.off(u - 1), p);
      GapUnique(z, t, u, l);
    } else {
      RenderedRowIsUnique(z, p, l, es, fs);
    }
  }

  lemma RenderedRowIsUnique(z: Zone, p: Policy, l: int, es: seq<Emission>, fs: seq<Emission>)
    requires Exists(z, l) && TableRow(z, p, l, es) && TableRow(z, p, l, fs)
    ensures es == fs
  {
    hide FallBackEmissions, Renders, Gap;
    assert Renders(z, es[0].at, l) && Renders(z, fs[0].at, l);
    assert |es| == 2 ==> Renders(z, es[1].at, l);
    assert |fs| == 2 ==> Renders(z, fs[1].at, l);
  }

  lemma RowExists(z: Zone, p: Policy, l: int) returns (es: seq<Emission>)
    requires Regular(z)
    ensures TableRow(z, p, l, es)
  {
    if !Exists(z, l) {
      var t := GapExists(z, l);
      es := GapEmissions(l - z.off(t - 1), p);
    } else {
      var m :| Renders(z, m, l);
      if n :| Renders(z, n, l) && n != m {
        var first, second := if m < n then m else n, if m < n then n else m;
        TwinsMakeTheRow(z, p, first, second, l);
        es := FallBackEmissions(first, second, p);
      } else {
        es := [Emission(m, false, NoReason)];
      }
    }
  }

  ghost function EmissionsOf(z: Zone, p: Policy, l: int): (es: seq<Emission>)
    requires Regular(z)
    ensures TableRow(z, p, l, es)
  {
    assert exists es :: TableRow(z, p, l, es) by {
      var fs := RowExists(z, p, l);
    }
    var es :| TableRow(z, p, l, es);
    es
  }

  lemma GapRow(z: Zone, p: Policy, l: int, t: int)
    requires Regular(z) && Gap(z, t, l)
    ensures EmissionsOf(z, p, l) == GapEmissions(l - z.off(t - 1), p)
  {
    var es := EmissionsOf(z, p, l);
    assert !Exists(z, l) by {
      forall m ensures !Renders(z, m, l) { GapRendersNothing(z, t, m, l); }
    }
    var u :| Gap(z, u, l) && es == GapEmissions(l - z.off(u - 1), p);
    GapUnique(z, t, u, l);
  }

  lemma RenderedRow(z: Zone, p: Policy, l: int, e: Emission)
    requires Regular(z) && Exists(z, l) && e in EmissionsOf(z, p, l)
    ensures Renders(z, e.at, l)
  {
  }

  /** Every emission uses an offset in force at, or just before, its instant. */
  lemma OffsetOfEmission(z: Zone, p: Policy, l: int, e: Emission) returns (m: int)
    requires Regular(z) && e in EmissionsOf(z, p, l)
    ensures e.at == l - z.off(m) && e.at - 1440 <= m <= e.at
  {
    hide TableRow;
    if !Exists(z, l) {
      var t := GapExists(z, l);
      GapRow(z, p, l, t);
      GapPlace(z, t, l);
      ShiftWithin(z, t - 1, t);
      m := t - 1;
    } else {
      RenderedRow(z, p, l, e);
      m := e.at;
    }
  }

  /** Around any instant the offset is a step: one value, then at most one other. */
  lemma StepAround(z: Zone, l: int) returns (t: int)
    requires Regular(z)
    ensures forall k :: l - 961 <= k <= l + 961 ==> z.off(k) == if k < t then z.off(l - 961) else z.off(l + 961)
    ensures ShiftSize(z.off(l + 961) - z.off(l - 961))
  {
    ShiftWithin(z, l - 961, l + 961);
    t := l - 961;
    if z.off(l - 961) != z.off(l + 961) {
      t := FindShift(z, l - 961, l + 961);
    }
    forall k | l - 961 <= k <= l + 961 ensures z.off(k) == if k < t then z.off(l - 961) else z.off(l + 961) {
      assert OneShift(z, l - 961, k, l + 961);
      if z.off(l - 961) != z.off(l + 961) {
        if k < t {
          SteadyBefore(z, k, t);
          SteadyBefore(z, l - 961, t);
        } else {
          SteadyAfter(z, t, k);
          SteadyAfter(z, t, l + 961);
        }
      }
    }
  }

  lemma LookupTwiceRenders(z: Zone, l: int, m: int)
    requires Regular(z) && Renders(z, m, l)
    ensures Renders(z, l - z.off(l - z.off(l)), l)
  {
    var t := StepAround(z, l);
    var utc := l - z.off(l);
    var answer := l - z.off(utc);
    assert z.off(utc) == if utc < t then z.off(l - 961) else z.off(l + 961);
    assert z.off(answer) == if answer < t then z.off(l - 961) else z.off(l + 961);
  }

  lemma LookupTwiceInGap(z: Zone, l: int, t: int)
    requires Regular(z) && Gap(z, t, l)
    ensures z.off(l - z.off(l)) == z.off(t - 1) || z.off(l - z.off(l)) == z.off(t)
  {
    GapPlace(z, t, l);
    var utc := l - z.off(l);
    if utc < t { SteadyBefore(z, utc, t); } else { SteadyAfter(z, t, utc); }
  }

  /** Looking the offset up twice, first at the wall clock read as UTC and then at the instant that
      gives, keeps the promise in every regular zone: the assumption on date can be met. */
  lemma LookupTwiceKeepsThePromise(z: Zone)
    requires Regular(z) && forall l :: z.date(l) == l - z.off(l - z.off(l))
    ensures DateContract(z)
  {
    hide Regular;
    forall l | Exists(z, l) ensures Renders(z, z.date(l), l) {
      var m :| Renders(z, m, l);
      LookupTwiceRenders(z, l, m);
    }
    forall l, t | Gap(z, t, l) ensures z.date(l) == l - z.off(t - 1) || z.date(l) == l - z.off(t) {
      LookupTwiceInGap(z, l, t);
    }
  }
}
