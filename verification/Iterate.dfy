/** Between, Next and Prev of internal/cronx/iter.go over the emissions of a schedule in a zone. */
module Iterate {
  import opened Calendar
  import opened Options
  import opened Search
  import opened Zone

  // Cursors are nanoseconds; emissions fall on whole minutes.
  const TICKS := 60_000_000_000
  const HORIZON := 4 * 366 * 24 * 60 * TICKS

  // ----- keys

  datatype Key = Key(pos: int, at: int)

  predicate KeyLess(k: Key, o: Key) {
    if k.pos != o.pos then k.pos < o.pos else k.at < o.at
  }

  /** slot is the matched tuple, kept so that the order can be stated. */
  datatype Occurrence = Occurrence(slot: Wall, at: int, skipped: bool, reason: SkipReason)

  function KeyOf(o: Occurrence): Key {
    Key(WallOrdinal(o.slot), o.at * TICKS)
  }

  function WallAt(z: Zone, u: int): Wall {
    CivilOf(Local(z, u / TICKS))
  }

  function CursorKey(z: Zone, u: int): Key {
    Key(WallOrdinal(WallAt(z, u)), u)
  }

  predicate Rising(out: seq<Occurrence>) {
    forall i, j :: 0 <= i < j < |out| ==> KeyLess(KeyOf(out[i]), KeyOf(out[j]))
  }

  function Occurs(w: Wall, e: Emission): Occurrence {
    Occurrence(w, e.at, e.skipped, e.reason)
  }

  /** The schedule emits o: its tuple matches, and the zone's table row for that wall clock holds it. */
  ghost predicate Emits(z: Zone, p: Policy, c: Compiled, o: Occurrence)
    requires Regular(z) && c.Valid()
  {
    Real(o.slot) && c.Matches(o.slot)
    && Emission(o.at, o.skipped, o.reason) in EmissionsOf(z, p, MinuteNumber(o.slot))
  }

  // ----- one window

  datatype Query = Query(z: Zone, p: Policy, c: Compiled, from: int, to: int) {
    ghost predicate Ok() {
      Valid(z) && c.Valid()
    }

    function Start(): Wall {
      WallAt(z, from)
    }

    function YearLimit(): int {
      if Start().y + 6 <= 9999 then Start().y + 6 else 9999
    }

    function StopPos(): int {
      WallOrdinal(WallAt(z, to)) + 16 * 60
    }

    /** In the window: key above the cursor's, instant at or before the end. */
    predicate Due(o: Occurrence) {
      KeyLess(CursorKey(z, from), KeyOf(o)) && o.at * TICKS <= to
    }

    ghost predicate InWindow(o: Occurrence)
      requires Ok()
    {
      Emits(z, p, c, o) && Due(o)
    }

    predicate Reached(w: Wall) {
      WallOrdinal(w) <= StopPos() && w.y <= YearLimit()
    }

    ghost predicate Listed(o: Occurrence)
      requires Ok()
    {
      InWindow(o) && Reached(o.slot)
    }

    /** The emissions of one matched tuple that fall in the window. */
    function Kept(w: Wall, es: seq<Emission>): (r: seq<Occurrence>)
      ensures forall o :: o in r <==> o.slot == w && Due(o) && Emission(o.at, o.skipped, o.reason) in es
    {
      if es == [] then []
      else
        var n := |es| - 1;
        var last := Occurs(w, es[n]);
        assert es == es[..n] + [es[n]];
        Kept(w, es[..n]) + (if Due(last) then [last] else [])
    }
  }

  lemma {:induction false} KeptRises(q: Query, w: Wall, es: seq<Emission>)
    requires forall i, j :: 0 <= i < j < |es| ==> es[i].at < es[j].at
    ensures Rising(q.Kept(w, es))
  {
    if es != [] {
      var n := |es| - 1;
      KeptRises(q, w, es[..n]);
      var head := q.Kept(w, es[..n]);
      forall o <- head ensures KeyLess(KeyOf(o), KeyOf(Occurs(w, es[n]))) {
        var e := Emission(o.at, o.skipped, o.reason);
        var k :| 0 <= k < n && es[k] == e;
      }
    }
  }

  lemma RowRises(z: Zone, p: Policy, l: int)
    requires Regular(z)
    ensures var es := EmissionsOf(z, p, l);
            1 <= |es| <= 2 && forall i, j :: 0 <= i < j < |es| ==> es[i].at < es[j].at
  {
  }

  method FirstAtOrAfter(c: Compiled, w: Wall) returns (v: Wall, ok: bool)
    requires c.Valid() && Real(w)
    ensures ok ==> c.Matches(v) && !Lt(v, w) && (v == w || IsNextAfter(c, w, Some(v)))
    ensures ok ==> forall u :: c.Matches(u) && !Lt(u, w) ==> !Lt(u, v)
    ensures !ok ==> !c.Matches(w) && IsNextAfter(c, w, None)
  {
    if c.Matches(w) {
      return w, true;
    }
    ghost var turns;
    v, ok, turns := NextAfter(c, w);
  }

  // ----- what the walk has listed so far

  ghost predicate Complete(q: Query, cur: Wall, out: seq<Occurrence>)
    requires q.Ok()
  {
    Rising(out) && forall o :: o in out <==> q.Listed(o) && Lt(o.slot, cur)
  }

  lemma CompleteAtStart(q: Query, cur: Wall)
    requires q.Ok() && forall u :: q.c.Matches(u) && !Lt(u, q.Start()) ==> !Lt(u, cur)
    ensures Complete(q, cur, [])
  {
    forall o | q.Listed(o) ensures !Lt(o.slot, cur) {
      OrdinalEmbedsTime(o.slot, q.Start());
      LtMinutes(o.slot, q.Start());
    }
  }

  lemma CompleteStep(q: Query, cur: Wall, out: seq<Occurrence>, es: seq<Emission>)
    requires q.Ok() && Complete(q, cur, out) && Real(cur) && q.c.Matches(cur) && q.Reached(cur)
    requires TableRow(q.z, q.p, MinuteNumber(cur), es)
    ensures Rising(out + q.Kept(cur, es))
    ensures forall o :: o in out + q.Kept(cur, es) <==> q.Listed(o) && !Lt(cur, o.slot)
  {
    hide MinuteNumber, WallOrdinal, CivilOf, TableRow, Compiled.Matches;
    var l := MinuteNumber(cur);
    RowIsUnique(q.z, q.p, l, es, EmissionsOf(q.z, q.p, l));
    RowRises(q.z, q.p, l);
    KeptRises(q, cur, es);
    forall o <- out ensures WallOrdinal(o.slot) < WallOrdinal(cur) {
      OrdinalEmbedsTime(o.slot, cur);
      LtMinutes(o.slot, cur);
    }
  }

  /** Every matching tuple up to here lies at or before the stop position. */
  ghost predicate Unstopped(q: Query, cur: Wall)
    requires q.Ok()
  {
    forall x :: q.c.Matches(x) && !Lt(x, q.Start()) && Lt(x, cur) ==> WallOrdinal(x) <= q.StopPos()
  }

  /** No matching tuple of the window's years lies past the stop position. */
  ghost predicate RanOut(q: Query)
    requires q.Ok()
  {
    forall x :: q.c.Matches(x) && !Lt(x, q.Start()) && x.y <= q.YearLimit() ==> WallOrdinal(x) <= q.StopPos()
  }

  lemma Advance(q: Query, cur: Wall, v: Wall, out: seq<Occurrence>)
    requires q.Ok() && IsNextAfter(q.c, cur, Some(v)) && Unstopped(q, cur) && WallOrdinal(cur) <= q.StopPos()
    requires Rising(out) && forall o :: o in out <==> q.Listed(o) && !Lt(cur, o.slot)
    ensures Complete(q, v, out) && Unstopped(q, v)
  {
    hide WallOrdinal, Compiled.Matches;
    forall o | q.Listed(o) ensures !Lt(cur, o.slot) <==> Lt(o.slot, v) {
    }
    forall x | q.c.Matches(x) && Lt(x, v) ensures Lt(x, cur) || x == cur {
    }
  }

  lemma StopHere(q: Query, cur: Wall, out: seq<Occurrence>)
    requires q.Ok() && Complete(q, cur, out) && Unstopped(q, cur) && Real(cur)
    requires cur.y > q.YearLimit() || WallOrdinal(cur) > q.StopPos()
    ensures forall o :: o in out <==> q.Listed(o)
    ensures cur.y > q.YearLimit() ==> RanOut(q)
  {
    hide Compiled.Matches;
    forall o | q.Listed(o) ensures Lt(o.slot, cur) {
      OrdinalEmbedsTime(o.slot, cur);
      LtMinutes(o.slot, cur);
    }
  }

  lemma StopAtLast(q: Query, cur: Wall, out: seq<Occurrence>)
    requires q.Ok() && IsNextAfter(q.c, cur, None) && cur.y >= q.Start().y && cur.y <= 9999
    requires Unstopped(q, cur) && WallOrdinal(cur) <= q.StopPos()
    requires forall o :: o in out <==> q.Listed(o) && !Lt(cur, o.slot)
    ensures forall o :: o in out <==> q.Listed(o)
    ensures RanOut(q)
  {
    hide Compiled.Matches, WallOrdinal;
    forall x | q.c.Matches(x) && x.y <= q.YearLimit() ensures !Lt(cur, x) {
    }
    forall x | q.c.Matches(x) && x.y <= q.YearLimit() ensures x == cur || Lt(x, cur) {
    }
  }

  lemma NothingToList(q: Query)
    requires q.Ok() && !q.c.Matches(q.Start()) && IsNextAfter(q.c, q.Start(), None)
    ensures forall o :: !q.Listed(o)
    ensures RanOut(q)
  {
    hide Compiled.Matches, CivilOf;
    forall x | q.c.Matches(x) && !Lt(x, q.Start()) ensures x.y > q.YearLimit() {
      VixieRule(q.c, x);
    }
    forall o | q.InWindow(o) ensures !Lt(o.slot, q.Start()) {
      OrdinalEmbedsTime(o.slot, q.Start());
      LtMinutes(o.slot, q.Start());
    }
  }

  /** The body of the walk for one tuple: classify it and append what falls in the window. */
  method ListSlot(q: Query, cur: Wall, out: seq<Occurrence>) returns (r: seq<Occurrence>)
    requires q.Ok() && Complete(q, cur, out) && Real(cur) && q.c.Matches(cur) && q.Reached(cur)
    ensures Rising(r) && forall o :: o in r <==> q.Listed(o) && !Lt(cur, o.slot)
  {
    hide CivilOf, MinuteNumber, TableRow, Marked, Compiled.Matches, Regular, DateContract;
    var es := ClassifyEmissions(cur, q.z, q.p);
    r := out;
    for i := 0 to |es|
      invariant r == out + q.Kept(cur, es[..i])
    {
      assert es[..i + 1][..i] == es[..i];
      if KeyLess(CursorKey(q.z, q.from), Key(WallOrdinal(cur), es[i].at * TICKS)) && es[i].at * TICKS <= q.to {
        r := r + [Occurs(cur, es[i])];
      }
    }
    assert es[..|es|] == es;
    CompleteStep(q, cur, out, es);
  }

  /** The occurrences of the window (from, to]: each emission of a reached tuple whose key lies above
      the cursor's and whose instant does not lie after the end, once, in strictly rising key order.
      The error says that no matching tuple of the covered years lies past the stop position. */
  method Between(z: Zone, p: Policy, c: Compiled, from: int, to: int)
    returns (out: seq<Occurrence>, noOccurrence: bool)
    requires Valid(z) && c.Valid() && WallAt(z, from).y >= 0
    ensures to <= from ==> out == [] && !noOccurrence
    ensures from < to ==> Rising(out) && forall o :: o in out <==> Query(z, p, c, from, to).Listed(o)
    ensures from < to ==> (noOccurrence <==> RanOut(Query(z, p, c, from, to)))
  {
    hide CivilOf, MinuteNumber, WallPointOf, TableRow, Compiled.Matches, Regular, DateContract;
    if to <= from {
      return [], false;
    }
    var q := Query(z, p, c, from, to);
    var stopPos := WallOrdinal(WallAt(z, to)) + 16 * 60;
    DecodeExactIffNonNegativeYear(WallAt(z, from));
    var start := WallPointOf(CursorKey(z, from).pos);
    out := [];
    var cur, ok := FirstAtOrAfter(c, start);
    if !ok {
      NothingToList(q);
      return out, true;
    }
    CompleteAtStart(q, cur);
    VixieRule(c, cur);
    ghost var edge := Wall(q.YearLimit() + 1, 1, 1, 0, 0);
    while true
      invariant Real(cur) && c.Matches(cur) && !Lt(cur, start)
      invariant Complete(q, cur, out) && Unstopped(q, cur)
      decreases MinuteNumber(edge) - MinuteNumber(cur)
    {
      if cur.y > start.y + 6 || cur.y > 9999 {
        StopHere(q, cur, out);
        return out, true;
      }
      if WallOrdinal(cur) > stopPos {
        StopHere(q, cur, out);
        return out, false;
      }
      out := ListSlot(q, cur, out);
      var next, found, turns := NextAfter(c, cur);
      if !found {
        StopAtLast(q, cur, out);
        return out, true;
      }
      Advance(q, cur, next, out);
      VixieRule(c, next);
      LtMinutes(cur, next);
      LtMinutes(cur, edge);
      cur := next;
    }
  }

  // ----- Next and Prev

  ghost predicate LeastAbove(z: Zone, p: Policy, c: Compiled, k: Key, o: Occurrence)
    requires Valid(z) && c.Valid()
  {
    Emits(z, p, c, o) && KeyLess(k, KeyOf(o))
    && forall x :: Emits(z, p, c, x) && KeyLess(k, KeyOf(x)) ==> !KeyLess(KeyOf(x), KeyOf(o))
  }

  ghost predicate GreatestBelow(z: Zone, p: Policy, c: Compiled, k: Key, o: Occurrence)
    requires Valid(z) && c.Valid()
  {
    Emits(z, p, c, o) && KeyLess(KeyOf(o), k)
    && forall x :: Emits(z, p, c, x) && KeyLess(KeyOf(x), k) ==> !KeyLess(KeyOf(o), KeyOf(x))
  }

  /** An emission lands within its zone's largest offset of the wall clock it belongs to. */
  lemma LandsNearby(z: Zone, p: Policy, l: int, e: Emission)
    requires Regular(z) && e in EmissionsOf(z, p, l)
    ensures l - 960 <= e.at <= l + 960
  {
    hide TableRow;
    var m := OffsetOfEmission(z, p, l, e);
  }

  /** Six calendar years are more than the horizon, whatever the offsets. */
  lemma SixYearsAreFar(a: Wall, b: Wall)
    requires Real(a) && Real(b) && b.y >= a.y + 6
    ensures MinuteNumber(b) - MinuteNumber(a) >= 5 * 365 * 1440
  {
    YearsApart(a.y + 1, b.y);
    LtMinutes(a, Wall(a.y + 1, 1, 1, 0, 0));
    LtMinutes(Wall(b.y, 1, 1, 0, 0), b);
  }

  lemma YearsApart(y: int, y': int)
    requires y' >= y + 5
    ensures MinuteNumber(Wall(y', 1, 1, 0, 0)) - MinuteNumber(Wall(y, 1, 1, 0, 0)) >= 5 * 365 * 1440
  {
    FiveYears(y, y');
  }

  lemma FiveYears(y: int, y': int)
    requires y' >= y + 5
    ensures DaysBeforeYear(y') - DaysBeforeYear(y) >= 5 * 365
  {
    YearsMonotone(y, y + 1);
    YearsMonotone(y + 1, y + 2);
    YearsMonotone(y + 2, y + 3);
    YearsMonotone(y + 3, y + 4);
    YearsMonotone(y + 4, y');
  }

  lemma PastTheHorizon(z: Zone, p: Policy, c: Compiled, u: int, o: Occurrence)
    requires Valid(z) && c.Valid() && Emits(z, p, c, o)
    ensures o.slot.y >= WallAt(z, u).y + 6 ==> o.at * TICKS > u + HORIZON
    ensures o.slot.y <= WallAt(z, u).y - 6 ==> o.at * TICKS < u - HORIZON
  {
    hide CivilOf, MinuteNumber, TableRow;
    var w := WallAt(z, u);
    LandsNearby(z, p, MinuteNumber(o.slot), Emission(o.at, o.skipped, o.reason));
    if o.slot.y >= w.y + 6 {
      SixYearsAreFar(w, o.slot);
    } else if o.slot.y <= w.y - 6 {
      SixYearsAreFar(o.slot, w);
    }
  }

  /** Within one row the earliest emission above a cursor is the least, the latest below the greatest. */
  lemma RowIsOrdered(z: Zone, p: Policy, w: Wall, es: seq<Emission>, x: Occurrence, i: nat)
    requires Regular(z) && Real(w) && TableRow(z, p, MinuteNumber(w), es) && i < |es|
    requires x.slot == w && Emission(x.at, x.skipped, x.reason) in EmissionsOf(z, p, MinuteNumber(w))
    ensures x.at < es[i].at ==> exists k :: 0 <= k < i && x.at == es[k].at
    ensures es[i].at < x.at ==> exists k :: i < k < |es| && x.at == es[k].at
  {
    hide TableRow, MinuteNumber;
    RowIsUnique(z, p, MinuteNumber(w), es, EmissionsOf(z, p, MinuteNumber(w)));
    RowRises(z, p, MinuteNumber(w));
    var k :| 0 <= k < |es| && es[k] == Emission(x.at, x.skipped, x.reason);
  }

  lemma RowMember(z: Zone, p: Policy, w: Wall, es: seq<Emission>, x: Occurrence)
    requires Regular(z) && Real(w) && TableRow(z, p, MinuteNumber(w), es)
    ensures x.slot == w && Emission(x.at, x.skipped, x.reason) in EmissionsOf(z, p, MinuteNumber(w)) ==>
              exists k :: 0 <= k < |es| && x == Occurs(w, es[k])
  {
    hide TableRow, MinuteNumber;
    RowIsUnique(z, p, MinuteNumber(w), es, EmissionsOf(z, p, MinuteNumber(w)));
  }

  lemma Slots(a: Occurrence, b: Occurrence)
    requires Real(a.slot) && Real(b.slot)
    ensures KeyLess(KeyOf(a), KeyOf(b)) <==> Lt(a.slot, b.slot) || (a.slot == b.slot && a.at < b.at)
  {
  }

  lemma AboveCursor(z: Zone, u: int, o: Occurrence)
    requires Real(o.slot)
    ensures var w := WallAt(z, u);
            KeyLess(CursorKey(z, u), KeyOf(o)) <==> Lt(w, o.slot) || (w == o.slot && u < o.at * TICKS)
    ensures var w := WallAt(z, u);
            KeyLess(KeyOf(o), CursorKey(z, u)) <==> Lt(o.slot, w) || (w == o.slot && o.at * TICKS < u)
  {
    var w := WallAt(z, u);
    OrdinalEmbedsTime(o.slot, w);
    LtMinutes(o.slot, w);
    LtMinutes(w, o.slot);
  }

  /** Nothing at or after the cursor's wall is emitted above it before cur. */
  ghost predicate NoneYet(z: Zone, p: Policy, c: Compiled, u: int, cur: Wall)
    requires Valid(z) && c.Valid()
  {
    forall x :: Emits(z, p, c, x) && KeyLess(CursorKey(z, u), KeyOf(x)) ==> !Lt(x.slot, cur)
  }

  /** The first emission of this tuple above the cursor, when there is one. */
  method FirstAbove(z: Zone, p: Policy, c: Compiled, u: int, cur: Wall) returns (o: Occurrence, found: bool)
    requires Valid(z) && c.Valid() && Real(cur) && c.Matches(cur) && NoneYet(z, p, c, u, cur)
    ensures found ==> LeastAbove(z, p, c, CursorKey(z, u), o) && o.slot == cur
    ensures !found ==> forall x :: Emits(z, p, c, x) && KeyLess(CursorKey(z, u), KeyOf(x)) ==> Lt(cur, x.slot)
    ensures Lt(WallAt(z, u), cur) ==> found
  {
    hide CivilOf, MinuteNumber, TableRow, Marked, Compiled.Matches, Regular, DateContract, WallOrdinal;
    var es := ClassifyEmissions(cur, z, p);
    RowIsUnique(z, p, MinuteNumber(cur), es, EmissionsOf(z, p, MinuteNumber(cur)));
    RowRises(z, p, MinuteNumber(cur));
    for i := 0 to |es|
      invariant forall k :: 0 <= k < i ==> !KeyLess(CursorKey(z, u), KeyOf(Occurs(cur, es[k])))
    {
      o := Occurs(cur, es[i]);
      AboveCursor(z, u, o);
      if KeyLess(CursorKey(z, u), KeyOf(o)) {
        forall x | Emits(z, p, c, x) && KeyLess(CursorKey(z, u), KeyOf(x)) ensures !KeyLess(KeyOf(x), KeyOf(o)) {
          Slots(x, o);
          if x.slot == cur {
            RowIsOrdered(z, p, cur, es, x, i);
          }
        }
        return o, true;
      }
    }
    AboveCursor(z, u, Occurs(cur, es[0]));
    forall x | Emits(z, p, c, x) && KeyLess(CursorKey(z, u), KeyOf(x)) ensures Lt(cur, x.slot) {
      LtMinutes(cur, x.slot);
      RowMember(z, p, cur, es, x);
    }
    return Occurs(cur, es[0]), false;
  }

  /** The supported era and the horizon: what Next may answer. */
  predicate NextMayAnswer(u: int, o: Occurrence) {
    o.slot.y <= 9999 && o.at * TICKS <= u + HORIZON
  }

  predicate PrevMayAnswer(u: int, o: Occurrence) {
    o.slot.y >= 1 && o.at * TICKS >= u - HORIZON
  }

  lemma NoneBeforeStart(z: Zone, p: Policy, c: Compiled, u: int)
    requires Valid(z) && c.Valid()
    ensures NoneYet(z, p, c, u, WallAt(z, u))
  {
    hide CivilOf, MinuteNumber, TableRow, Marked, Compiled.Matches, Regular, DateContract, WallOrdinal;
    forall x | Emits(z, p, c, x) && KeyLess(CursorKey(z, u), KeyOf(x)) ensures !Lt(x.slot, WallAt(z, u)) {
      AboveCursor(z, u, x);
    }
  }

  lemma NothingNear(z: Zone, p: Policy, c: Compiled, u: int, cur: Wall)
    requires Valid(z) && c.Valid() && NoneYet(z, p, c, u, cur)
    requires cur.y > WallAt(z, u).y + 5 || cur.y > 9999
    ensures forall x :: LeastAbove(z, p, c, CursorKey(z, u), x) ==> !NextMayAnswer(u, x)
  {
    forall x | LeastAbove(z, p, c, CursorKey(z, u), x) ensures !NextMayAnswer(u, x) {
      PastTheHorizon(z, p, c, u, x);
    }
  }

  lemma LeastIsUnique(z: Zone, p: Policy, c: Compiled, k: Key, a: Occurrence, b: Occurrence)
    requires Valid(z) && c.Valid() && LeastAbove(z, p, c, k, a) && LeastAbove(z, p, c, k, b)
    ensures a.slot == b.slot && a.at == b.at
  {
    Slots(a, b);
    Slots(b, a);
    LtMinutes(a.slot, b.slot);
    LtMinutes(b.slot, a.slot);
  }

  /** Next answers the emission with the least key above the cursor's, and fails exactly when there is
      none, it lies past the horizon, or its tuple lies past year 9999. It never examines a third tuple. */
  method CronNext(z: Zone, p: Policy, c: Compiled, u: int) returns (o: Occurrence, ok: bool, ghost examined: int)
    requires Valid(z) && c.Valid()
    ensures ok ==> LeastAbove(z, p, c, CursorKey(z, u), o) && NextMayAnswer(u, o)
    ensures !ok ==> forall x :: LeastAbove(z, p, c, CursorKey(z, u), x) ==> !NextMayAnswer(u, x)
    ensures 0 <= examined <= 2
  {
    hide CivilOf, MinuteNumber, TableRow, Marked, Compiled.Matches, Regular, DateContract, WallOrdinal, LeastAbove;
    var start := WallAt(z, u);
    var cur := start;
    o := Occurs(start, Emission(0, false, NoReason));
    NoneBeforeStart(z, p, c, u);
    var i := 0;
    while i < MAX_ITERATIONS
      invariant Real(cur) && NoneYet(z, p, c, u, cur)
      invariant 0 <= i <= 1 && (i == 0 ==> cur == start) && (i == 1 ==> Lt(start, cur) && c.Matches(cur))
    {
      if cur.y > start.y + 5 || cur.y > 9999 {
        NothingNear(z, p, c, u, cur);
        return o, false, i;
      }
      if c.Matches(cur) {
        var found;
        o, found := FirstAbove(z, p, c, u, cur);
        if found {
          if o.at * TICKS > u + HORIZON {
            forall x | LeastAbove(z, p, c, CursorKey(z, u), x) ensures !NextMayAnswer(u, x) {
              LeastIsUnique(z, p, c, CursorKey(z, u), x, o);
            }
            return o, false, i + 1;
          }
          return o, true, i + 1;
        }
      }
      var next, more, turns := NextAfter(c, cur);
      NoneUntilNext(z, p, c, u, cur, if more then Some(next) else None);
      if !more {
        return o, false, i + 1;
      }
      VixieRule(c, next);
      cur := next;
      i := i + 1;
    }
    assert false;
    return o, false, 0;
  }

  lemma NoneUntilNext(z: Zone, p: Policy, c: Compiled, u: int, cur: Wall, r: Option<Wall>)
    requires Valid(z) && c.Valid() && Real(cur) && NoneYet(z, p, c, u, cur) && IsNextAfter(c, cur, r)
    requires c.Matches(cur) ==> forall x :: Emits(z, p, c, x) && KeyLess(CursorKey(z, u), KeyOf(x)) ==> Lt(cur, x.slot)
    requires cur.y <= 9999 && cur.y >= WallAt(z, u).y
    ensures r.Some? ==> NoneYet(z, p, c, u, r.value)
    ensures r.None? ==> forall x :: LeastAbove(z, p, c, CursorKey(z, u), x) ==> !NextMayAnswer(u, x)
  {
    hide CivilOf, MinuteNumber, TableRow, Marked, Compiled.Matches, Regular, DateContract, WallOrdinal;
    forall x | Emits(z, p, c, x) && KeyLess(CursorKey(z, u), KeyOf(x)) ensures Lt(cur, x.slot) {
      LtMinutes(cur, x.slot);
      LtMinutes(x.slot, cur);
    }
    if r.None? {
      forall x | LeastAbove(z, p, c, CursorKey(z, u), x) ensures !NextMayAnswer(u, x) {
        PastTheHorizon(z, p, c, u, x);
      }
    }
  }

  // ----- the mirror image

  ghost predicate NoneLater(z: Zone, p: Policy, c: Compiled, u: int, cur: Wall)
    requires Valid(z) && c.Valid()
  {
    forall x :: Emits(z, p, c, x) && KeyLess(KeyOf(x), CursorKey(z, u)) ==> !Lt(cur, x.slot)
  }

  method LastBelow(z: Zone, p: Policy, c: Compiled, u: int, cur: Wall) returns (o: Occurrence, found: bool)
    requires Valid(z) && c.Valid() && Real(cur) && c.Matches(cur) && NoneLater(z, p, c, u, cur)
    ensures found ==> GreatestBelow(z, p, c, CursorKey(z, u), o) && o.slot == cur
    ensures !found ==> forall x :: Emits(z, p, c, x) && KeyLess(KeyOf(x), CursorKey(z, u)) ==> Lt(x.slot, cur)
    ensures Lt(cur, WallAt(z, u)) ==> found
  {
    hide CivilOf, MinuteNumber, TableRow, Marked, Compiled.Matches, Regular, DateContract, WallOrdinal;
    var es := ClassifyEmissions(cur, z, p);
    RowIsUnique(z, p, MinuteNumber(cur), es, EmissionsOf(z, p, MinuteNumber(cur)));
    RowRises(z, p, MinuteNumber(cur));
    var j := |es| - 1;
    while j >= 0
      invariant -1 <= j < |es|
      invariant forall k :: j < k < |es| ==> !KeyLess(KeyOf(Occurs(cur, es[k])), CursorKey(z, u))
    {
      o := Occurs(cur, es[j]);
      AboveCursor(z, u, o);
      if KeyLess(KeyOf(o), CursorKey(z, u)) {
        forall x | Emits(z, p, c, x) && KeyLess(KeyOf(x), CursorKey(z, u)) ensures !KeyLess(KeyOf(o), KeyOf(x)) {
          Slots(o, x);
          if x.slot == cur {
            RowIsOrdered(z, p, cur, es, x, j);
          }
        }
        return o, true;
      }
      j := j - 1;
    }
    AboveCursor(z, u, Occurs(cur, es[0]));
    forall x | Emits(z, p, c, x) && KeyLess(KeyOf(x), CursorKey(z, u)) ensures Lt(x.slot, cur) {
      LtMinutes(x.slot, cur);
      RowMember(z, p, cur, es, x);
    }
    return Occurs(cur, es[0]), false;
  }

  lemma NoneAfterStart(z: Zone, p: Policy, c: Compiled, u: int)
    requires Valid(z) && c.Valid()
    ensures NoneLater(z, p, c, u, WallAt(z, u))
  {
    hide CivilOf, MinuteNumber, TableRow, Marked, Compiled.Matches, Regular, DateContract, WallOrdinal;
    forall x | Emits(z, p, c, x) && KeyLess(KeyOf(x), CursorKey(z, u)) ensures !Lt(WallAt(z, u), x.slot) {
      AboveCursor(z, u, x);
    }
  }

  lemma NothingRecent(z: Zone, p: Policy, c: Compiled, u: int, cur: Wall)
    requires Valid(z) && c.Valid() && NoneLater(z, p, c, u, cur)
    requires cur.y < WallAt(z, u).y - 5 || cur.y < 1
    ensures forall x :: GreatestBelow(z, p, c, CursorKey(z, u), x) ==> !PrevMayAnswer(u, x)
  {
    forall x | GreatestBelow(z, p, c, CursorKey(z, u), x) ensures !PrevMayAnswer(u, x) {
      PastTheHorizon(z, p, c, u, x);
    }
  }

  lemma GreatestIsUnique(z: Zone, p: Policy, c: Compiled, k: Key, a: Occurrence, b: Occurrence)
    requires Valid(z) && c.Valid() && GreatestBelow(z, p, c, k, a) && GreatestBelow(z, p, c, k, b)
    ensures a.slot == b.slot && a.at == b.at
  {
    Slots(a, b);
    Slots(b, a);
    LtMinutes(a.slot, b.slot);
    LtMinutes(b.slot, a.slot);
  }

  lemma NoneDownToPrev(z: Zone, p: Policy, c: Compiled, u: int, cur: Wall, r: Option<Wall>)
    requires Valid(z) && c.Valid() && Real(cur) && NoneLater(z, p, c, u, cur) && IsPrevBefore(c, cur, r)
    requires c.Matches(cur) ==> forall x :: Emits(z, p, c, x) && KeyLess(KeyOf(x), CursorKey(z, u)) ==> Lt(x.slot, cur)
    requires cur.y >= 1 && cur.y <= WallAt(z, u).y
    ensures r.Some? ==> NoneLater(z, p, c, u, r.value)
    ensures r.None? ==> forall x :: GreatestBelow(z, p, c, CursorKey(z, u), x) ==> !PrevMayAnswer(u, x)
  {
    hide CivilOf, MinuteNumber, TableRow, Marked, Compiled.Matches, Regular, DateContract, WallOrdinal;
    forall x | Emits(z, p, c, x) && KeyLess(KeyOf(x), CursorKey(z, u)) ensures Lt(x.slot, cur) {
      LtMinutes(cur, x.slot);
      LtMinutes(x.slot, cur);
    }
    if r.None? {
      forall x | GreatestBelow(z, p, c, CursorKey(z, u), x) ensures !PrevMayAnswer(u, x) {
        PastTheHorizon(z, p, c, u, x);
      }
    }
  }

  /** Prev answers the emission with the greatest key below the cursor's, and fails exactly when there is
      none, it lies before the horizon, or its tuple lies before year 1. */
  method CronPrev(z: Zone, p: Policy, c: Compiled, u: int) returns (o: Occurrence, ok: bool, ghost examined: int)
    requires Valid(z) && c.Valid()
    ensures ok ==> GreatestBelow(z, p, c, CursorKey(z, u), o) && PrevMayAnswer(u, o)
    ensures !ok ==> forall x :: GreatestBelow(z, p, c, CursorKey(z, u), x) ==> !PrevMayAnswer(u, x)
    ensures 0 <= examined <= 2
  {
    hide CivilOf, MinuteNumber, TableRow, Marked, Compiled.Matches, Regular, DateContract, WallOrdinal, GreatestBelow;
    var start := WallAt(z, u);
    var cur := start;
    o := Occurs(start, Emission(0, false, NoReason));
    NoneAfterStart(z, p, c, u);
    var i := 0;
    while i < MAX_ITERATIONS
      invariant Real(cur) && NoneLater(z, p, c, u, cur)
      invariant 0 <= i <= 1 && (i == 0 ==> cur == start) && (i == 1 ==> Lt(cur, start) && c.Matches(cur))
    {
      if cur.y < start.y - 5 || cur.y < 1 {
        NothingRecent(z, p, c, u, cur);
        return o, false, i;
      }
      if c.Matches(cur) {
        var found;
        o, found := LastBelow(z, p, c, u, cur);
        if found {
          if o.at * TICKS < u - HORIZON {
            forall x | GreatestBelow(z, p, c, CursorKey(z, u), x) ensures !PrevMayAnswer(u, x) {
              GreatestIsUnique(z, p, c, CursorKey(z, u), x, o);
            }
            return o, false, i + 1;
          }
          return o, true, i + 1;
        }
      }
      var prev, more, turns := PrevBefore(c, cur);
      NoneDownToPrev(z, p, c, u, cur, if more then Some(prev) else None);
      if !more {
        return o, false, i + 1;
      }
      VixieRule(c, prev);
      cur := prev;
      i := i + 1;
    }
    assert false;
    return o, false, 0;
  }
}
