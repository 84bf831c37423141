/** The tuple search of internal/cronx/iter.go: carries and borrows on a mutable wall clock, the
    Vixie day rule, and the jumps over field sets that find the next and the previous match. */
module Search {
  import opened Calendar
  import opened FieldSets
  import opened Options

  const MAX_ITERATIONS := 100_000

  // ----- the pointer methods on wallPoint

  /** The date a day or month overflow carries into. */
  function CarriedDay(w: Wall): (r: Wall)
    requires 1 <= w.mo <= 13 && 1 <= w.d
    requires w.d <= (if w.mo == 13 then 31 else LastDay(w.y, w.mo) + 1)
    ensures RealDate(r.y, r.mo, r.d)
    ensures r.h == w.h && r.mi == w.mi
  {
    if w.mo == 13 then w.(y := w.y + 1, mo := 1)
    else
      if w.d <= LastDay(w.y, w.mo) then w
      else if w.mo == 12 then w.(y := w.y + 1, mo := 1, d := 1)
      else w.(mo := w.mo + 1, d := 1)
  }

  /** The date a day underflow borrows from. Month 0 is December of the year before. */
  function BorrowedDay(w: Wall): (r: Wall)
    requires 0 <= w.mo <= 12 && 0 <= w.d <= (if w.mo == 0 then 31 else LastDay(w.y, w.mo))
    ensures RealDate(r.y, r.mo, r.d)
    ensures r.h == w.h && r.mi == w.mi
  {
    if w.mo == 0 then w.(y := w.y - 1, mo := if w.d >= 1 then 12 else 11, d := if w.d >= 1 then w.d else 30)
    else if w.d >= 1 then w
    else if w.mo == 1 then w.(y := w.y - 1, mo := 12, d := 31)
    else w.(mo := w.mo - 1, d := LastDay(w.y, w.mo - 1))
  }

  /** Neither a carry nor a borrow moves the day it names. */
  lemma CarryKeepsTheDay(w: Wall)
    requires 1 <= w.mo <= 13 && 1 <= w.d
    requires w.d <= (if w.mo == 13 then 31 else LastDay(w.y, w.mo) + 1)
    ensures var r := CarriedDay(w); DayNumber(r.y, r.mo, r.d) == DayNumber(w.y, w.mo, w.d)
  {
    YearLength(w.y);
    if w.mo <= 12 { MonthLength(w.y, w.mo); }
  }

  lemma BorrowKeepsTheDay(w: Wall)
    requires 1 <= w.mo <= 12 && 0 <= w.d <= LastDay(w.y, w.mo)
    ensures var r := BorrowedDay(w); DayNumber(r.y, r.mo, r.d) == DayNumber(w.y, w.mo, w.d)
  {
    YearLength(w.y - 1);
    if w.mo > 1 { MonthLength(w.y, w.mo - 1); }
  }

  /** The start of the next hour, the end of the previous one. */
  function NextHour(w: Wall): Wall
    requires RealDate(w.y, w.mo, w.d)
  {
    if w.h < 23 then w.(h := w.h + 1) else CarriedDay(w.(d := w.d + 1, h := 0))
  }

  function PrevHour(w: Wall): Wall
    requires RealDate(w.y, w.mo, w.d)
  {
    if w.h > 0 then w.(h := w.h - 1) else BorrowedDay(w.(d := w.d - 1, h := 23))
  }

  /** Rolling an hour forward and an hour back are inverse on every real tuple. */
  lemma HoursInvert(w: Wall)
    requires Real(w)
    ensures Real(NextHour(w)) && Real(PrevHour(w))
    ensures PrevHour(NextHour(w)) == w && NextHour(PrevHour(w)) == w
  {
  }

  /** Each roll moves the absolute hour by exactly one. */
  lemma HoursMoveByOne(w: Wall)
    requires Real(w)
    ensures HourNumber(NextHour(w)) == HourNumber(w) + 1
    ensures HourNumber(PrevHour(w)) == HourNumber(w) - 1
  {
    if w.h == 23 {
      CarryKeepsTheDay(w.(d := w.d + 1, h := 0));
    }
    if w.h == 0 {
      BorrowKeepsTheDay(w.(d := w.d - 1, h := 23));
    }
  }

  /** The last minute of the month before. */
  function MonthBefore(w: Wall): Wall
    requires 1 <= w.mo <= 12
  {
    if w.mo == 1 then Wall(w.y - 1, 12, 31, 23, 59) else Wall(w.y, w.mo - 1, LastDay(w.y, w.mo - 1), 23, 59)
  }

  lemma RetreatIsOneMinute(w: Wall)
    requires 1 <= w.mo <= 12
    ensures Real(MonthBefore(w))
    ensures MinuteNumber(MonthBefore(w)) + 1 == MinuteNumber(Wall(w.y, w.mo, 1, 0, 0))
  {
    YearLength(w.y - 1);
    if w.mo > 1 { MonthLength(w.y, w.mo - 1); }
  }

  class WallCursor {
    var y: int
    var mo: int
    var d: int
    var h: int
    var mi: int

    function Value(): Wall
      reads this
    {
      Wall(y, mo, d, h, mi)
    }

    constructor (w: Wall)
      ensures Value() == w
    {
      y, mo, d, h, mi := w.y, w.mo, w.d, w.h, w.mi;
    }

    method CarryDay()
      requires 1 <= mo <= 13 && 1 <= d
      requires d <= (if mo == 13 then 31 else LastDay(y, mo) + 1)
      modifies this
      ensures Value() == CarriedDay(old(Value()))
    {
      while true
        invariant 1 <= mo <= 13 && 1 <= d
        invariant d <= (if mo == 13 then 31 else LastDay(y, mo) + 1)
        invariant CarriedDay(Value()) == CarriedDay(old(Value()))
        decreases if d > 1 then 1 else 0
      {
        if mo > 12 {
          mo := 1;
          y := y + 1;
        }
        if d <= LastDay(y, mo) {
          return;
        }
        d := 1;
        mo := mo + 1;
      }
    }

    method CarryFromHour()
      requires RealDate(y, mo, d) && 1 <= h <= 24
      modifies this
      ensures Value() == NextHour(old(Value().(h := h - 1)))
    {
      if h <= 23 {
        return;
      }
      h := 0;
      d := d + 1;
      CarryDay();
    }

    method BorrowDay()
      requires 0 <= mo <= 12 && 0 <= d <= (if mo == 0 then 31 else LastDay(y, mo))
      requires mo == 0 ==> y >= 2
      modifies this
      ensures Value() == if old(y) < 1 then old(Value()) else BorrowedDay(old(Value()))
    {
      while true
        invariant 0 <= mo <= 12 && 0 <= d <= (if mo == 0 then 31 else LastDay(y, mo))
        invariant mo == 0 ==> y >= 2
        invariant old(y) < 1 ==> Value() == old(Value())
        invariant old(y) >= 1 ==> BorrowedDay(Value()) == BorrowedDay(old(Value())) && (y < 1 ==> d >= 1)
        decreases if d < 1 then 1 else 0
      {
        if mo < 1 {
          mo := 12;
          y := y - 1;
        }
        if y < 1 {
          return;
        }
        if d >= 1 {
          return;
        }
        mo := mo - 1;
        if mo < 1 {
          mo := 12;
          y := y - 1;
        }
        d := LastDay(y, mo);
      }
    }

    method BorrowToHour()
      requires RealDate(y, mo, d) && y >= 1 && -1 <= h <= 22
      modifies this
      ensures Value() == PrevHour(old(Value().(h := h + 1)))
    {
      if h >= 0 {
        return;
      }
      h := 23;
      d := d - 1;
      BorrowDay();
    }

    method RetreatMonth()
      requires 1 <= mo <= 12
      modifies this
      ensures Value() == MonthBefore(old(Value()))
    {
      mo := mo - 1;
      if mo < 1 {
        mo := 12;
        y := y - 1;
      }
      d := LastDay(y, mo);
      h, mi := 23, 59;
    }
  }

  /** One hour forward with carry and one hour back with borrow undo each other on every real date. */
  method RollHourThereAndBack(w: Wall) returns (there: Wall, back: Wall)
    requires Real(w) && w.y >= 1
    ensures Real(there) && HourNumber(there) == HourNumber(w) + 1 && there.mi == w.mi
    ensures back == w
  {
    var n := new WallCursor(w);
    n.h := n.h + 1;
    n.CarryFromHour();
    there := n.Value();
    HoursMoveByOne(w);
    HoursInvert(w);
    n.h := n.h - 1;
    n.BorrowToHour();
    back := n.Value();
  }

  // ----- the compiled schedule and its matches

  datatype Compiled = Compiled(
    minutes: seq<int>, hours: seq<int>, doms: seq<int>, months: seq<int>, dows: seq<int>,
    domWild: bool, dowWild: bool)
  {
    predicate Valid() {
      FieldSet(minutes, 0, 59) && FieldSet(hours, 0, 23) && FieldSet(doms, 1, 31)
      && FieldSet(months, 1, 12) && FieldSet(dows, 0, 6)
      && domWild == (|doms| == 31) && dowWild == (|dows| == 7)
    }

    predicate DayMatches(y: int, mo: int, d: int)
      requires Valid() && 1 <= mo <= 12
    {
      if d < 1 || d > LastDay(y, mo) then false
      else if domWild && dowWild then true
      else
        var dm := !domWild && Contains(doms, d);
        var dw := !dowWild && Contains(dows, Weekday(y, mo, d));
        if domWild then dw else if dowWild then dm else dm || dw
    }

    predicate Matches(w: Wall)
      requires Valid()
    {
      Contains(months, w.mo) && Contains(hours, w.h) && Contains(minutes, w.mi)
      && DayMatches(w.y, w.mo, w.d)
    }
  }

  /** The documented rule: a tuple matches when it is a real minute whose month, hour and minute are
      listed and whose day satisfies either day field when both are restricted, both otherwise. */
  lemma VixieRule(c: Compiled, w: Wall)
    requires c.Valid()
    ensures c.Matches(w) <==>
            Real(w) && w.mo in c.months && w.h in c.hours && w.mi in c.minutes &&
            var dm, dw := w.d in c.doms, Weekday(w.y, w.mo, w.d) in c.dows;
            if |c.doms| < 31 && |c.dows| < 7 then dm || dw else dm && dw
  {
    FullIffWide(c.doms, 1, 31);
    FullIffWide(c.dows, 0, 6);
  }

  /** Days are counted from a known Sunday, 2000-01-02. */
  function DaysSinceASunday(y: int, mo: int, d: int): int
    requires 1 <= mo <= 12
  {
    DayNumber(y, mo, d) - DayNumber(2000, 1, 2)
  }

  /** The day rule on the calendar itself: 0 is the Sunday, and every seventh day is one again. */
  lemma DayRuleOnTheCalendar(c: Compiled, y: int, mo: int, d: int)
    requires c.Valid() && RealDate(y, mo, d)
    ensures c.DayMatches(y, mo, d) <==>
            var dm, dw := d in c.doms, DaysSinceASunday(y, mo, d) % 7 in c.dows;
            if |c.doms| < 31 && |c.dows| < 7 then dm || dw else dm && dw
    ensures |c.doms| == 31 ==> (c.DayMatches(y, mo, d) <==> DaysSinceASunday(y, mo, d) % 7 in c.dows)
  {
    WeekdayCountsFromASunday(y, mo, d);
    ContainsIsMembership(c.doms, d);
    ContainsIsMembership(c.dows, Weekday(y, mo, d));
    FullIffWide(c.doms, 1, 31);
    FullIffWide(c.dows, 0, 6);
  }

  lemma WeekdayCountsFromASunday(y: int, mo: int, d: int)
    requires RealDate(y, mo, d)
    ensures Weekday(y, mo, d) == DaysSinceASunday(y, mo, d) % 7
    ensures 0 <= Weekday(y, mo, d) <= 6
  {
    ASunday();
    hide DayNumber;
    SevenDaysOn(DayNumber(y, mo, d));
  }

  lemma ASunday()
    ensures DayNumber(2000, 1, 2) == 730120
  {
  }

  lemma SevenDaysOn(n: int)
    ensures (n + 1) % 7 == (n - 730120) % 7
  {
  }

  /** A Monday schedule matches Monday 2026-10-26 and neither the Sunday before nor the Tuesday after. */
  lemma MondayIsMonday(c: Compiled)
    requires c.Valid() && |c.doms| == 31 && c.dows == [1]
    ensures c.DayMatches(2026, 10, 26) && !c.DayMatches(2026, 10, 25) && !c.DayMatches(2026, 10, 27)
  {
    DayRuleOnTheCalendar(c, 2026, 10, 25);
    DayRuleOnTheCalendar(c, 2026, 10, 26);
    DayRuleOnTheCalendar(c, 2026, 10, 27);
    SomeMonday();
  }

  lemma SomeMonday()
    ensures DaysSinceASunday(2026, 10, 25) % 7 == 0 && DaysSinceASunday(2026, 10, 26) % 7 == 1
    ensures DaysSinceASunday(2026, 10, 27) % 7 == 2
  {
    ASunday();
    LateOctober();
    hide DayNumber;
  }

  lemma LateOctober()
    ensures DayNumber(2026, 10, 25) == 739913 && DayNumber(2026, 10, 26) == 739914 && DayNumber(2026, 10, 27) == 739915
  {
  }

  // ----- what a search must answer

  ghost predicate LeastAfter(c: Compiled, w: Wall, v: Wall)
    requires c.Valid()
  {
    c.Matches(v) && Lt(w, v) && forall u :: c.Matches(u) && Lt(w, u) ==> !Lt(u, v)
  }

  ghost predicate GreatestBefore(c: Compiled, w: Wall, v: Wall)
    requires c.Valid()
  {
    c.Matches(v) && Lt(v, w) && forall u :: c.Matches(u) && Lt(u, w) ==> !Lt(v, u)
  }

  predicate SameHour(a: Wall, b: Wall) {
    a.y == b.y && a.mo == b.mo && a.d == b.d && a.h == b.h
  }

  predicate WithinReachAfter(w: Wall, v: Wall) {
    v.y <= w.y + 6 && (v.y <= 9999 || SameHour(w, v))
  }

  predicate WithinReachBefore(w: Wall, v: Wall) {
    v.y >= w.y - 6 && (v.y >= 1 || SameHour(w, v))
  }

  ghost predicate IsNextAfter(c: Compiled, w: Wall, r: Option<Wall>)
    requires c.Valid()
  {
    match r
    case Some(v) => LeastAfter(c, w, v) && WithinReachAfter(w, v)
    case None => forall u :: c.Matches(u) && Lt(w, u) ==> !WithinReachAfter(w, u)
  }

  ghost predicate IsPrevBefore(c: Compiled, w: Wall, r: Option<Wall>)
    requires c.Valid()
  {
    match r
    case Some(v) => GreatestBefore(c, w, v) && WithinReachBefore(w, v)
    case None => forall u :: c.Matches(u) && Lt(u, w) ==> !WithinReachBefore(w, u)
  }

  // ----- days of one month

  lemma DaysOutside(c: Compiled, y: int, mo: int)
    requires c.Valid() && 1 <= mo <= 12
    ensures forall d :: d < 1 || d > LastDay(y, mo) ==> !c.DayMatches(y, mo, d)
    ensures c.domWild && c.dowWild ==> forall d :: 1 <= d <= LastDay(y, mo) ==> c.DayMatches(y, mo, d)
  {
  }

  /** With every weekday listed a day must be listed itself. */
  lemma DayNotListed(c: Compiled, y: int, mo: int, d: int)
    requires c.Valid() && 1 <= mo <= 12 && !c.domWild && c.dowWild && d !in c.doms
    ensures !c.DayMatches(y, mo, d)
  {
    ContainsIsMembership(c.doms, d);
  }

  method NextDayIn(c: Compiled, y: int, mo: int, d: int) returns (r: int, ok: bool)
    requires c.Valid() && 1 <= mo <= 12 && 1 <= d
    ensures ok ==> d <= r && c.DayMatches(y, mo, r) && forall dd :: d <= dd < r ==> !c.DayMatches(y, mo, dd)
    ensures !ok ==> forall dd :: d <= dd ==> !c.DayMatches(y, mo, dd)
  {
    hide Compiled.DayMatches;
    DaysOutside(c, y, mo);
    var last := LastDay(y, mo);
    if c.domWild && c.dowWild {
      if d <= last {
        return d, true;
      }
      return 0, false;
    }
    if c.domWild || !c.dowWild {
      var dd := d;
      while dd <= last
        invariant d <= dd
        invariant forall e :: d <= e < dd ==> !c.DayMatches(y, mo, e)
      {
        if c.DayMatches(y, mo, dd) {
          return dd, true;
        }
        dd := dd + 1;
      }
      return 0, false;
    }
    var dd := d;
    while true
      invariant d <= dd
      invariant forall e :: d <= e < dd ==> !c.DayMatches(y, mo, e)
      decreases last + 1 - dd
    {
      var i := SearchInts(c.doms, dd);
      if i >= |c.doms| || c.doms[i] > last {
        forall e | dd <= e <= last ensures !c.DayMatches(y, mo, e) {
          DayNotListed(c, y, mo, e);
        }
        return 0, false;
      }
      var cand := c.doms[i];
      forall e | dd <= e < cand ensures !c.DayMatches(y, mo, e) {
        DayNotListed(c, y, mo, e);
      }
      if c.DayMatches(y, mo, cand) {
        return cand, true;
      }
      dd := cand + 1;
    }
  }

  method PrevDayIn(c: Compiled, y: int, mo: int, d: int) returns (r: int, ok: bool)
    requires c.Valid() && 1 <= mo <= 12 && d <= LastDay(y, mo)
    ensures ok ==> r <= d && c.DayMatches(y, mo, r) && forall dd :: r < dd <= d ==> !c.DayMatches(y, mo, dd)
    ensures !ok ==> forall dd :: dd <= d ==> !c.DayMatches(y, mo, dd)
  {
    hide Compiled.DayMatches;
    DaysOutside(c, y, mo);
    if c.domWild && c.dowWild {
      if d >= 1 {
        return d, true;
      }
      return 0, false;
    }
    if c.domWild || !c.dowWild {
      var dd := d;
      while dd >= 1
        invariant dd <= d
        invariant forall e :: dd < e <= d ==> !c.DayMatches(y, mo, e)
      {
        if c.DayMatches(y, mo, dd) {
          return dd, true;
        }
        dd := dd - 1;
      }
      return 0, false;
    }
    var dd := d;
    while true
      invariant dd <= d
      invariant forall e :: dd < e <= d ==> !c.DayMatches(y, mo, e)
      decreases dd
    {
      var i := SearchInts(c.doms, dd + 1) - 1;
      if i < 0 {
        forall e | e <= dd ensures !c.DayMatches(y, mo, e) {
          DayNotListed(c, y, mo, e);
        }
        return 0, false;
      }
      var cand := c.doms[i];
      if cand < 1 {
        return 0, false;
      }
      forall e | cand < e <= dd ensures !c.DayMatches(y, mo, e) {
        DayNotListed(c, y, mo, e);
      }
      if c.DayMatches(y, mo, cand) {
        return cand, true;
      }
      dd := cand - 1;
    }
  }

  // ----- the jumps skip no match

  ghost predicate NothingBefore(c: Compiled, w: Wall, n: Wall)
    requires c.Valid()
  {
    forall u :: c.Matches(u) && Lt(w, u) ==> !Lt(u, n)
  }

  lemma LeaveHour(c: Compiled, w: Wall)
    requires c.Valid() && Real(w)
    requires c.Matches(w.(mi := c.minutes[0])) ==> forall x :: w.mi < x ==> x !in c.minutes
    ensures NothingBefore(c, w, NextHour(w.(mi := 0)))
  {
    forall u | c.Matches(u) && Lt(w, u) ensures !Lt(u, NextHour(w.(mi := 0))) {
      VixieRule(c, u);
      VixieRule(c, w.(mi := c.minutes[0]));
    }
  }

  lemma SkipMonth(c: Compiled, w: Wall, n: Wall)
    requires c.Valid() && Real(n) && n.mi == 0 && NothingBefore(c, w, n)
    requires n.mo in c.months ==> forall d :: n.d <= d ==> !c.DayMatches(n.y, n.mo, d)
    ensures NothingBefore(c, w, CarriedDay(Wall(n.y, n.mo + 1, 1, 0, 0)))
  {
    forall u | c.Matches(u) && Lt(w, u) ensures !Lt(u, CarriedDay(Wall(n.y, n.mo + 1, 1, 0, 0))) {
      VixieRule(c, u);
    }
  }

  lemma SkipToDay(c: Compiled, w: Wall, n: Wall, d: int)
    requires c.Valid() && Real(n) && n.mi == 0 && NothingBefore(c, w, n)
    requires n.d < d && forall e :: n.d <= e < d ==> !c.DayMatches(n.y, n.mo, e)
    ensures NothingBefore(c, w, n.(d := d, h := 0))
  {
  }

  lemma SkipToHour(c: Compiled, w: Wall, n: Wall, h: int)
    requires c.Valid() && Real(n) && n.mi == 0 && NothingBefore(c, w, n)
    requires forall e :: n.h <= e < h ==> e !in c.hours
    ensures NothingBefore(c, w, n.(h := h))
  {
    forall u | c.Matches(u) && Lt(w, u) ensures !Lt(u, n.(h := h)) {
      VixieRule(c, u);
    }
  }

  lemma SkipDay(c: Compiled, w: Wall, n: Wall)
    requires c.Valid() && Ahead(c, w, n)
    requires forall e :: n.h <= e ==> e !in c.hours
    ensures var r := CarriedDay(n.(d := n.d + 1, h := 0));
            Ahead(c, w, r) && Budget(w, r) < Budget(w, n) && (r.y == n.y || (r.y == n.y + 1 && r.mo == 1))
  {
    assert n.h > 0 by { assert c.hours[0] in c.hours; }
    forall u | c.Matches(u) && Lt(w, u) ensures !Lt(u, CarriedDay(n.(d := n.d + 1, h := 0))) {
      VixieRule(c, u);
    }
  }

  lemma ArriveAt(c: Compiled, w: Wall, n: Wall)
    requires c.Valid() && Real(n) && n.mi == 0 && NothingBefore(c, w, n) && Lt(w, n)
    requires n.mo in c.months && n.h in c.hours && c.DayMatches(n.y, n.mo, n.d)
    ensures LeastAfter(c, w, n.(mi := c.minutes[0]))
  {
  }

  lemma LaterInHour(c: Compiled, w: Wall, j: nat)
    requires c.Valid() && Real(w) && j < |c.minutes| && w.mi < c.minutes[j]
    requires forall k :: 0 <= k < j ==> c.minutes[k] <= w.mi
    requires Contains(c.months, w.mo) && c.DayMatches(w.y, w.mo, w.d) && Contains(c.hours, w.h)
    ensures LeastAfter(c, w, w.(mi := c.minutes[j]))
  {
  }

  lemma OutOfReach(c: Compiled, w: Wall, n: Wall)
    requires c.Valid() && NothingBefore(c, w, n) && (n.y > w.y + 6 || n.y > 9999)
    requires Lt(w.(mi := 59), n)
    ensures IsNextAfter(c, w, None)
  {
  }

  /** How many turns are left: the months up to the year limit, and one turn for a spent day. */
  function Budget(w: Wall, n: Wall): int {
    (w.y + 7 - n.y) * 12 - n.mo + (if n.h > 0 then 1 else 0)
  }

  ghost predicate Ahead(c: Compiled, w: Wall, n: Wall)
    requires c.Valid()
  {
    Real(n) && n.mi == 0 && Lt(w.(mi := 59), n) && NothingBefore(c, w, n)
  }

  /** The first half of a turn: settle on the next matching day of this month, or jump to the next. */
  method SettleDay(c: Compiled, w: Wall, n: WallCursor) returns (ok: bool)
    requires c.Valid() && Ahead(c, w, n.Value())
    modifies n
    ensures Ahead(c, w, n.Value())
    ensures ok ==> n.mo in c.months && c.DayMatches(n.y, n.mo, n.d)
    ensures ok ==> n.y == old(n.y) && n.mo == old(n.mo) && (n.h == old(n.h) || n.h == 0)
    ensures !ok ==> n.h == 0 && n.y * 12 + n.mo == old(n.y * 12 + n.mo) + 1
  {
    var nd, found := 0, false;
    if Contains(c.months, n.mo) {
      nd, found := NextDayIn(c, n.y, n.mo, n.d);
    }
    if !found {
      SkipMonth(c, w, n.Value());
      n.d, n.h := 1, 0;
      n.mo := n.mo + 1;
      n.CarryDay();
      return false;
    }
    if nd != n.d {
      SkipToDay(c, w, n.Value(), nd);
      n.d := nd;
      n.h := 0;
    }
    return true;
  }

  /** One turn of phase two: arrive at the answer, or move on to a later month or day. */
  method TurnForward(c: Compiled, w: Wall, n: WallCursor) returns (arrived: bool)
    requires c.Valid() && Ahead(c, w, n.Value())
    modifies n
    ensures arrived ==> LeastAfter(c, w, n.Value()) && n.y == old(n.y)
    ensures !arrived ==> Ahead(c, w, n.Value())
    ensures !arrived ==> n.y == old(n.y) || (n.y == old(n.y) + 1 && n.mo == 1)
    ensures !arrived ==> Budget(w, n.Value()) < old(Budget(w, n.Value()))
  {
    hide CarriedDay, Compiled.Matches, Compiled.DayMatches;
    var settled := SettleDay(c, w, n);
    if !settled {
      return false;
    }
    if !Contains(c.hours, n.h) {
      var i := SearchInts(c.hours, n.h);
      if i < |c.hours| {
        SkipToHour(c, w, n.Value(), c.hours[i]);
        n.h := c.hours[i];
      } else {
        SkipDay(c, w, n.Value());
        n.d := n.d + 1;
        n.h := 0;
        n.CarryDay();
        return false;
      }
    }
    ArriveAt(c, w, n.Value());
    n.mi := c.minutes[0];
    return true;
  }

  /** Phase two: roll into a fresh hour, then jump until a turn arrives or the horizon is passed. The
      search ends within 90 turns whatever the schedule: the iteration guard is never the answer. */
  method RollForward(c: Compiled, w: Wall) returns (v: Wall, ok: bool, ghost turns: int)
    requires c.Valid() && Real(w)
    requires c.Matches(w.(mi := c.minutes[0])) ==> forall x :: w.mi < x ==> x !in c.minutes
    ensures IsNextAfter(c, w, if ok then Some(v) else None)
    ensures 0 <= turns < 90
  {
    var n := new WallCursor(w);
    n.mi := 0;
    n.h := n.h + 1;
    n.CarryFromHour();
    LeaveHour(c, w);

    var k := 0;
    while k < MAX_ITERATIONS
      invariant Ahead(c, w, n.Value())
      invariant n.y <= w.y + 6 || (n.y == w.y + 7 && n.mo == 1)
      invariant k + Budget(w, n.Value()) <= 84
    {
      if n.y > w.y + 6 || n.y > 9999 {
        OutOfReach(c, w, n.Value());
        return Wall(0, 0, 0, 0, 0), false, k;
      }
      var arrived := TurnForward(c, w, n);
      if arrived {
        return n.Value(), true, k;
      }
      k := k + 1;
    }
    assert false;
    return Wall(0, 0, 0, 0, 0), false, 0;
  }

  /** The least matching tuple strictly after w, or nothing within six years. */
  method NextAfter(c: Compiled, w: Wall) returns (v: Wall, ok: bool, ghost turns: int)
    requires c.Valid() && Real(w)
    ensures IsNextAfter(c, w, if ok then Some(v) else None)
    ensures 0 <= turns < 90
  {
    if Contains(c.months, w.mo) && c.DayMatches(w.y, w.mo, w.d) && Contains(c.hours, w.h) {
      var j := SearchInts(c.minutes, w.mi + 1);
      if j < |c.minutes| {
        LaterInHour(c, w, j);
        return w.(mi := c.minutes[j]), true, 0;
      }
    }
    v, ok, turns := RollForward(c, w);
  }

  // ----- the mirror image, backward

  ghost predicate NothingPast(c: Compiled, w: Wall, n: Wall)
    requires c.Valid()
  {
    forall u :: c.Matches(u) && Lt(u, w) ==> !Lt(n, u)
  }

  ghost predicate Behind(c: Compiled, w: Wall, n: Wall)
    requires c.Valid()
  {
    Real(n) && n.mi == 59 && Lt(n, w.(mi := 0)) && NothingPast(c, w, n)
  }

  lemma LeaveHourBack(c: Compiled, w: Wall)
    requires c.Valid() && Real(w)
    requires c.Matches(w.(mi := c.minutes[0])) ==> forall x :: x < w.mi ==> x !in c.minutes
    ensures NothingPast(c, w, PrevHour(w.(mi := 59)))
  {
    forall u | c.Matches(u) && Lt(u, w) ensures !Lt(PrevHour(w.(mi := 59)), u) {
      VixieRule(c, u);
      VixieRule(c, w.(mi := c.minutes[0]));
    }
  }

  lemma SkipMonthBack(c: Compiled, w: Wall, n: Wall)
    requires c.Valid() && Real(n) && n.mi == 59 && NothingPast(c, w, n)
    requires n.mo in c.months ==> forall d :: d <= n.d ==> !c.DayMatches(n.y, n.mo, d)
    ensures NothingPast(c, w, MonthBefore(n))
  {
  }

  lemma SkipBackToDay(c: Compiled, w: Wall, n: Wall, d: int)
    requires c.Valid() && Real(n) && n.mi == 59 && NothingPast(c, w, n)
    requires d < n.d && forall e :: d < e <= n.d ==> !c.DayMatches(n.y, n.mo, e)
    ensures NothingPast(c, w, n.(d := d, h := 23))
  {
  }

  lemma SkipBackToHour(c: Compiled, w: Wall, n: Wall, h: int)
    requires c.Valid() && Real(n) && n.mi == 59 && NothingPast(c, w, n)
    requires forall e :: h < e <= n.h ==> e !in c.hours
    ensures NothingPast(c, w, n.(h := h))
  {
    forall u | c.Matches(u) && Lt(u, w) ensures !Lt(n.(h := h), u) {
      VixieRule(c, u);
    }
  }

  lemma SkipDayBack(c: Compiled, w: Wall, n: Wall)
    requires c.Valid() && Behind(c, w, n)
    requires forall e :: e <= n.h ==> e !in c.hours
    ensures var r := BorrowedDay(n.(d := n.d - 1, h := 23));
            Behind(c, w, r) && BudgetBack(w, r) < BudgetBack(w, n) && (r.y == n.y || (r.y == n.y - 1 && r.mo == 12))
  {
    assert n.h < 23 by { assert c.hours[0] in c.hours; }
    forall u | c.Matches(u) && Lt(u, w) ensures !Lt(BorrowedDay(n.(d := n.d - 1, h := 23)), u) {
      VixieRule(c, u);
    }
  }

  lemma ArriveBackAt(c: Compiled, w: Wall, n: Wall)
    requires c.Valid() && Real(n) && n.mi == 59 && NothingPast(c, w, n) && Lt(n, w)
    requires n.mo in c.months && n.h in c.hours && c.DayMatches(n.y, n.mo, n.d)
    ensures GreatestBefore(c, w, n.(mi := c.minutes[|c.minutes| - 1]))
  {
  }

  lemma EarlierInHour(c: Compiled, w: Wall, j: nat)
    requires c.Valid() && Real(w) && j < |c.minutes| && c.minutes[j] < w.mi
    requires forall k :: j < k < |c.minutes| ==> w.mi <= c.minutes[k]
    requires Contains(c.months, w.mo) && c.DayMatches(w.y, w.mo, w.d) && Contains(c.hours, w.h)
    ensures GreatestBefore(c, w, w.(mi := c.minutes[j]))
  {
  }

  lemma OutOfReachBack(c: Compiled, w: Wall, n: Wall)
    requires c.Valid() && NothingPast(c, w, n) && (n.y < w.y - 6 || n.y < 1)
    requires Lt(n, w.(mi := 0))
    ensures IsPrevBefore(c, w, None)
  {
  }

  function BudgetBack(w: Wall, n: Wall): int {
    (n.y - w.y + 7) * 12 + n.mo - 13 + (if n.h < 23 then 1 else 0)
  }

  method SettleDayBack(c: Compiled, w: Wall, n: WallCursor) returns (ok: bool)
    requires c.Valid() && Behind(c, w, n.Value())
    modifies n
    ensures Behind(c, w, n.Value())
    ensures ok ==> n.mo in c.months && c.DayMatches(n.y, n.mo, n.d)
    ensures ok ==> n.y == old(n.y) && n.mo == old(n.mo) && (n.h == old(n.h) || n.h == 23)
    ensures !ok ==> n.h == 23 && n.y * 12 + n.mo == old(n.y * 12 + n.mo) - 1
  {
    var pd, found := 0, false;
    if Contains(c.months, n.mo) {
      pd, found := PrevDayIn(c, n.y, n.mo, n.d);
    }
    if !found {
      SkipMonthBack(c, w, n.Value());
      n.RetreatMonth();
      return false;
    }
    if pd != n.d {
      SkipBackToDay(c, w, n.Value(), pd);
      n.d := pd;
      n.h := 23;
    }
    return true;
  }

  method TurnBackward(c: Compiled, w: Wall, n: WallCursor) returns (arrived: bool)
    requires c.Valid() && Behind(c, w, n.Value()) && n.y >= 1
    modifies n
    ensures arrived ==> GreatestBefore(c, w, n.Value()) && n.y == old(n.y)
    ensures !arrived ==> Behind(c, w, n.Value())
    ensures !arrived ==> n.y == old(n.y) || (n.y == old(n.y) - 1 && n.mo == 12)
    ensures !arrived ==> BudgetBack(w, n.Value()) < old(BudgetBack(w, n.Value()))
  {
    hide BorrowedDay, Compiled.Matches, Compiled.DayMatches;
    var settled := SettleDayBack(c, w, n);
    if !settled {
      return false;
    }
    if !Contains(c.hours, n.h) {
      var i := SearchInts(c.hours, n.h + 1) - 1;
      if i >= 0 {
        SkipBackToHour(c, w, n.Value(), c.hours[i]);
        n.h := c.hours[i];
      } else {
        SkipDayBack(c, w, n.Value());
        n.d := n.d - 1;
        n.h := 23;
        n.BorrowDay();
        return false;
      }
    }
    ArriveBackAt(c, w, n.Value());
    n.mi := c.minutes[|c.minutes| - 1];
    return true;
  }

  method RollBackward(c: Compiled, w: Wall) returns (v: Wall, ok: bool, ghost turns: int)
    requires c.Valid() && Real(w) && w.y >= 1
    requires c.Matches(w.(mi := c.minutes[0])) ==> forall x :: x < w.mi ==> x !in c.minutes
    ensures IsPrevBefore(c, w, if ok then Some(v) else None)
    ensures 0 <= turns < 90
  {
    var n := new WallCursor(w);
    n.mi := 59;
    n.h := n.h - 1;
    n.BorrowToHour();
    LeaveHourBack(c, w);

    var k := 0;
    while k < MAX_ITERATIONS
      invariant Behind(c, w, n.Value())
      invariant n.y >= w.y - 6 || (n.y == w.y - 7 && n.mo == 12)
      invariant k + BudgetBack(w, n.Value()) <= 84
    {
      if n.y < w.y - 6 || n.y < 1 {
        OutOfReachBack(c, w, n.Value());
        return Wall(0, 0, 0, 0, 0), false, k;
      }
      var arrived := TurnBackward(c, w, n);
      if arrived {
        return n.Value(), true, k;
      }
      k := k + 1;
    }
    assert false;
    return Wall(0, 0, 0, 0, 0), false, 0;
  }

  /** The greatest matching tuple strictly before w, or nothing within six years. */
  method PrevBefore(c: Compiled, w: Wall) returns (v: Wall, ok: bool, ghost turns: int)
    requires c.Valid() && Real(w) && w.y >= 1
    ensures IsPrevBefore(c, w, if ok then Some(v) else None)
    ensures 0 <= turns < 90
  {
    if Contains(c.months, w.mo) && c.DayMatches(w.y, w.mo, w.d) && Contains(c.hours, w.h) {
      var j := SearchInts(c.minutes, w.mi) - 1;
      if j >= 0 {
        EarlierInHour(c, w, j);
        return w.(mi := c.minutes[j]), true, 0;
      }
    }
    v, ok, turns := RollBackward(c, w);
  }

  // ----- the two searches undo each other

  /** A search has one answer. */
  lemma NextIsUnique(c: Compiled, w: Wall, r: Option<Wall>, s: Option<Wall>)
    requires c.Valid() && IsNextAfter(c, w, r) && IsNextAfter(c, w, s)
    ensures r == s
  {
  }

  /** prevBefore is the exact inverse of nextAfter on the matching tuples of the supported era. */
  lemma PrevInvertsNext(c: Compiled, w: Wall, v: Wall)
    requires c.Valid() && c.Matches(w) && c.Matches(v)
    requires 1 <= w.y <= 9999 && 1 <= v.y <= 9999
    ensures IsNextAfter(c, w, Some(v)) <==> IsPrevBefore(c, v, Some(w))
  {
  }

  /** Step one minute at a time from m and test each: the reference the jumps must agree with. */
  ghost function FirstOf(p: int -> bool, m: int, end: int): Option<int>
    decreases end - m
  {
    if m >= end then None else if p(m) then Some(m) else FirstOf(p, m + 1, end)
  }

  lemma {:induction false} FirstOfIsFirst(p: int -> bool, m: int, end: int)
    ensures match FirstOf(p, m, end)
            case None => forall x :: m <= x < end ==> !p(x)
            case Some(k) => m <= k < end && p(k) && forall x :: m <= x < k ==> !p(x)
    decreases end - m
  {
    if m < end && !p(m) {
      FirstOfIsFirst(p, m + 1, end);
    }
  }

  ghost function ScanForward(c: Compiled, m: int, end: int): Option<Wall>
    requires c.Valid()
  {
    match FirstOf(x => c.Valid() && c.Matches(CivilOf(x)), m, end)
    case None => None
    case Some(k) => Some(CivilOf(k))
  }

  lemma ScanFinds(c: Compiled, m: int, end: int, u: Wall)
    requires c.Valid() && c.Matches(u) && Real(u) && m <= MinuteNumber(u) < end
    ensures ScanForward(c, m, end).Some? && !Lt(u, ScanForward(c, m, end).value)
  {
    hide CivilOf, MinuteNumber, Compiled.Matches;
    var p := x => c.Valid() && c.Matches(CivilOf(x));
    FirstOfIsFirst(p, m, end);
    CivilOfInverse(u);
    assert p(MinuteNumber(u));
    LtMinutes(u, ScanForward(c, m, end).value);
  }

  lemma ScanStays(c: Compiled, m: int, end: int)
    requires c.Valid()
    ensures var r := ScanForward(c, m, end);
            r.Some? ==> c.Matches(r.value) && Real(r.value) && m <= MinuteNumber(r.value) < end
  {
    FirstOfIsFirst(x => c.Valid() && c.Matches(CivilOf(x)), m, end);
  }

  /** Up to year 9999, jumping over field sets answers exactly what a minute by minute scan to the
      end of the sixth year answers. */
  lemma SearchIsScan(c: Compiled, w: Wall)
    requires c.Valid() && Real(w) && w.y <= 9999
    ensures var limit := if w.y + 6 <= 9999 then w.y + 6 else 9999;
            IsNextAfter(c, w, ScanForward(c, MinuteNumber(w) + 1, MinuteNumber(Wall(limit + 1, 1, 1, 0, 0))))
  {
    hide CivilOf, MinuteNumber, Compiled.Matches;
    var limit := if w.y + 6 <= 9999 then w.y + 6 else 9999;
    var edge := Wall(limit + 1, 1, 1, 0, 0);
    var r := ScanForward(c, MinuteNumber(w) + 1, MinuteNumber(edge));
    ScanStays(c, MinuteNumber(w) + 1, MinuteNumber(edge));
    if r.Some? {
      LtMinutes(w, r.value);
      LtMinutes(r.value, edge);
    }
    forall u | c.Matches(u) && Lt(w, u) && u.y <= limit
      ensures r.Some? && !Lt(u, r.value)
    {
      VixieRule(c, u);
      LtMinutes(w, u);
      LtMinutes(u, edge);
      ScanFinds(c, MinuteNumber(w) + 1, MinuteNumber(edge), u);
    }
  }
}
