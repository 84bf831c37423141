/** What the search horizon of internal/cronx/iter.go lets Next and Prev answer: a leap day four years off, and
    not the one eight years off around a century. */
module LeapDays {
  import opened Calendar
  import FieldSets
  import opened Search
  import opened Zone
  import opened Iterate
  import opened Windows

  /** "0 0 29 2 *" */
  function EveryLeapDay(): (c: Compiled)
    ensures c.Valid()
  {
    Compiled([0], [0], [29], [2], UpFrom(0, 6), false, true)
  }

  function LeapDay(y: int): Wall {
    Wall(y, 2, 29, 0, 0)
  }

  lemma LeapDayMatches(w: Wall)
    ensures EveryLeapDay().Matches(w) <==> IsLeap(w.y) && w == LeapDay(w.y)
  {
    var c := EveryLeapDay();
    VixieRule(c, w);
    FieldSets.FullIffWide(c.dows, 0, 6);
    assert RealDate(w.y, w.mo, w.d) ==> 0 <= Weekday(w.y, w.mo, w.d) <= 6;
  }

  /** The leap year that follows: four years on, or eight across a century that is no leap year. */
  lemma NextLeapYear(y: int)
    requires IsLeap(y)
    ensures IsLeap(y + 4) || IsLeap(y + 8)
    ensures !IsLeap(y + 1) && !IsLeap(y + 2) && !IsLeap(y + 3) && !IsLeap(y + 5) && !IsLeap(y + 6) && !IsLeap(y + 7)
  {
  }

  lemma LeapDaysApart(y: int)
    requires IsLeap(y)
    ensures IsLeap(y + 4) ==> MinuteNumber(LeapDay(y + 4)) - MinuteNumber(LeapDay(y)) == 1461 * 1440
    ensures !IsLeap(y + 4) && IsLeap(y + 8) ==>
              MinuteNumber(LeapDay(y + 8)) - MinuteNumber(LeapDay(y)) == 2921 * 1440
  {
    NextLeapYear(y);
    YearsOn(y);
    YearsOn(y + 4);
  }

  lemma YearsOn(y: int)
    ensures DaysBeforeYear(y + 4) - DaysBeforeYear(y)
         == 1460 + Leaps(y) + Leaps(y + 1) + Leaps(y + 2) + Leaps(y + 3)
  {
    YearLength(y);
    YearLength(y + 1);
    YearLength(y + 2);
    YearLength(y + 3);
  }

  function Leaps(y: int): int {
    if IsLeap(y) then 1 else 0
  }

  /** The emission of a leap day in a zone without shifts. */
  function LeapDayAt(off: int, y: int): Occurrence {
    Occurrence(LeapDay(y), MinuteNumber(LeapDay(y)) - off, false, NoReason)
  }

  lemma LeapDayIsEmitted(z: Zone, off: int, p: Policy, x: Occurrence)
    requires Valid(z) && Constant(z, off)
    ensures Emits(z, p, EveryLeapDay(), x) <==> IsLeap(x.slot.y) && x == LeapDayAt(off, x.slot.y)
  {
    hide MinuteNumber, Compiled.Matches, DateContract, TableRow;
    LeapDayMatches(x.slot);
    if Real(x.slot) {
      var l := MinuteNumber(x.slot);
      assert Renders(z, l - off, l);
      assert Once(z, l, l - off);
      RowIsMarked(z, p, l, EmissionsOf(z, p, l));
      assert EmissionsOf(z, p, l) == [Emission(l - off, false, NoReason)];
    }
  }

  /** From a leap day the next one comes after it and before any later. */
  lemma NextLeapDayIsLeast(z: Zone, off: int, p: Policy, y: int, next: int)
    requires Valid(z) && Constant(z, off) && IsLeap(y) && IsLeap(next) && y < next
    requires forall k :: y < k < next ==> !IsLeap(k)
    ensures LeastAbove(z, p, EveryLeapDay(), CursorKey(z, LeapDayAt(off, y).at * TICKS), LeapDayAt(off, next))
  {
    hide MinuteNumber, Compiled.Matches, DateContract, TableRow, Regular, Emits, EmissionsOf, WallOrdinal, CivilOf;
    var u := LeapDayAt(off, y).at * TICKS;
    var o := LeapDayAt(off, next);
    LeapDayIsEmitted(z, off, p, o);
    assert Local(z, u / TICKS) == MinuteNumber(LeapDay(y));
    CivilOfInverse(LeapDay(y));
    AboveCursor(z, u, o);
    forall x | Emits(z, p, EveryLeapDay(), x) && KeyLess(CursorKey(z, u), KeyOf(x))
      ensures !KeyLess(KeyOf(x), KeyOf(o))
    {
      LeapDayIsEmitted(z, off, p, x);
      AboveCursor(z, u, x);
      Slots(x, o);
    }
  }

  /** Next answers the leap day four years off. */
  method LeapDayIsAnswered(z: Zone, ghost off: int, p: Policy, u: int, ghost y: int) returns (o: Occurrence, ok: bool)
    requires Valid(z) && Constant(z, off) && IsLeap(y) && IsLeap(y + 4) && y + 4 <= 9999
    requires u == LeapDayAt(off, y).at * TICKS
    ensures ok && o.slot == Wall(y + 4, 2, 29, 0, 0) && !o.skipped
  {
    hide MinuteNumber, Compiled.Matches, DateContract, TableRow, Regular, Emits, EmissionsOf, WallOrdinal, CivilOf;
    hide LeastAbove;
    NextLeapYear(y);
    NextLeapDayIsLeast(z, off, p, y, y + 4);
    LeapDaysApart(y);
    ghost var examined;
    o, ok, examined := CronNext(z, p, EveryLeapDay(), u);
    assert NextMayAnswer(u, LeapDayAt(off, y + 4));
    LeastIsUnique(z, p, EveryLeapDay(), CursorKey(z, u), o, LeapDayAt(off, y + 4));
    LeastIsEmitted(z, p, EveryLeapDay(), CursorKey(z, u), o);
    LeapDayIsEmitted(z, off, p, o);
  }

  lemma LeastIsEmitted(z: Zone, p: Policy, c: Compiled, k: Key, o: Occurrence)
    requires Valid(z) && c.Valid() && LeastAbove(z, p, c, k, o)
    ensures Emits(z, p, c, o)
  {
  }

  /** Across a century that is no leap year Next answers nothing, though the leap day eight years off exists. */
  method LeapDayAcrossCentury(z: Zone, ghost off: int, p: Policy, u: int, ghost y: int)
    returns (o: Occurrence, ok: bool)
    requires Valid(z) && Constant(z, off) && IsLeap(y) && !IsLeap(y + 4)
    requires u == LeapDayAt(off, y).at * TICKS
    ensures !ok
  {
    hide MinuteNumber, Compiled.Matches, DateContract, TableRow, Regular, Emits, EmissionsOf, WallOrdinal, CivilOf;
    hide LeastAbove;
    NextLeapYear(y);
    NextLeapDayIsLeast(z, off, p, y, y + 8);
    LeapDaysApart(y);
    ghost var examined;
    o, ok, examined := CronNext(z, p, EveryLeapDay(), u);
    if ok {
      LeastIsUnique(z, p, EveryLeapDay(), CursorKey(z, u), o, LeapDayAt(off, y + 8));
    }
  }
}
