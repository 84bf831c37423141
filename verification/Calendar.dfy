/** The proleptic Gregorian calendar under internal/cronx/iter.go: wall clock tuples, the count of
    absolute minutes that is the reference for "time passes", and the packed ordinal the iterator
    compares instead. */
module Calendar {
  import opened Integers

  /** A minute aligned wall clock tuple. */
  datatype Wall = Wall(y: int, mo: int, d: int, h: int, mi: int)

  predicate IsLeap(y: int) {
    y % 4 == 0 && (y % 100 != 0 || y % 400 == 0)
  }

  function LastDay(y: int, mo: int): int
    requires 1 <= mo <= 12
  {
    if mo == 2 then (if IsLeap(y) then 29 else 28)
    else if mo == 4 || mo == 6 || mo == 9 || mo == 11 then 30
    else 31
  }

  predicate RealDate(y: int, mo: int, d: int) {
    1 <= mo <= 12 && 1 <= d <= LastDay(y, mo)
  }

  /** The tuple names a minute of a date that exists. */
  predicate Real(w: Wall) {
    RealDate(w.y, w.mo, w.d) && 0 <= w.h <= 23 && 0 <= w.mi <= 59
  }

  // ----- absolute time, counted from 0001-01-01 00:00

  function DaysBeforeYear(y: int): int {
    365 * (y - 1) + (y - 1) / 4 - (y - 1) / 100 + (y - 1) / 400
  }

  function DaysBeforeMonth(y: int, mo: int): int
    requires 1 <= mo <= 13
  {
    [0, 31, 59, 90, 120, 151, 181, 212, 243, 273, 304, 334, 365][mo - 1] + (if mo > 2 && IsLeap(y) then 1 else 0)
  }

  // Month 13 is read as January of the year after, the form a month overflow takes before its carry.
  function DayNumber(y: int, mo: int, d: int): int
    requires 1 <= mo <= 13
  {
    DaysBeforeYear(y) + DaysBeforeMonth(y, mo) + d - 1
  }

  /** Sunday is 0. 0001-01-01 was a Monday. */
  function Weekday(y: int, mo: int, d: int): int
    requires 1 <= mo <= 12
  {
    (DayNumber(y, mo, d) + 1) % 7
  }

  function HourNumber(w: Wall): int
    requires 1 <= w.mo <= 13
  {
    DayNumber(w.y, w.mo, w.d) * 24 + w.h
  }

  function MinuteNumber(w: Wall): int
    requires 1 <= w.mo <= 12
  {
    HourNumber(w) * 60 + w.mi
  }

  // ----- the three orders on tuples

  predicate DateLt(y: int, mo: int, d: int, y': int, mo': int, d': int) {
    y < y' || (y == y' && (mo < mo' || (mo == mo' && d < d')))
  }

  predicate Lt(a: Wall, b: Wall) {
    DateLt(a.y, a.mo, a.d, b.y, b.mo, b.d)
    || (a.y == b.y && a.mo == b.mo && a.d == b.d && (a.h < b.h || (a.h == b.h && a.mi < b.mi)))
  }

  function WallOrdinal(w: Wall): int {
    (((w.y * 16 + w.mo) * 32 + w.d) * 24 + w.h) * 60 + w.mi
  }

  function WallPointOf(ord: int): Wall {
    var o1 := QuoTrunc(ord, 60);
    var o2 := QuoTrunc(o1, 24);
    var o3 := QuoTrunc(o2, 32);
    Wall(QuoTrunc(o3, 16), RemTrunc(o3, 16), RemTrunc(o2, 32), RemTrunc(o1, 24), RemTrunc(ord, 60))
  }

  // ----- years and months of a day number

  lemma DivStep(y: int, n: int)
    requires n == 4 || n == 100 || n == 400
    ensures y / n == (y - 1) / n + (if y % n == 0 then 1 else 0)
  {
  }

  lemma HundredIsFours(y: int)
    requires y % 100 == 0
    ensures y % 4 == 0
  {
  }

  lemma FourHundredIsHundreds(y: int)
    requires y % 400 == 0
    ensures y % 100 == 0
  {
  }

  lemma YearLength(y: int)
    ensures DaysBeforeYear(y + 1) == DaysBeforeYear(y) + DaysBeforeMonth(y, 13)
  {
    DivStep(y, 4);
    DivStep(y, 100);
    DivStep(y, 400);
    if y % 400 == 0 { FourHundredIsHundreds(y); }
    if y % 100 == 0 { HundredIsFours(y); }
  }

  lemma YearsMonotone(a: int, b: int)
    requires a < b
    ensures DaysBeforeYear(a) + DaysBeforeMonth(a, 13) <= DaysBeforeYear(b)
  {
    YearLength(a);
  }

  lemma MonthLength(y: int, mo: int)
    requires 1 <= mo <= 12
    ensures DaysBeforeMonth(y, mo + 1) == DaysBeforeMonth(y, mo) + LastDay(y, mo)
  {
  }

  lemma MonthsMonotone(y: int, a: int, b: int)
    requires 1 <= a < b <= 13
    ensures DaysBeforeMonth(y, a) + LastDay(y, a) <= DaysBeforeMonth(y, b)
  {
  }

  function YearOfDay(n: int): (y: int)
    ensures DaysBeforeYear(y) <= n < DaysBeforeYear(y + 1)
  {
    var guess := 400 * n / 146097 + 1;
    if n < DaysBeforeYear(guess) then guess - 1
    else if n >= DaysBeforeYear(guess + 1) then guess + 1
    else guess
  }

  function MonthOfDay(y: int, k: int, mo: int): (r: int)
    requires 1 <= mo <= 12
    requires DaysBeforeMonth(y, mo) <= k < DaysBeforeMonth(y, 13)
    ensures mo <= r <= 12 && DaysBeforeMonth(y, r) <= k < DaysBeforeMonth(y, r + 1)
    decreases 12 - mo
  {
    if k < DaysBeforeMonth(y, mo + 1) then mo else MonthOfDay(y, k, mo + 1)
  }

  function DateOfDay(n: int): (date: (int, int, int))
    ensures RealDate(date.0, date.1, date.2) && DayNumber(date.0, date.1, date.2) == n
  {
    var y := YearOfDay(n);
    YearLength(y);
    var mo := MonthOfDay(y, n - DaysBeforeYear(y), 1);
    MonthLength(y, mo);
    (y, mo, n - DaysBeforeYear(y) - DaysBeforeMonth(y, mo) + 1)
  }

  lemma SplitMinutes(m: int)
    ensures m == ((m / 1440) * 24 + (m / 60) % 24) * 60 + m % 60
  {
  }

  /** The tuple at an absolute minute. */
  function CivilOf(m: int): (w: Wall)
    ensures Real(w) && MinuteNumber(w) == m
  {
    var (y, mo, d) := DateOfDay(m / 1440);
    SplitMinutes(m);
    Wall(y, mo, d, (m / 60) % 24, m % 60)
  }

  // ----- the orders agree on real tuples

  lemma DateOrder(y: int, mo: int, d: int, y': int, mo': int, d': int)
    requires RealDate(y, mo, d) && RealDate(y', mo', d')
    requires DateLt(y, mo, d, y', mo', d')
    ensures DayNumber(y, mo, d) < DayNumber(y', mo', d')
  {
    MonthLength(y, mo);
    if mo < 12 { MonthsMonotone(y, mo, 13); }
    if y < y' {
      YearsMonotone(y, y');
    } else if mo < mo' {
      MonthsMonotone(y, mo, mo');
    }
  }

  lemma LtMinutes(a: Wall, b: Wall)
    requires Real(a) && Real(b)
    ensures Lt(a, b) <==> MinuteNumber(a) < MinuteNumber(b)
    ensures a == b <==> MinuteNumber(a) == MinuteNumber(b)
  {
    if DateLt(a.y, a.mo, a.d, b.y, b.mo, b.d) {
      DateOrder(a.y, a.mo, a.d, b.y, b.mo, b.d);
    } else if DateLt(b.y, b.mo, b.d, a.y, a.mo, a.d) {
      DateOrder(b.y, b.mo, b.d, a.y, a.mo, a.d);
    }
  }

  /** wallOrdinal embeds calendar order strictly: ordinals compare exactly as minutes of time do. */
  lemma OrdinalEmbedsTime(a: Wall, b: Wall)
    requires Real(a) && Real(b)
    ensures WallOrdinal(a) < WallOrdinal(b) <==> MinuteNumber(a) < MinuteNumber(b)
    ensures WallOrdinal(a) == WallOrdinal(b) <==> a == b
  {
    LtMinutes(a, b);
    LtMinutes(b, a);
  }

  lemma CivilOfInverse(w: Wall)
    requires Real(w)
    ensures CivilOf(MinuteNumber(w)) == w
  {
    LtMinutes(CivilOf(MinuteNumber(w)), w);
  }

  /** The decode is exact precisely from year 0 on: below it Go's truncating remainders go negative. */
  lemma DecodeExactIffNonNegativeYear(w: Wall)
    requires Real(w)
    ensures WallPointOf(WallOrdinal(w)) == w <==> w.y >= 0
  {
  }

  /** The first minute of year -1 comes back with a negative month. */
  lemma DecodeFailsBeforeYearZero()
    ensures WallPointOf(WallOrdinal(Wall(-1, 1, 1, 0, 0))) == Wall(0, -14, -31, 0, 0)
  {
  }
}
