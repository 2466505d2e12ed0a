/**
 * The closed-form conversion from a day number to a calendar date, against the calendar itself:
 * the leap rule in Appendix C of RFC 3339 and the month lengths in section 5.7 of RFC 3339,
 * walked one day at a time.
 */
module Calendar {
  import opened Words

  datatype Date = Date(year: int, month: int, day: int)

  const EPOCH := Date(1970, 1, 1)

  // ---------------------------------------------------------------- the calendar

  predicate IsLeap(year: int) {
    year % 4 == 0 && (year % 100 != 0 || year % 400 == 0)
  }

  function DaysInMonth(year: int, month: int): int
    requires 1 <= month <= 12
  {
    if month == 2 then (if IsLeap(year) then 29 else 28)
    else if month == 4 || month == 6 || month == 9 || month == 11 then 30
    else 31
  }

  predicate Valid(d: Date) {
    1 <= d.month <= 12 && 1 <= d.day <= DaysInMonth(d.year, d.month)
  }

  function Next(d: Date): (r: Date)
    requires Valid(d)
    ensures Valid(r)
  {
    if d.day < DaysInMonth(d.year, d.month) then Date(d.year, d.month, d.day + 1)
    else if d.month < 12 then Date(d.year, d.month + 1, 1)
    else Date(d.year + 1, 1, 1)
  }

  /** The date n days on. */
  function DaysOn(d: Date, n: nat): (r: Date)
    requires Valid(d)
    ensures Valid(r)
    decreases n
  {
    if n == 0 then d else DaysOn(Next(d), n - 1)
  }

  // ---------------------------------------------------------------- the closed form

  /** Days since 1970-01-01 to (year, month, day).  `/` and `%` here are div_euclid and rem_euclid. */
  function CivilFromDays(days: int): Date {
    var z := days + 719468;
    var era := z / 146097;
    var doe := z % 146097;
    var yoe := YearOfEra(doe);
    var y := yoe + era * 400;
    var doy := doe - (365 * yoe + yoe / 4 - yoe / 100);
    MonthAndDay(y, doy)
  }

  /** The second half of it: day `doy` of the year that starts in March of year y. */
  function MonthAndDay(y: int, doy: int): Date {
    var mp := (5 * doy + 2) / 153;
    var d := doy - (153 * mp + 2) / 5 + 1;
    var m := if mp < 10 then mp + 3 else mp - 9;
    Date(if m <= 2 then y + 1 else y, m, d)
  }

  function YearOfEra(doe: int): int {
    Corrected(doe) / 365
  }

  /** The day of the era with its leap days taken out, as far as the division by 365 can tell. */
  function Corrected(doe: int): int {
    doe - doe / 1460 + doe / 36524 - doe / 146096
  }

  // ---------------------------------------------------------------- years that start in March

  /** Days of the era before the year that starts in March of era year `yoe`. */
  function YearStart(yoe: int): int {
    365 * yoe + yoe / 4 - yoe / 100
  }

  /** Length of that year, which ends with the February of the next. */
  function YearLength(year: int): int {
    if IsLeap(year + 1) then 366 else 365
  }

  /** Last day of the era that belongs to year `yoe`; the last year takes the era's extra day. */
  function YearLast(yoe: int): int {
    if yoe == 399 then 146096 else YearStart(yoe + 1) - 1
  }

  lemma YearLengthInEra(yoe: int)
    requires 0 <= yoe < 400
    ensures YearLast(yoe) == YearStart(yoe) + YearLength(yoe) - 1
  {
  }

  lemma CorrectedMonotone(a: int, b: int)
    requires 0 <= a <= b
    ensures Corrected(a) <= Corrected(b)
  {
    assert a / 146096 == (a / 36524) / 4;
    assert b / 146096 == (b / 36524) / 4;
    assert b / 1460 - a / 1460 <= b - a;
  }

  lemma CorrectedAtStart(yoe: int)
    requires 0 <= yoe < 400
    ensures Corrected(YearStart(yoe)) >= 365 * yoe
  {
    var d := YearStart(yoe);
    assert d / 1460 <= yoe / 4;
    assert d / 36524 >= yoe / 100;
    assert d / 146096 == 0;
  }

  lemma CorrectedAtLast(yoe: int)
    requires 0 <= yoe < 400
    ensures Corrected(YearLast(yoe)) < 365 * (yoe + 1)
  {
    if yoe < 399 {
      var y, e := yoe + 1, YearLast(yoe);
      assert e / 1460 >= y / 4;
      assert e / 36524 <= y / 100;
    }
  }

  /** The formula finds the year the day lies in. */
  lemma YearOfEraCorrect(doe: int)
    requires 0 <= doe < 146097
    ensures 0 <= YearOfEra(doe) < 400
    ensures YearStart(YearOfEra(doe)) <= doe <= YearLast(YearOfEra(doe))
  {
    var yoe := YearOfEra(doe);
    CorrectedAtStart(0);
    CorrectedAtLast(399);
    CorrectedMonotone(0, doe);
    CorrectedMonotone(doe, 146096);
    assert 0 <= Corrected(doe) < 365 * 400;
    hide Corrected;
    assert 0 <= yoe < 400;
    if doe < YearStart(yoe) {
      assert yoe >= 1;
      CorrectedAtLast(yoe - 1);
      CorrectedMonotone(doe, YearLast(yoe - 1));
    }
    if doe > YearLast(yoe) {
      CorrectedAtStart(yoe + 1);
      CorrectedMonotone(YearStart(yoe + 1), doe);
    }
  }

  /** Only one year of the era holds a given day. */
  lemma YearOfEraUnique(doe: int, yoe: int)
    requires 0 <= doe < 146097 && 0 <= yoe < 400
    requires YearStart(yoe) <= doe <= YearLast(yoe)
    ensures YearOfEra(doe) == yoe
  {
    YearOfEraCorrect(doe);
    hide YearOfEra;
  }

  // ---------------------------------------------------------------- months

  /** Days of the March-based year before month `mp` of it. */
  function MonthStart(mp: int): int {
    (153 * mp + 2) / 5
  }

  lemma MonthFound(doy: int)
    requires 0 <= doy < 366
    ensures var mp := (5 * doy + 2) / 153;
            0 <= mp < 12 && MonthStart(mp) <= doy < MonthStart(mp + 1)
  {
  }

  /** The lengths the closed form gives months are the calendar's; February takes what is left. */
  lemma MonthLengths(year: int, mp: int)
    requires 0 <= mp < 12
    ensures var m := if mp < 10 then mp + 3 else mp - 9;
            var y := if m <= 2 then year + 1 else year;
            var days := DaysInMonth(y, m);
            if mp < 11 then days == MonthStart(mp + 1) - MonthStart(mp)
            else days == YearLength(year) - MonthStart(11) && YearLength(year) < MonthStart(12)
  {
  }

  lemma MonthAndDayValid(year: int, doy: int)
    requires 0 <= doy < YearLength(year)
    ensures Valid(MonthAndDay(year, doy))
  {
    MonthFound(doy);
    MonthLengths(year, (5 * doy + 2) / 153);
    hide IsLeap;
  }

  lemma MonthUnique(doy: int, mp: int)
    requires 0 <= doy < 366 && 0 <= mp < 12 && MonthStart(mp) <= doy < MonthStart(mp + 1)
    ensures (5 * doy + 2) / 153 == mp
  {
    MonthFound(doy);
  }

  /** The day after, inside the March-based year and across its end. */
  lemma MonthAndDayNext(year: int, doy: int)
    requires 0 <= doy < YearLength(year)
    ensures Valid(MonthAndDay(year, doy))
    ensures Next(MonthAndDay(year, doy)) ==
            if doy + 1 < YearLength(year) then MonthAndDay(year, doy + 1) else MonthAndDay(year + 1, 0)
  {
    var mp := (5 * doy + 2) / 153;
    MonthAndDayValid(year, doy);
    MonthFound(doy);
    MonthLengths(year, mp);
    if doy + 1 < YearLength(year) {
      if doy + 1 < MonthStart(mp + 1) {
        MonthUnique(doy + 1, mp);
      } else {
        MonthUnique(doy + 1, mp + 1);
      }
    } else {
      assert mp == 11;
    }
    hide IsLeap;
  }

  // ---------------------------------------------------------------- day by day

  /** Where a day number falls: a March-based year and the day of it. */
  function Place(days: int): (int, int) {
    var z := days + 719468;
    var yoe := YearOfEra(z % 146097);
    (yoe + z / 146097 * 400, z % 146097 - YearStart(yoe))
  }

  lemma YearLengthPeriodic(yoe: int, era: int)
    ensures YearLength(yoe + era * 400) == YearLength(yoe)
  {
    var a, b := yoe + 1, yoe + era * 400 + 1;
    assert b == a + 4 * (era * 100) && b == a + 100 * (era * 4) && b == a + 400 * era;
    RemainderPeriodic(a, 4, era * 100);
    RemainderPeriodic(a, 100, era * 4);
    RemainderPeriodic(a, 400, era);
  }

  lemma PlaceValid(days: int)
    ensures var (year, doy) := Place(days); 0 <= doy < YearLength(year)
    ensures CivilFromDays(days) == MonthAndDay(Place(days).0, Place(days).1)
  {
    var z := days + 719468;
    var doe := z % 146097;
    var yoe := YearOfEra(doe);
    YearOfEraCorrect(doe);
    YearLengthPeriodic(yoe, z / 146097);
    YearLengthInEra(yoe);
    hide YearOfEra, YearLength;
  }

  lemma NextInEra(z: int)
    ensures z % 146097 == 146096 ==> (z + 1) / 146097 == z / 146097 + 1 && (z + 1) % 146097 == 0
    ensures z % 146097 != 146096 ==> (z + 1) / 146097 == z / 146097 && (z + 1) % 146097 == z % 146097 + 1
  {
  }

  /** The next day number is the next place. */
  lemma PlaceNext(days: int)
    ensures var (year, doy) := Place(days);
            Place(days + 1) == if doy + 1 < YearLength(year) then (year, doy + 1) else (year + 1, 0)
  {
    var z := days + 719468;
    var era, doe := z / 146097, z % 146097;
    var yoe := YearOfEra(doe);
    YearOfEraCorrect(doe);
    YearLengthPeriodic(yoe, era);
    YearLengthInEra(yoe);
    hide YearOfEra, YearLength;
    NextInEra(z);
    if doe == 146096 {
      YearOfEraUnique(doe, 399);
      YearOfEraUnique(0, 0);
    } else {
      YearOfEraUnique(doe + 1, if doe + 1 <= YearLast(yoe) then yoe else yoe + 1);
    }
  }

  /** Day 0 is the epoch, every date is valid, and consecutive day numbers are consecutive dates. */
  lemma CivilIsTheCalendar(days: int)
    ensures CivilFromDays(0) == EPOCH
    ensures Valid(CivilFromDays(days))
    ensures CivilFromDays(days + 1) == Next(CivilFromDays(days))
  {
    PlaceValid(days);
    PlaceNext(days);
    PlaceValid(days + 1);
    hide Place, CivilFromDays;
    MonthAndDayNext(Place(days).0, Place(days).1);
    hide *;
    EpochIsDayZero();
  }

  lemma EpochIsDayZero()
    ensures CivilFromDays(0) == EPOCH
  {
    QuotientUnique(719468, 146097, 4, 135080);
    YearOfEraUnique(135080, 369);
    hide YearOfEra;
  }

  /**
   * The day count.  Walking n days from the date of any day number, one day at a time, arrives at
   * the date n later; so from the epoch, day n is n steps on, and day -n is n steps before it.
   */
  lemma {:induction false} DayCount(days: int, n: nat)
    ensures Valid(CivilFromDays(days))
    ensures DaysOn(CivilFromDays(days), n) == CivilFromDays(days + n)
    decreases n
  {
    CivilIsTheCalendar(days);
    if n != 0 {
      DayCount(days + 1, n - 1);
    }
    hide CivilFromDays, Next;
  }

  // ---------------------------------------------------------------- order

  predicate Before(a: Date, b: Date) {
    || a.year < b.year
    || (a.year == b.year && (a.month < b.month || (a.month == b.month && a.day < b.day)))
  }

  /** Later day numbers are later dates; in particular no date has two day numbers. */
  lemma {:induction false} CivilIsMonotone(a: int, b: int)
    requires a < b
    ensures Before(CivilFromDays(a), CivilFromDays(b))
    decreases b - a
  {
    CivilIsTheCalendar(b - 1);
    hide CivilFromDays;
    if a < b - 1 {
      CivilIsMonotone(a, b - 1);
    }
  }

  /** The day number of a place. */
  function DayAt(year: int, doy: int): int {
    year / 400 * 146097 + YearStart(year % 400) + doy - 719468
  }

  lemma PlaceOfDayAt(year: int, doy: int)
    requires 0 <= doy < YearLength(year)
    ensures Place(DayAt(year, doy)) == (year, doy)
  {
    hide YearLength, YearOfEra, YearStart, YearLast;
    var era, yoe := year / 400, year % 400;
    var doe := YearStart(yoe) + doy;
    assert year == yoe + era * 400;
    YearLengthPeriodic(yoe, era);
    YearLengthInEra(yoe);
    YearWithinEra(yoe);
    YearOfEraUnique(doe, yoe);
    QuotientUnique(DayAt(year, doy) + 719468, 146097, era, doe);
  }

  lemma YearWithinEra(yoe: int)
    requires 0 <= yoe < 400
    ensures 0 <= YearStart(yoe) && YearLast(yoe) < 146097
  {
  }

  /** Where a date falls: month and day turned back into a March-based year and the day of it. */
  function PlaceOf(d: Date): (int, int) {
    (if d.month <= 2 then d.year - 1 else d.year,
     MonthStart(if d.month <= 2 then d.month + 9 else d.month - 3) + d.day - 1)
  }

  lemma PlaceOfDate(d: Date)
    requires Valid(d)
    ensures var (year, doy) := PlaceOf(d); 0 <= doy < YearLength(year) && MonthAndDay(year, doy) == d
  {
    var (year, doy) := PlaceOf(d);
    var mp := if d.month <= 2 then d.month + 9 else d.month - 3;
    MonthLengths(year, mp);
    hide IsLeap;
    MonthUnique(doy, mp);
  }

  function DaysFromCivil(d: Date): int {
    DayAt(PlaceOf(d).0, PlaceOf(d).1)
  }

  /** Every valid date has a day number, so dates and day numbers correspond one to one. */
  lemma EveryDateHasADay(d: Date)
    requires Valid(d)
    ensures CivilFromDays(DaysFromCivil(d)) == d
  {
    PlaceOfDate(d);
    var (year, doy) := PlaceOf(d);
    hide PlaceOf, MonthAndDay, YearLength, CivilFromDays, DayAt, Place;
    PlaceOfDayAt(year, doy);
    PlaceValid(DayAt(year, doy));
  }
}
