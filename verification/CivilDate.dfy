/**
  The build date stamp: from seconds since 1970 to a calendar date.  The arithmetic is unsigned
  and is written here on naturals, so every subtraction is shown not to underflow.
*/
module CivilDate {
  import opened Words

  datatype Date = Date(year: nat, month: nat, day: nat)

  const SECONDS_PER_DAY: nat := 86400
  const DAYS_IN_400_YEARS: nat := 146097

  // ---------------------------------------------------------------- the calendar

  predicate Leap(y: nat) { y % 4 == 0 && (y % 100 != 0 || y % 400 == 0) }

  function DaysInMonth(y: nat, m: nat): nat
  {
    if m == 2 then (if Leap(y) then 29 else 28)
    else if m == 4 || m == 6 || m == 9 || m == 11 then 30
    else 31
  }

  function Next(t: Date): Date
  {
    if t.day < DaysInMonth(t.year, t.month) then Date(t.year, t.month, t.day + 1)
    else if t.month < 12 then Date(t.year, t.month + 1, 1)
    else Date(t.year + 1, 1, 1)
  }

  /** The n-th day after 1970-01-01, counted one by one. */
  function Calendar(n: nat): Date { if n == 0 then Date(1970, 1, 1) else Next(Calendar(n - 1)) }

  // ---------------------------------------------------------------- years of an era

  /** Days of a 400-year era before its year y; years start on 1 March. */
  function Start(y: nat): nat { 365 * y + y / 4 - y / 100 }

  /** The year from 1 March of y is long when the February in it is. */
  function YearLength(y: nat): nat { if Leap(y + 1) then 366 else 365 }

  function YearOfEra(doe: nat): nat { (doe - doe / 1460 + doe / 36524 - doe / 146096) / 365 }

  /** A year split as century, group of four, and year of the group. */
  lemma YearParts(y: nat, c: nat, q: nat, k: nat)
    requires c <= 3 && q <= 24 && k <= 3 && y == 100 * c + 4 * q + k
    ensures Start(y) == 36524 * c + 1461 * q + 365 * k
    ensures Leap(y + 1) <==> k == 3 && (q < 24 || c == 3)
  {
    assert y / 4 == 25 * c + q && y / 100 == c;
    assert (y + 1) % 4 == 0 <==> k == 3;
    assert k == 3 ==> ((y + 1) % 100 == 0 <==> q == 24);
    assert k == 3 && q == 24 ==> y + 1 == 100 * (c + 1);
  }

  /** The formula finds the year: the day falls `t` days into it. */
  lemma YearFormula(doe: nat, c: nat, q: nat, k: nat, t: nat)
    requires c <= 3 && q <= 24 && k <= 3 && doe == 36524 * c + 1461 * q + 365 * k + t
    requires t < 365 || (t == 365 && k == 3 && (q < 24 || c == 3))
    ensures YearOfEra(doe) == 100 * c + 4 * q + k
  {
    var e := 24 * c + q + 365 * k + t;
    var carry := if e >= 1460 then 1 else 0;
    assert doe == 1460 * (25 * c + q) + e;
    assert doe / 1460 == 25 * c + q + carry;
    assert doe / 36524 - doe / 146096 == c by { CenturyFormula(doe, c, q, k, t); }
    assert doe - doe / 1460 + c == 365 * (100 * c + 4 * q + k) + t - carry;
  }

  lemma CenturyFormula(doe: nat, c: nat, q: nat, k: nat, t: nat)
    requires c <= 3 && q <= 24 && k <= 3 && doe == 36524 * c + 1461 * q + 365 * k + t
    requires t < 365 || (t == 365 && k == 3 && (q < 24 || c == 3))
    ensures doe / 36524 - doe / 146096 == c
  {
    var r := 1461 * q + 365 * k + t;
    assert r <= 36524 && (r == 36524 ==> c == 3);
  }

  /** Whatever day and year fit together, the formula finds the year. */
  lemma YearIsFound(y: nat, t: nat)
    requires y < 400 && t < YearLength(y)
    ensures YearOfEra(Start(y) + t) == y && Start(y) + t < DAYS_IN_400_YEARS
  {
    var c, q, k := y / 100, y % 100 / 4, y % 4;
    YearParts(y, c, q, k);
    YearFormula(Start(y) + t, c, q, k, t);
  }

  lemma NextYearStarts(y: nat)
    requires y < 400
    ensures Start(y) + YearLength(y) == if y == 399 then DAYS_IN_400_YEARS else Start(y + 1)
  {
    var c, q, k := y / 100, y % 100 / 4, y % 4;
    YearParts(y, c, q, k);
    if k < 3 {
      YearParts(y + 1, c, q, k + 1);
    } else if q < 24 {
      YearParts(y + 1, c, q + 1, 0);
    } else if c < 3 {
      YearParts(y + 1, c + 1, 0, 0);
    }
  }

  /** Every day of the era falls into the year the formula gives. */
  lemma YearSplit(doe: nat)
    requires doe < DAYS_IN_400_YEARS
    ensures var y := YearOfEra(doe);
            y < 400 && Start(y) <= doe < Start(y) + YearLength(y)
  {
    var c := if doe == 146096 then 3 else doe / 36524;
    var r := doe - 36524 * c;
    var q := if r == 36524 then 24 else r / 1461;
    var s := r - 1461 * q;
    var k := if s == 1460 then 3 else s / 365;
    var t := s - 365 * k;
    YearParts(100 * c + 4 * q + k, c, q, k);
    YearFormula(doe, c, q, k, t);
  }

  // ---------------------------------------------------------------- months

  /** Days from 1 March to the first of the month mp months later. */
  function MonthStart(mp: nat): nat { (153 * mp + 2) / 5 }

  function MonthIndex(doy: nat): nat { (5 * doy + 2) / 153 }

  lemma MonthIsFound(doy: nat)
    requires doy < 366
    ensures MonthIndex(doy) < 12 && MonthStart(MonthIndex(doy)) <= doy < MonthStart(MonthIndex(doy) + 1)
  {
  }

  function MonthOf(mp: nat): nat { if mp < 10 then mp + 3 else mp - 9 }

  /** Month lengths from March to January; February runs to the end of the year. */
  lemma MonthLengths(mp: nat, y: nat)
    requires mp < 11
    ensures MonthStart(mp + 1) - MonthStart(mp) == DaysInMonth(y, MonthOf(mp))
  {
    assert mp == 0 || mp == 1 || mp == 2 || mp == 3 || mp == 4 || mp == 5 || mp == 6 || mp == 7 || mp == 8 || mp == 9
           || mp == 10;
  }

  // ---------------------------------------------------------------- the conversion

  /** The date of a day of a year of an era. */
  function DateOf(era: nat, yoe: nat, doy: nat): Date
    requires doy < 366
  {
    MonthIsFound(doy);
    var y := yoe + era * 400;
    var mp := MonthIndex(doy);
    var d: nat := doy - MonthStart(mp) + 1;
    var m := MonthOf(mp);
    Date(if m <= 2 then y + 1 else y, m, d)
  }

  /** The date n days after 1970-01-01. */
  function FromDays(n: nat): Date
  {
    var z := n + 719468;
    var era := z / DAYS_IN_400_YEARS;
    var doe: nat := z - era * DAYS_IN_400_YEARS;
    YearSplit(doe);
    var yoe := YearOfEra(doe);
    var doy: nat := doe - Start(yoe);
    DateOf(era, yoe, doy)
  }

  function EpochDate(epoch: u64): Date { FromDays(epoch / SECONDS_PER_DAY) }

  lemma LeapAcrossEras(y: nat, era: nat)
    ensures Leap(y + era * 400) <==> Leap(y)
  {
    Across4(y, era * 100);
    Across100(y, era * 4);
    Across400(y, era);
  }

  lemma {:induction false} Across4(y: nat, k: nat)
    ensures (y + 4 * k) % 4 == y % 4
  {
    if k > 0 { Across4(y, k - 1); }
  }

  lemma {:induction false} Across100(y: nat, k: nat)
    ensures (y + 100 * k) % 100 == y % 100
  {
    if k > 0 { Across100(y, k - 1); }
  }

  lemma {:induction false} Across400(y: nat, k: nat)
    ensures (y + 400 * k) % 400 == y % 400 && (y + 400 * k) / 400 == y / 400 + k
  {
    if k > 0 { Across400(y, k - 1); }
  }

  /** The next day of the calendar is the next day of the year, or the first of the next one. */
  lemma DateOfNext(era: nat, y: nat, doy: nat)
    requires y < 400 && doy < YearLength(y)
    ensures Next(DateOf(era, y, doy)) ==
            if doy + 1 < YearLength(y) then DateOf(era, y, doy + 1)
            else if y < 399 then DateOf(era, y + 1, 0)
            else DateOf(era + 1, 0, 0)
  {
    var mp := MonthIndex(doy);
    MonthIsFound(doy);
    LeapAcrossEras(y + 1, era);
    if mp < 11 {
      MonthLengths(mp, DateOf(era, y, doy).year);
      MonthIsUnique(doy + 1, if doy + 1 < MonthStart(mp + 1) then mp else mp + 1);
    } else {
      assert MonthStart(11) == 337;
      if doy + 1 < YearLength(y) {
        MonthIsUnique(doy + 1, 11);
      } else {
        MonthIsUnique(0, 0);
      }
    }
  }

  lemma MonthIsUnique(doy: nat, mp: nat)
    requires doy < 366 && mp < 12 && MonthStart(mp) <= doy < MonthStart(mp + 1)
    ensures MonthIndex(doy) == mp
  {
  }

  /** A day number split as era, year and day of the year. */
  lemma FromParts(n: nat, era: nat, y: nat, doy: nat)
    requires y < 400 && doy < YearLength(y) && n + 719468 == era * DAYS_IN_400_YEARS + Start(y) + doy
    ensures FromDays(n) == DateOf(era, y, doy)
  {
    hide YearOfEra, Start, YearLength, DateOf;
    YearIsFound(y, doy);
    EraIsFound(era, Start(y) + doy);
  }

  lemma EraIsFound(era: nat, doe: nat)
    requires doe < DAYS_IN_400_YEARS
    ensures (era * DAYS_IN_400_YEARS + doe) / DAYS_IN_400_YEARS == era
  {
  }

  /** A day later is the calendar's next day. */
  lemma SuccessorLaw(n: nat)
    ensures FromDays(n + 1) == Next(FromDays(n))
  {
    hide FromDays, DateOf, YearOfEra, Start, YearLength, Next;
    var z := n + 719468;
    var era := z / DAYS_IN_400_YEARS;
    var doe: nat := z - era * DAYS_IN_400_YEARS;
    YearSplit(doe);
    var y := YearOfEra(doe);
    var doy: nat := doe - Start(y);
    YearsAreShort(y);
    YearsAreShort(y + 1);
    YearsAreShort(0);
    StartOfEra();
    FromParts(n, era, y, doy);
    DateOfNext(era, y, doy);
    NextYearStarts(y);
    if doy + 1 < YearLength(y) {
      FromParts(n + 1, era, y, doy + 1);
    } else if y < 399 {
      FromParts(n + 1, era, y + 1, 0);
    } else {
      FromParts(n + 1, era + 1, 0, 0);
    }
  }

  lemma YearsAreShort(y: nat)
    ensures 365 <= YearLength(y) <= 366
  {
  }

  lemma StartOfEra()
    ensures Start(0) == 0
  {
  }

  lemma EpochIs1970()
    ensures FromDays(0) == Date(1970, 1, 1)
  {
    YearParts(369, 3, 17, 1);
    FromParts(0, 4, 369, 306);
  }

  /** For every number of days the conversion is the calendar's own count. */
  lemma {:induction false} ConversionIsTheCalendar(n: nat)
    ensures FromDays(n) == Calendar(n)
  {
    hide FromDays, Next;
    if n == 0 {
      EpochIs1970();
    } else {
      ConversionIsTheCalendar(n - 1);
      SuccessorLaw(n - 1);
    }
  }

  /** So for every epoch, and a day of seconds later is the next date. */
  lemma EpochDateIsTheCalendar(epoch: u64)
    ensures EpochDate(epoch) == Calendar(epoch / SECONDS_PER_DAY)
    ensures epoch + SECONDS_PER_DAY < U64_SIZE ==> EpochDate(epoch + SECONDS_PER_DAY) == Next(EpochDate(epoch))
  {
    hide FromDays, Calendar, Next;
    assert (epoch + SECONDS_PER_DAY) / SECONDS_PER_DAY == epoch / SECONDS_PER_DAY + 1;
    ConversionIsTheCalendar(epoch / SECONDS_PER_DAY);
    SuccessorLaw(epoch / SECONDS_PER_DAY);
  }

  // ---------------------------------------------------------------- back to days

  /** Days from civil: the number of a date, counted from 1 March of year 0. */
  function DayNumber(t: Date): nat
    requires 1 <= t.month <= 12 && t.day >= 1 && (t.month <= 2 ==> t.year > 0)
  {
    var y := if t.month <= 2 then t.year - 1 else t.year;
    var mp := if t.month <= 2 then t.month + 9 else t.month - 3;
    y / 400 * DAYS_IN_400_YEARS + Start(y % 400) + MonthStart(mp) + t.day - 1
  }

  lemma MonthOfIsBack(mp: nat)
    requires mp < 12
    ensures var m := MonthOf(mp); 1 <= m <= 12 && mp == if m <= 2 then m + 9 else m - 3
  {
  }

  /** Days from civil undoes the conversion. */
  lemma DayNumberInverts(n: nat)
    ensures var t := FromDays(n);
            1 <= t.month <= 12 && t.day >= 1 && (t.month <= 2 ==> t.year > 0) && DayNumber(t) == n + 719468
  {
    hide FromDays, YearOfEra, Start, YearLength, MonthStart, MonthIndex, MonthOf;
    var z := n + 719468;
    var era := z / DAYS_IN_400_YEARS;
    var doe: nat := z - era * DAYS_IN_400_YEARS;
    YearSplit(doe);
    var y := YearOfEra(doe);
    var doy: nat := doe - Start(y);
    YearsAreShort(y);
    FromParts(n, era, y, doy);
    MonthIsFound(doy);
    MonthOfIsBack(MonthIndex(doy));
    Across400(y, era);
  }

  predicate IsDate(t: Date)
  {
    1 <= t.month <= 12 && 1 <= t.day <= DaysInMonth(t.year, t.month) && (t.month <= 2 ==> t.year > 0)
  }

  /** A month's days stay inside its year. */
  lemma DayOfYear(y: nat, mp: nat, d: nat)
    requires mp < 12 && 1 <= d <= DaysInMonth(if mp < 10 then y else y + 1, MonthOf(mp))
    ensures MonthStart(mp) + d - 1 < YearLength(y) && MonthStart(mp) <= MonthStart(mp) + d - 1 < MonthStart(mp + 1)
  {
    if mp < 11 { MonthLengths(mp, if mp < 10 then y else y + 1); }
    assert MonthStart(11) == 337 && MonthStart(12) == 367 && (mp < 11 ==> MonthStart(mp + 1) <= 337);
  }

  /** And the conversion undoes days from civil, for every date from 1970 on. */
  lemma ConversionInverts(t: Date)
    requires IsDate(t) && DayNumber(t) >= 719468
    ensures FromDays(DayNumber(t) - 719468) == t
  {
    hide FromDays, YearOfEra, YearLength, MonthIndex, MonthStart;
    var y := if t.month <= 2 then t.year - 1 else t.year;
    var mp := if t.month <= 2 then t.month + 9 else t.month - 3;
    DayOfYear(y, mp, t.day);
    var doy := MonthStart(mp) + t.day - 1;
    YearAcrossEras(y);
    YearsAreShort(y % 400);
    FromParts(DayNumber(t) - 719468, y / 400, y % 400, doy);
    MonthIsUnique(doy, mp);
  }

  lemma YearAcrossEras(y: nat)
    ensures YearLength(y % 400) == YearLength(y)
  {
    LeapAcrossEras(y % 400 + 1, y / 400);
    assert y % 400 + 1 + y / 400 * 400 == y + 1;
  }
}
