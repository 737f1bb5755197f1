/** Days since 1970-01-01 and proleptic Gregorian dates. */
module Civil {

  datatype Date = Date(year: int, month: int, day: int)

  /** Integer division that truncates toward zero, as the source's does. */
  function Quotient(a: int, b: int): int
    requires b > 0
  {
    if a >= 0 then a / b else -((-a) / b)
  }

  predicate Leap(year: int) {
    (year % 4 == 0 && year % 100 != 0) || year % 400 == 0
  }

  function MonthLength(year: int, month: int): int {
    if month in {1, 3, 5, 7, 8, 10, 12} then 31
    else if month in {4, 6, 9, 11} then 30
    else if month == 2 then if Leap(year) then 29 else 28
    else 0
  }

  predicate Valid(d: Date) {
    1 <= d.month <= 12 && 1 <= d.day <= MonthLength(d.year, d.month)
  }

  function DaysFromCivil(d: Date): int {
    var year := d.year - (if d.month <= 2 then 1 else 0);
    var era := Quotient(if year >= 0 then year else year - 399, 400);
    var yearOfEra := year - era * 400;
    var monthPrime := d.month + (if d.month > 2 then -3 else 9);
    var dayOfYear := (153 * monthPrime + 2) / 5 + d.day - 1;
    var dayOfEra := DaysBefore(yearOfEra) + dayOfYear;
    era * 146097 + dayOfEra - 719468
  }

  function YearOfEra(dayOfEra: int): int {
    (dayOfEra - dayOfEra / 1460 + dayOfEra / 36524 - dayOfEra / 146096) / 365
  }

  function CivilFromDays(days: int): Date {
    var z := days + 719468;
    var era := Quotient(if z >= 0 then z else z - 146096, 146097);
    var dayOfEra := z - era * 146097;
    CivilInEra(era, dayOfEra)
  }

  function CivilInEra(era: int, dayOfEra: int): Date {
    var yearOfEra := YearOfEra(dayOfEra);
    DateAt(era, yearOfEra, dayOfEra - DaysBefore(yearOfEra))
  }

  /** The days of an era before one of its years. */
  function DaysBefore(yearOfEra: int): int {
    365 * yearOfEra + yearOfEra / 4 - yearOfEra / 100
  }

  /** The date of a March-based day in a year of an era. */
  function DateAt(era: int, yearOfEra: int, dayOfYear: int): Date {
    var year := yearOfEra + era * 400;
    var monthPrime := (5 * dayOfYear + 2) / 153;
    var day := dayOfYear - (153 * monthPrime + 2) / 5 + 1;
    var month := if monthPrime < 10 then monthPrime + 3 else monthPrime - 9;
    Date(if month <= 2 then year + 1 else year, month, day)
  }

  // ---- An era of 400 years, by century, four-year cycle, year and day ----

  /** Years here run from March, so a leap day is the last day of its year. */
  predicate Place(c: int, q: int, y: int, day: int) {
    && 0 <= c <= 3 && 0 <= q <= 24 && 0 <= y <= 3 && 0 <= day <= 365
    && (day == 365 ==> y == 3 && (q < 24 || c == 3))
  }

  function DayAt(c: int, q: int, y: int, day: int): int {
    36524 * c + 1461 * q + 365 * y + day
  }

  lemma DayAtYear(c: int, q: int, y: int, day: int)
    requires Place(c, q, y, day)
    ensures var year := 100 * c + 4 * q + y;
            0 <= year < 400 && DaysBefore(year) + day == DayAt(c, q, y, day)
    ensures 0 <= DayAt(c, q, y, day) < 146097
  {
    var year := 100 * c + 4 * q + y;
    assert year / 4 == 25 * c + q;
    assert year / 100 == c;
  }

  /** The division formula finds the year of any day of the era. */
  lemma YearOfEraAt(c: int, q: int, y: int, day: int)
    requires Place(c, q, y, day)
    ensures YearOfEra(DayAt(c, q, y, day)) == 100 * c + 4 * q + y
  {
    var d := DayAt(c, q, y, day);
    var low := 24 * c + q + 365 * y + day;
    var extra := if low >= 1460 then 1 else 0;
    assert d == 1460 * (25 * c + q) + low;
    assert d / 1460 == 25 * c + q + extra;
    var last := if d == 146096 then 1 else 0;
    assert d / 36524 == c + last by {
      var inCentury := 1461 * q + 365 * y + day;
      assert d == 36524 * c + inCentury;
      assert inCentury <= 36524;
      assert inCentury == 36524 ==> c == 3;
    }
    assert d / 146096 == last;
    assert 0 <= day - extra < 365;
    assert d - d / 1460 + d / 36524 - d / 146096 == 365 * (100 * c + 4 * q + y) + (day - extra);
  }

  lemma PlaceOfDay(d: int) returns (c: int, q: int, y: int, day: int)
    requires 0 <= d < 146097
    ensures Place(c, q, y, day) && d == DayAt(c, q, y, day)
  {
    c := if d / 36524 > 3 then 3 else d / 36524;
    var r := d - 36524 * c;
    q := r / 1461;
    var s := r - 1461 * q;
    y := if s / 365 > 3 then 3 else s / 365;
    day := s - 365 * y;
  }

  lemma PlaceOfYear(year: int) returns (c: int, q: int, y: int)
    requires 0 <= year < 400
    ensures 0 <= c <= 3 && 0 <= q <= 24 && 0 <= y <= 3 && year == 100 * c + 4 * q + y
  {
    c := year / 100;
    q := (year - 100 * c) / 4;
    y := year - 100 * c - 4 * q;
  }

  lemma ShiftBy4(n: int, k: int)
    ensures (n + 4 * k) % 4 == n % 4
  {
  }

  lemma ShiftBy100(n: int, k: int)
    ensures (n + 100 * k) % 100 == n % 100
  {
  }

  lemma ShiftBy400(n: int, k: int)
    ensures (n + 400 * k) % 400 == n % 400
  {
  }

  lemma LeapPeriodic(n: int, era: int)
    ensures Leap(n + 400 * era) <==> Leap(n)
  {
    ShiftBy4(n, 100 * era);
    ShiftBy100(n, 4 * era);
    ShiftBy400(n, era);
  }

  lemma DivisibleAtPlace(c: int, q: int, y: int)
    requires 0 <= c <= 3 && 0 <= q <= 24 && 0 <= y <= 3
    ensures var n := 100 * c + 4 * q + y + 1;
            && (n % 4 == 0 <==> y == 3)
            && (n % 100 == 0 <==> y == 3 && q == 24)
            && (n % 400 == 0 <==> y == 3 && q == 24 && c == 3)
  {
    var n := 100 * c + 4 * q + y + 1;
    assert n == 4 * (25 * c + q) + (y + 1);
    assert n == 100 * c + (4 * q + y + 1);
  }

  /** The year after this one, which holds its February, is leap exactly when its last
      day can exist. */
  lemma LeapAtPlace(c: int, q: int, y: int, era: int)
    requires 0 <= c <= 3 && 0 <= q <= 24 && 0 <= y <= 3
    ensures Leap(100 * c + 4 * q + y + 400 * era + 1) <==> y == 3 && (q < 24 || c == 3)
  {
    DivisibleAtPlace(c, q, y);
    LeapPeriodic(100 * c + 4 * q + y + 1, era);
  }

  lemma YearEra(year: int)
    ensures Quotient(if year >= 0 then year else year - 399, 400) == year / 400
  {
  }

  lemma DayEra(z: int)
    ensures Quotient(if z >= 0 then z else z - 146096, 146097) == z / 146097
  {
  }

  // ---- March-based months ----

  lemma MonthOfDay(dayOfYear: int)
    requires 0 <= dayOfYear <= 365
    ensures var mp := (5 * dayOfYear + 2) / 153;
            var day := dayOfYear - (153 * mp + 2) / 5 + 1;
            var month := if mp < 10 then mp + 3 else mp - 9;
            && 0 <= mp <= 11
            && 1 <= day <= (if month in {1, 3, 5, 7, 8, 10, 12} then 31 else if month == 2 then 29 else 30)
            && (month == 2 && day == 29 <==> dayOfYear == 365)
  {
    var mp := (5 * dayOfYear + 2) / 153;
    assert mp == 0 || mp == 1 || mp == 2 || mp == 3 || mp == 4 || mp == 5 || mp == 6 || mp == 7 || mp == 8 || mp == 9
        || mp == 10 || mp == 11;
  }

  lemma DayOfMonth(mp: int, day: int)
    requires 0 <= mp <= 11
    requires var month := if mp < 10 then mp + 3 else mp - 9;
             1 <= day <= (if month in {1, 3, 5, 7, 8, 10, 12} then 31 else if month == 2 then 29 else 30)
    ensures var dayOfYear := (153 * mp + 2) / 5 + day - 1;
            0 <= dayOfYear <= 365 && (5 * dayOfYear + 2) / 153 == mp
            && (dayOfYear == 365 <==> mp == 11 && day == 29)
  {
    assert mp == 0 || mp == 1 || mp == 2 || mp == 3 || mp == 4 || mp == 5 || mp == 6 || mp == 7 || mp == 8 || mp == 9
        || mp == 10 || mp == 11;
  }

  function MonthPrime(d: Date): int {
    d.month + (if d.month > 2 then -3 else 9)
  }

  /** The day count, read off from era, place in it and March-based day. */
  lemma DaysAt(d: Date, era: int, c: int, q: int, y: int, day: int)
    requires Place(c, q, y, day)
    requires d.year - (if d.month <= 2 then 1 else 0) == 400 * era + 100 * c + 4 * q + y
    requires (153 * MonthPrime(d) + 2) / 5 + d.day - 1 == day
    ensures DaysFromCivil(d) == era * 146097 + DayAt(c, q, y, day) - 719468
  {
    var year := d.year - (if d.month <= 2 then 1 else 0);
    DayAtYear(c, q, y, day);
    YearEra(year);
    assert year / 400 == era;
  }

  lemma CivilAt(days: int, era: int, c: int, q: int, y: int, day: int)
    requires Place(c, q, y, day)
    requires days + 719468 == era * 146097 + DayAt(c, q, y, day)
    ensures CivilFromDays(days) == DateAt(era, 100 * c + 4 * q + y, day)
  {
    DayAtYear(c, q, y, day);
    EraOfDay(days, era, DayAt(c, q, y, day));
    CivilInEraAt(era, c, q, y, day);
  }

  lemma EraOfDay(days: int, era: int, dayOfEra: int)
    requires days + 719468 == era * 146097 + dayOfEra && 0 <= dayOfEra < 146097
    ensures CivilFromDays(days) == CivilInEra(era, dayOfEra)
  {
    EraDivides(days + 719468, era, dayOfEra);
  }

  lemma EraDivides(z: int, era: int, dayOfEra: int)
    requires z == era * 146097 + dayOfEra && 0 <= dayOfEra < 146097
    ensures Quotient(if z >= 0 then z else z - 146096, 146097) == era
    ensures z - era * 146097 == dayOfEra
  {
    DayEra(z);
  }

  lemma CivilInEraAt(era: int, c: int, q: int, y: int, day: int)
    requires Place(c, q, y, day)
    ensures CivilInEra(era, DayAt(c, q, y, day)) == DateAt(era, 100 * c + 4 * q + y, day)
  {
    YearOfEraAt(c, q, y, day);
    DayAtYear(c, q, y, day);
    CivilInEraFrom(era, DayAt(c, q, y, day), 100 * c + 4 * q + y, day);
  }

  lemma CivilInEraFrom(era: int, dayOfEra: int, yearOfEra: int, day: int)
    requires YearOfEra(dayOfEra) == yearOfEra && DaysBefore(yearOfEra) + day == dayOfEra
    ensures CivilInEra(era, dayOfEra) == DateAt(era, yearOfEra, day)
  {
  }

  lemma DateAtValid(era: int, c: int, q: int, y: int, day: int)
    requires Place(c, q, y, day)
    ensures var d := DateAt(era, 100 * c + 4 * q + y, day);
            && Valid(d) && (153 * MonthPrime(d) + 2) / 5 + d.day - 1 == day
            && d.year - (if d.month <= 2 then 1 else 0) == 400 * era + 100 * c + 4 * q + y
  {
    MonthOfDay(day);
    LeapAtPlace(c, q, y, era);
  }

  lemma PlaceOfDate(d: Date) returns (era: int, c: int, q: int, y: int, day: int)
    requires Valid(d)
    ensures Place(c, q, y, day)
    ensures d == DateAt(era, 100 * c + 4 * q + y, day)
    ensures d.year - (if d.month <= 2 then 1 else 0) == 400 * era + 100 * c + 4 * q + y
    ensures (153 * MonthPrime(d) + 2) / 5 + d.day - 1 == day
  {
    var year := d.year - (if d.month <= 2 then 1 else 0);
    era := year / 400;
    c, q, y := PlaceOfYear(year - 400 * era);
    DayOfMonth(MonthPrime(d), d.day);
    day := (153 * MonthPrime(d) + 2) / 5 + d.day - 1;
    LeapAtPlace(c, q, y, era);
  }

  // ---- The two conversions are inverse ----

  /** Every day count is the count of the date it converts to, a valid one. */
  lemma DaysRoundTrip(days: int)
    ensures Valid(CivilFromDays(days)) && DaysFromCivil(CivilFromDays(days)) == days
  {
    var z := days + 719468;
    var era := z / 146097;
    var c, q, y, day := PlaceOfDay(z - era * 146097);
    CivilAt(days, era, c, q, y, day);
    DateAtValid(era, c, q, y, day);
    DaysAt(CivilFromDays(days), era, c, q, y, day);
  }

  /** Every valid date is the date of its day count. */
  lemma DatesRoundTrip(d: Date)
    requires Valid(d)
    ensures CivilFromDays(DaysFromCivil(d)) == d
  {
    var era, c, q, y, day := PlaceOfDate(d);
    DaysAt(d, era, c, q, y, day);
    CivilAt(DaysFromCivil(d), era, c, q, y, day);
  }

  /** The last day of a March-based year is followed by the first of the next. */
  lemma YearTurns(era: int, c: int, q: int, y: int, era': int, c': int, q': int, y': int)
    requires 0 <= c <= 3 && 0 <= q <= 24 && 0 <= y <= 3
    requires 0 <= c' <= 3 && 0 <= q' <= 24 && 0 <= y' <= 3
    requires 400 * era' + 100 * c' + 4 * q' + y' == 400 * era + 100 * c + 4 * q + y + 1
    ensures var last := if y == 3 && (q < 24 || c == 3) then 365 else 364;
            era' * 146097 + DayAt(c', q', y', 0) == era * 146097 + DayAt(c, q, y, last) + 1
  {
    var m, m' := 100 * c + 4 * q + y, 100 * c' + 4 * q' + y';
    assert 400 * (era' - era) == m + 1 - m';
    if m < 399 {
      assert era' == era;
      assert 100 * (c' - c) == (4 * q + y) + 1 - (4 * q' + y');
      if 4 * q + y < 99 {
        assert c' == c;
        assert 4 * (q' - q) == y + 1 - y';
      } else {
        assert c' == c + 1 && q' == 0 && y' == 0;
      }
    } else {
      assert era' == era + 1 && m' == 0;
    }
  }

  function NextDay(d: Date): Date {
    if d.day < MonthLength(d.year, d.month) then d.(day := d.day + 1)
    else if d.month < 12 then Date(d.year, d.month + 1, 1)
    else Date(d.year + 1, 1, 1)
  }

  lemma NextPlace(d: Date, day: int)
    requires Valid(d) && (153 * MonthPrime(d) + 2) / 5 + d.day - 1 == day
    requires !(d.month == 2 && d.day == MonthLength(d.year, 2))
    ensures var n := NextDay(d);
            && Valid(n) && (153 * MonthPrime(n) + 2) / 5 + n.day - 1 == day + 1
            && n.year - (if n.month <= 2 then 1 else 0) == d.year - (if d.month <= 2 then 1 else 0)
  {
    assert d.month == 1 || d.month == 2 || d.month == 3 || d.month == 4 || d.month == 5 || d.month == 6 || d.month == 7
        || d.month == 8 || d.month == 9 || d.month == 10 || d.month == 11 || d.month == 12;
  }

  lemma FebruaryTurns(d: Date)
    requires Valid(d) && d.month == 2 && d.day == MonthLength(d.year, 2)
    ensures Valid(NextDay(d)) && DaysFromCivil(NextDay(d)) == DaysFromCivil(d) + 1
  {
    var era, c, q, y, day := PlaceOfDate(d);
    var n := Date(d.year, 3, 1);
    assert n == NextDay(d);
    var era', c', q', y', first := PlaceOfDate(n);
    LeapAtPlace(c, q, y, era);
    assert MonthPrime(d) == 11 && day == 336 + d.day;
    assert MonthPrime(n) == 0 && first == 0;
    assert day == if y == 3 && (q < 24 || c == 3) then 365 else 364;
    TurnCounts(d, n, era, c, q, y, day, era', c', q', y');
  }

  lemma TurnCounts(d: Date, n: Date, era: int, c: int, q: int, y: int, day: int, era': int, c': int, q': int, y': int)
    requires Place(c, q, y, day) && Place(c', q', y', 0)
    requires d.year - (if d.month <= 2 then 1 else 0) == 400 * era + 100 * c + 4 * q + y
    requires n.year - (if n.month <= 2 then 1 else 0) == 400 * era' + 100 * c' + 4 * q' + y'
    requires 400 * era' + 100 * c' + 4 * q' + y' == 400 * era + 100 * c + 4 * q + y + 1
    requires (153 * MonthPrime(d) + 2) / 5 + d.day - 1 == day == if y == 3 && (q < 24 || c == 3) then 365 else 364
    requires (153 * MonthPrime(n) + 2) / 5 + n.day - 1 == 0
    ensures DaysFromCivil(n) == DaysFromCivil(d) + 1
  {
    DaysAt(d, era, c, q, y, day);
    DaysAt(n, era', c', q', y', 0);
    YearTurns(era, c, q, y, era', c', q', y');
  }

  lemma PlaceOfNext(c: int, q: int, y: int, era: int, n: Date, day: int)
    requires 0 <= c <= 3 && 0 <= q <= 24 && 0 <= y <= 3 && Valid(n)
    requires n.year - (if n.month <= 2 then 1 else 0) == 400 * era + 100 * c + 4 * q + y
    requires (153 * MonthPrime(n) + 2) / 5 + n.day - 1 == day
    ensures Place(c, q, y, day)
  {
    LeapAtPlace(c, q, y, era);
    DayOfMonth(MonthPrime(n), n.day);
  }

  /** The calendar's next day is the next count. */
  lemma CountsDays(d: Date)
    requires Valid(d)
    ensures Valid(NextDay(d)) && DaysFromCivil(NextDay(d)) == DaysFromCivil(d) + 1
  {
    if d.month == 2 && d.day == MonthLength(d.year, 2) {
      FebruaryTurns(d);
    } else {
      var era, c, q, y, day := PlaceOfDate(d);
      NextPlace(d, day);
      PlaceOfNext(c, q, y, era, NextDay(d), day + 1);
      DaysAt(d, era, c, q, y, day);
      DaysAt(NextDay(d), era, c, q, y, day + 1);
    }
  }

  /** Counting starts at the Unix epoch. */
  lemma EpochIsZero()
    ensures DaysFromCivil(Date(1970, 1, 1)) == 0 && CivilFromDays(0) == Date(1970, 1, 1)
  {
    DaysAt(Date(1970, 1, 1), 4, 3, 17, 1, 306);
    DatesRoundTrip(Date(1970, 1, 1));
  }
}
