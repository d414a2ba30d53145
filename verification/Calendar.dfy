/** Day numbers and civil dates of the proleptic Gregorian calendar (ISO 8601). */
module Calendar {
  import opened Base

  datatype Date = Date(year: int, month: int, day: int)

  const I32_MIN: int := -0x8000_0000
  const I32_MAX: int := 0x7FFF_FFFF

  // ---------------------------------------------------------------- the calendar itself

  predicate Leap(year: int) {
    year % 4 == 0 && (year % 100 != 0 || year % 400 == 0)
  }

  function DaysInMonth(year: int, month: int): int {
    if month == 2 then (if Leap(year) then 29 else 28)
    else if month == 4 || month == 6 || month == 9 || month == 11 then 30
    else 31
  }

  predicate Real(d: Date) {
    1 <= d.month <= 12 && 1 <= d.day <= DaysInMonth(d.year, d.month)
  }

  function NextDay(d: Date): Date {
    if d.day < DaysInMonth(d.year, d.month) then d.(day := d.day + 1)
    else if d.month < 12 then Date(d.year, d.month + 1, 1)
    else Date(d.year + 1, 1, 1)
  }

  // ---------------------------------------------------------------- the conversions

  /** Integer division as Rust does it, towards zero. */
  function TruncDiv(a: int, b: int): int
    requires b > 0
  {
    if a >= 0 then a / b else -((-a) / b)
  }

  /** Years from March on, so that a leap day is the last day of its year. */
  function MarchYear(d: Date): int {
    if d.month <= 2 then d.year - 1 else d.year
  }

  function MarchMonth(month: int): int {
    if month > 2 then month - 3 else month + 9
  }

  function DayOfYear(month: int, day: int): int {
    (153 * MarchMonth(month) + 2) / 5 + day - 1
  }

  function YearStart(yoe: int): int {
    yoe * 365 + yoe / 4 - yoe / 100
  }

  /** The day number of the first of March of a year. */
  function FirstOfMarch(y: int): int {
    Era(y) * 146097 + YearStart(y - Era(y) * 400) - 719468
  }

  function Era(y: int): int {
    if y >= 0 then TruncDiv(y, 400) else TruncDiv(y - 399, 400)
  }

  function CivilToEpochDays(d: Date): int {
    FirstOfMarch(MarchYear(d)) + DayOfYear(d.month, d.day)
  }

  function YearOfEra(doe: int): int {
    (doe - doe / 1460 + doe / 36524 - doe / 146096) / 365
  }

  function InYear(era: int, yoe: int, doy: int): Date {
    var mp := (5 * doy + 2) / 153;
    var day := doy - (153 * mp + 2) / 5 + 1;
    var month := mp + if mp < 10 then 3 else -9;
    Date(yoe + era * 400 + (if month <= 2 then 1 else 0), month, day)
  }

  function InEra(era: int, doe: int): Date {
    InYear(era, YearOfEra(doe), doe - YearStart(YearOfEra(doe)))
  }

  function EpochDaysToCivil(days: int): Date {
    var z := days + 719468;
    InEra(EraOfDay(z), z - EraOfDay(z) * 146097)
  }

  function EraOfDay(z: int): int {
    TruncDiv(if z >= 0 then z else z - 146096, 146097)
  }

  // ---------------------------------------------------------------- eras

  lemma EraIsFloor(y: int)
    ensures Era(y) == y / 400
  {
  }

  lemma EraOfYear(era: int, yoe: int)
    requires 0 <= yoe < 400
    ensures Era(era * 400 + yoe) == era
  {
    EraIsFloor(era * 400 + yoe);
  }

  lemma EraOfDayIsFloor(z: int)
    ensures EraOfDay(z) == z / 146097
  {
  }

  lemma EraOfDayInEra(era: int, doe: int)
    requires 0 <= doe < 146097
    ensures EraOfDay(era * 146097 + doe) == era
  {
    EraOfDayIsFloor(era * 146097 + doe);
  }

  /** Whether the year from March on with this number in its era ends with a leap day. */
  predicate LongYear(yoe: int) {
    Leap(yoe + 1)
  }

  /** A year of the era by century, four-year cycle and year of the cycle. */
  lemma YearParts(yoe: int, c: int, q: int, r: int)
    requires 0 <= c < 4 && 0 <= q < 25 && 0 <= r < 4 && yoe == 100 * c + 4 * q + r
    ensures YearStart(yoe) == 36524 * c + 1461 * q + 365 * r
    ensures LongYear(yoe) <==> r == 3 && (q < 24 || c == 3)
  {
    assert yoe / 4 == 25 * c + q;
    assert yoe / 100 == c;
    assert (yoe + 1) % 4 == (r + 1) % 4;
    assert r == 3 ==> (yoe + 1) % 100 == (4 * (q + 1)) % 100;
    assert r == 3 && q == 24 ==> (yoe + 1) % 400 == (100 * (c + 1)) % 400;
  }

  lemma YearFound(c: int, q: int, r: int, doy: int)
    requires 0 <= c < 4 && 0 <= q < 25 && 0 <= r < 4 && 0 <= doy <= 365
    requires doy == 365 ==> r == 3 && (q < 24 || c == 3)
    ensures YearOfEra(36524 * c + 1461 * q + 365 * r + doy) == 100 * c + 4 * q + r
  {
    var doe := 36524 * c + 1461 * q + 365 * r + doy;
    var e := if 24 * c + q + 365 * r + doy >= 1460 then 1 else 0;
    var f := if 1461 * q + 365 * r + doy >= 36524 then 1 else 0;
    var g := if doe >= 146096 then 1 else 0;
    assert doe / 1460 == 25 * c + q + e;
    assert doe / 36524 == c + f;
    assert doe / 146096 == g;
    assert 0 <= doy - e + f - g <= 364;
    assert doe - doe / 1460 + doe / 36524 - doe / 146096 == 365 * (100 * c + 4 * q + r) + (doy - e + f - g);
  }

  /** Within an era, the day determines the year. */
  lemma YearRoundTrip(yoe: int, doy: int)
    requires 0 <= yoe < 400 && 0 <= doy <= 365 && (doy == 365 ==> LongYear(yoe))
    ensures YearOfEra(YearStart(yoe) + doy) == yoe && 0 <= YearStart(yoe) + doy < 146097
  {
    var c, q, r := yoe / 100, yoe % 100 / 4, yoe % 4;
    YearParts(yoe, c, q, r);
    YearFound(c, q, r, doy);
  }

  // ---------------------------------------------------------------- months

  /** Days of the year from March on are counted through the months; only the last one varies. */
  lemma MonthRoundTrip(month: int, day: int, long: bool)
    requires 1 <= month <= 12 && 1 <= day <= (if month == 2 then (if long then 29 else 28) else DaysInMonth(1, month))
    ensures var doy := DayOfYear(month, day); var mp := (5 * doy + 2) / 153;
            && 0 <= doy <= (if long then 365 else 364) && mp == MarchMonth(month) && doy - (153 * mp + 2) / 5 + 1 == day
            && mp + (if mp < 10 then 3 else -9) == month
  {
  }

  /** Every day of a year from March on is a day of one of its months. */
  lemma MonthFound(doy: int, long: bool)
    requires 0 <= doy <= (if long then 365 else 364)
    ensures var mp := (5 * doy + 2) / 153;
            var day, month := doy - (153 * mp + 2) / 5 + 1, mp + (if mp < 10 then 3 else -9);
            && 1 <= month <= 12 && 1 <= day <= (if month == 2 then (if long then 29 else 28) else DaysInMonth(1, month))
            && DayOfYear(month, day) == doy && MarchMonth(month) == mp
  {
  }

  // ---------------------------------------------------------------- there and back

  /** A date by era, year of the era from March on, month and day. */
  function ByParts(era: int, yoe: int, month: int, day: int): Date {
    Date(yoe + era * 400 + (if month <= 2 then 1 else 0), month, day)
  }

  /** The month has this day, given whether the year from March on ends with a leap day. */
  predicate InMonth(yoe: int, month: int, day: int) {
    1 <= month <= 12 && 1 <= day <= (if month == 2 then (if LongYear(yoe) then 29 else 28) else DaysInMonth(1, month))
  }

  lemma EraOfDays(era: int, doe: int)
    requires 0 <= doe < 146097
    ensures EpochDaysToCivil(era * 146097 + doe - 719468) == InEra(era, doe)
  {
    EraOfDayInEra(era, doe);
  }

  lemma YearOfDays(era: int, yoe: int, doy: int)
    requires 0 <= yoe < 400 && 0 <= doy <= 365 && (doy == 365 ==> LongYear(yoe))
    ensures InEra(era, YearStart(yoe) + doy) == InYear(era, yoe, doy)
  {
    YearRoundTrip(yoe, doy);
  }

  lemma MonthOfDays(era: int, yoe: int, month: int, day: int)
    requires InMonth(yoe, month, day)
    ensures InYear(era, yoe, DayOfYear(month, day)) == ByParts(era, yoe, month, day)
  {
    MonthRoundTrip(month, day, LongYear(yoe));
  }

  lemma DaysOfParts(era: int, yoe: int, month: int, day: int)
    requires 0 <= yoe < 400
    ensures CivilToEpochDays(ByParts(era, yoe, month, day)) ==
            era * 146097 + (YearStart(yoe) + DayOfYear(month, day)) - 719468
  {
    EraOfYear(era, yoe);
  }

  lemma DaysToParts(era: int, yoe: int, doy: int, d: Date)
    requires 0 <= yoe < 400 && 0 <= doy <= 365 && (doy == 365 ==> LongYear(yoe)) && InYear(era, yoe, doy) == d
    ensures EpochDaysToCivil(era * 146097 + (YearStart(yoe) + doy) - 719468) == d
  {
    EraRange(yoe, doy);
    YearOfDays(era, yoe, doy);
    EraOfDays(era, YearStart(yoe) + doy);
  }

  lemma EraRange(yoe: int, doy: int)
    requires 0 <= yoe < 400 && 0 <= doy <= 365 && (doy == 365 ==> LongYear(yoe))
    ensures 0 <= YearStart(yoe) + doy < 146097
  {
    YearRoundTrip(yoe, doy);
  }

  lemma PartsRoundTrip(era: int, yoe: int, month: int, day: int)
    requires 0 <= yoe < 400 && InMonth(yoe, month, day)
    ensures EpochDaysToCivil(CivilToEpochDays(ByParts(era, yoe, month, day))) == ByParts(era, yoe, month, day)
  {
    DaysToMonth(era, yoe, month, day);
    DaysOfParts(era, yoe, month, day);
  }

  lemma DaysToMonth(era: int, yoe: int, month: int, day: int)
    requires 0 <= yoe < 400 && InMonth(yoe, month, day)
    ensures EpochDaysToCivil(era * 146097 + (YearStart(yoe) + DayOfYear(month, day)) - 719468) ==
              ByParts(era, yoe, month, day)
  {
    MonthRoundTrip(month, day, LongYear(yoe));
    MonthOfDays(era, yoe, month, day);
    DaysToParts(era, yoe, DayOfYear(month, day), ByParts(era, yoe, month, day));
  }

  lemma Remainder4(y: int, k: int)
    ensures (y + 4 * k) % 4 == y % 4
  {
  }

  lemma Remainder100(y: int, k: int)
    ensures (y + 100 * k) % 100 == y % 100
  {
  }

  lemma Remainder400(y: int, k: int)
    ensures (y + 400 * k) % 400 == y % 400
  {
  }

  /** Leap years repeat with the era. */
  lemma LeapInEra(era: int, yoe: int)
    ensures Leap(yoe + era * 400 + 1) <==> LongYear(yoe)
  {
    Remainder4(yoe + 1, 100 * era);
    Remainder100(yoe + 1, 4 * era);
    Remainder400(yoe + 1, era);
  }

  /** Being real by parts. */
  lemma RealByParts(era: int, yoe: int, month: int, day: int)
    ensures Real(ByParts(era, yoe, month, day)) <==> InMonth(yoe, month, day)
  {
    LeapInEra(era, yoe);
  }

  lemma PartsOf(d: Date) returns (era: int, yoe: int)
    ensures 0 <= yoe < 400 && d == ByParts(era, yoe, d.month, d.day)
  {
    era, yoe := MarchYear(d) / 400, MarchYear(d) % 400;
  }

  /** A real date is read back from its day number. */
  lemma CivilRoundTrip(d: Date)
    requires Real(d)
    ensures EpochDaysToCivil(CivilToEpochDays(d)) == d
  {
    var era, yoe := PartsOf(d);
    RealByParts(era, yoe, d.month, d.day);
    PartsRoundTrip(era, yoe, d.month, d.day);
  }

  /** Every day of the era is a day of one of its years. */
  lemma EraFound(doe: int) returns (yoe: int, doy: int)
    requires 0 <= doe < 146097
    ensures 0 <= yoe < 400 && 0 <= doy <= (if LongYear(yoe) then 365 else 364) && doe == YearStart(yoe) + doy
  {
    var c := if doe == 146096 then 3 else doe / 36524;
    var inCentury := doe - 36524 * c;
    var q := inCentury / 1461;
    var inCycle := inCentury - 1461 * q;
    var r := if inCycle == 1460 then 3 else inCycle / 365;
    yoe, doy := 100 * c + 4 * q + r, inCycle - 365 * r;
    YearParts(yoe, c, q, r);
  }

  lemma PartsOfDay(days: int) returns (era: int, yoe: int, month: int, day: int)
    ensures 0 <= yoe < 400 && InMonth(yoe, month, day) &&
            days == era * 146097 + (YearStart(yoe) + DayOfYear(month, day)) - 719468
  {
    era := (days + 719468) / 146097;
    var doy;
    yoe, doy := EraFound((days + 719468) % 146097);
    MonthFound(doy, LongYear(yoe));
    var mp := (5 * doy + 2) / 153;
    month, day := mp + (if mp < 10 then 3 else -9), doy - (153 * mp + 2) / 5 + 1;
  }

  lemma CivilByParts(days: int) returns (era: int, yoe: int, month: int, day: int)
    ensures 0 <= yoe < 400 && InMonth(yoe, month, day) && 0 <= YearStart(yoe) + DayOfYear(month, day) < 146097
    ensures days == era * 146097 + (YearStart(yoe) + DayOfYear(month, day)) - 719468
    ensures EpochDaysToCivil(days) == ByParts(era, yoe, month, day)
  {
    era, yoe, month, day := PartsOfDay(days);
    MonthRoundTrip(month, day, LongYear(yoe));
    EraRange(yoe, DayOfYear(month, day));
    DaysToMonth(era, yoe, month, day);
  }

  /** Every day number is the number of a real date. */
  lemma DaysRoundTrip(days: int)
    ensures Real(EpochDaysToCivil(days)) && CivilToEpochDays(EpochDaysToCivil(days)) == days
  {
    var era, yoe, month, day := CivilByParts(days);
    DaysOfParts(era, yoe, month, day);
    RealByParts(era, yoe, month, day);
  }

  // ---------------------------------------------------------------- counting days

  lemma NextYearStart(yoe: int)
    requires 0 <= yoe < 400
    ensures (if yoe < 399 then YearStart(yoe + 1) else 146097) == YearStart(yoe) + (if LongYear(yoe) then 366 else 365)
  {
    var c, q, r := yoe / 100, yoe % 100 / 4, yoe % 4;
    NextYearParts(yoe, c, q, r);
  }

  lemma NextYearParts(yoe: int, c: int, q: int, r: int)
    requires 0 <= c < 4 && 0 <= q < 25 && 0 <= r < 4 && yoe == 100 * c + 4 * q + r
    ensures (if yoe < 399 then YearStart(yoe + 1) else 146097) == YearStart(yoe) + (if LongYear(yoe) then 366 else 365)
  {
    YearParts(yoe, c, q, r);
    if r < 3 {
      YearParts(yoe + 1, c, q, r + 1);
    } else if q < 24 {
      YearParts(yoe + 1, c, q + 1, 0);
    } else if c < 3 {
      YearParts(yoe + 1, c + 1, 0, 0);
    }
  }

  /** Within a year from March on, months follow each other. */
  lemma NextMonthStart(month: int)
    requires 1 <= month <= 12 && month != 2
    ensures DayOfYear(if month == 12 then 1 else month + 1, 1) == DayOfYear(month, DaysInMonth(1, month)) + 1
  {
  }

  /** Where the day after a day of a year from March on lies. */
  ghost predicate Follows(era: int, yoe: int, month: int, day: int, era': int, yoe': int, month': int, day': int) {
    && 0 <= yoe' < 400
    && NextDay(ByParts(era, yoe, month, day)) == ByParts(era', yoe', month', day')
    && era' * 146097 + (YearStart(yoe') + DayOfYear(month', day')) ==
         era * 146097 + (YearStart(yoe) + DayOfYear(month, day)) + 1
  }

  lemma FollowsInYear(era: int, yoe: int, month: int, day: int) returns (month': int, day': int)
    requires 0 <= yoe < 400 && InMonth(yoe, month, day) && (month != 2 || InMonth(yoe, month, day + 1))
    ensures Follows(era, yoe, month, day, era, yoe, month', day')
  {
    if InMonth(yoe, month, day + 1) {
      SameMonthNext(era, yoe, month, day);
      month', day' := month, day + 1;
    } else {
      NextMonth(era, yoe, month, day);
      NextMonthStart(month);
      month', day' := if month == 12 then 1 else month + 1, 1;
    }
  }

  lemma FollowsInMarch(era: int, yoe: int, day: int)
    requires 0 <= yoe < 400 && InMonth(yoe, 2, day) && !InMonth(yoe, 2, day + 1)
    ensures yoe < 399 ==> Follows(era, yoe, 2, day, era, yoe + 1, 3, 1)
    ensures yoe == 399 ==> Follows(era, yoe, 2, day, era + 1, 0, 3, 1)
  {
    NextMarch(era, yoe, day);
    NextYearStart(yoe);
  }

  lemma FollowsCounts(era: int, yoe: int, month: int, day: int, era': int, yoe': int, month': int, day': int)
    requires 0 <= yoe < 400 && Follows(era, yoe, month, day, era', yoe', month', day')
    ensures var d := ByParts(era, yoe, month, day); CivilToEpochDays(NextDay(d)) == CivilToEpochDays(d) + 1
  {
    DaysOfParts(era, yoe, month, day);
    DaysOfParts(era', yoe', month', day');
  }

  lemma NextByParts(era: int, yoe: int, month: int, day: int)
    requires 0 <= yoe < 400 && InMonth(yoe, month, day)
    ensures var d := ByParts(era, yoe, month, day); CivilToEpochDays(NextDay(d)) == CivilToEpochDays(d) + 1
  {
    if month != 2 || InMonth(yoe, month, day + 1) {
      var month', day' := FollowsInYear(era, yoe, month, day);
      FollowsCounts(era, yoe, month, day, era, yoe, month', day');
    } else {
      FollowsInMarch(era, yoe, day);
      if yoe < 399 {
        FollowsCounts(era, yoe, 2, day, era, yoe + 1, 3, 1);
      } else {
        FollowsCounts(era, yoe, 2, day, era + 1, 0, 3, 1);
      }
    }
  }

  lemma SameMonthNext(era: int, yoe: int, month: int, day: int)
    requires InMonth(yoe, month, day) && InMonth(yoe, month, day + 1)
    ensures NextDay(ByParts(era, yoe, month, day)) == ByParts(era, yoe, month, day + 1)
  {
    LeapInEra(era, yoe);
  }

  lemma NextMonth(era: int, yoe: int, month: int, day: int)
    requires InMonth(yoe, month, day) && !InMonth(yoe, month, day + 1) && month != 2
    ensures day == DaysInMonth(1, month)
    ensures NextDay(ByParts(era, yoe, month, day)) == ByParts(era, yoe, if month == 12 then 1 else month + 1, 1)
  {
  }

  lemma NextMarch(era: int, yoe: int, day: int)
    requires 0 <= yoe < 400 && InMonth(yoe, 2, day) && !InMonth(yoe, 2, day + 1)
    ensures DayOfYear(2, day) == if LongYear(yoe) then 365 else 364
    ensures NextDay(ByParts(era, yoe, 2, day)) ==
              if yoe < 399 then ByParts(era, yoe + 1, 3, 1) else ByParts(era + 1, 0, 3, 1)
  {
    LeapInEra(era, yoe);
  }

  /** The day after has the next number. */
  lemma NextDayCounts(d: Date)
    requires Real(d)
    ensures CivilToEpochDays(NextDay(d)) == CivilToEpochDays(d) + 1
  {
    var era, yoe := PartsOf(d);
    RealByParts(era, yoe, d.month, d.day);
    NextByParts(era, yoe, d.month, d.day);
  }

  lemma NextDayIsReal(d: Date)
    requires Real(d)
    ensures Real(NextDay(d))
  {
  }

  /** Day zero is 1970-01-01, and each day number is the calendar successor of the one before. */
  lemma DaysFollowCalendar(days: int)
    ensures EpochDaysToCivil(0) == Date(1970, 1, 1)
    ensures EpochDaysToCivil(days + 1) == NextDay(EpochDaysToCivil(days))
  {
    DayZero();
    DaysRoundTrip(days);
    Successor(days, EpochDaysToCivil(days));
  }

  lemma DayZero()
    ensures EpochDaysToCivil(0) == Date(1970, 1, 1)
  {
  }

  lemma Successor(days: int, d: Date)
    requires Real(d) && CivilToEpochDays(d) == days
    ensures EpochDaysToCivil(days + 1) == NextDay(d)
  {
    NextDayCounts(d);
    NextDayIsReal(d);
    ReadBack(NextDay(d), days + 1);
  }

  lemma ReadBack(d: Date, days: int)
    requires Real(d) && CivilToEpochDays(d) == days
    ensures EpochDaysToCivil(days) == d
  {
    CivilRoundTrip(d);
  }

  /** PostgreSQL counts from 2000-01-01; the shift between the two epochs. */
  lemma PostgresEpoch()
    ensures CivilToEpochDays(Date(2000, 1, 1)) == 10957
  {
  }

  // ---------------------------------------------------------------- what the text form accepts

  /** The check on a parsed date allows any day up to 31 in any month. */
  function ParsedToEpochDays(d: Date): Option<int> {
    if 1 <= d.month <= 12 && 1 <= d.day <= 31 then Some(CivilToEpochDays(d)) else None
  }

  /** Days past the end of a month are counted on into the next. */
  function RunOver(d: Date): Date {
    NextDay(d.(day := DaysInMonth(d.year, d.month))).(day := d.day - DaysInMonth(d.year, d.month))
  }

  lemma SameMonthCounts(d: Date, day: int)
    ensures CivilToEpochDays(d.(day := day)) == CivilToEpochDays(d) + (day - d.day)
  {
  }

  lemma OverTheEnd(last: Date, over: int)
    requires Real(last) && last.day == DaysInMonth(last.year, last.month)
    ensures CivilToEpochDays(NextDay(last).(day := over)) == CivilToEpochDays(last) + over
  {
    var next := NextDay(last);
    NextDayCounts(last);
    SameMonthCounts(next, over);
    assert next.day == 1;
  }

  lemma RunOverCounts(d: Date)
    requires 1 <= d.month <= 12 && DaysInMonth(d.year, d.month) < d.day <= 31
    ensures CivilToEpochDays(RunOver(d)) == CivilToEpochDays(d)
  {
    var last := d.(day := DaysInMonth(d.year, d.month));
    SameMonthCounts(d, last.day);
    OverTheEnd(last, d.day - last.day);
  }

  lemma RunOverIsReal(d: Date)
    requires 1 <= d.month <= 12 && DaysInMonth(d.year, d.month) < d.day <= 31
    ensures Real(RunOver(d))
  {
  }

  /** An accepted date means itself exactly when it is real; otherwise it means the date it
      runs over to. */
  lemma AcceptedMeansItselfIff(d: Date)
    requires ParsedToEpochDays(d).Some?
    ensures EpochDaysToCivil(ParsedToEpochDays(d).value) == (if Real(d) then d else RunOver(d))
    ensures EpochDaysToCivil(ParsedToEpochDays(d).value) == d <==> Real(d)
  {
    if Real(d) {
      CivilRoundTrip(d);
    } else {
      RunOverCounts(d);
      RunOverIsReal(d);
      CivilRoundTrip(RunOver(d));
    }
  }

  // ---------------------------------------------------------------- 32-bit arithmetic

  predicate I32(n: int) {
    I32_MIN <= n <= I32_MAX
  }

  /** The intermediate results of the conversion of a date are 32-bit integers. */
  predicate StepsFit(y: int, era: int, doe: int) {
    && I32(y) && (y < 0 ==> I32(y - 399)) && I32(era * 400) && I32(era * 146097)
    && I32(era * 146097 + doe) && I32(era * 146097 + doe - 719468)
  }

  predicate NoOverflow(d: Date) {
    var y := MarchYear(d);
    StepsFit(y, Era(y), YearStart(y - Era(y) * 400) + DayOfYear(d.month, d.day))
  }

  lemma StepsFitIff(era: int, yoe: int, doe: int)
    requires 0 <= yoe < 400 && 0 <= doe < 146097 + 31
    ensures StepsFit(era * 400 + yoe, era, doe) <==> I32_MIN <= era * 146097 + doe - 719468 <= I32_MAX - 719468
  {
  }

  lemma DoeRange(yoe: int, month: int, day: int)
    requires 0 <= yoe < 400 && 1 <= month <= 12 && 1 <= day <= 31
    ensures 0 <= YearStart(yoe) + DayOfYear(month, day) < 146097 + 31
  {
  }

  lemma OverflowByParts(era: int, yoe: int, month: int, day: int)
    requires 0 <= yoe < 400 && 1 <= month <= 12 && 1 <= day <= 31
    ensures var days := CivilToEpochDays(ByParts(era, yoe, month, day));
            NoOverflow(ByParts(era, yoe, month, day)) <==> I32_MIN <= days <= I32_MAX - 719468
  {
    DaysOfParts(era, yoe, month, day);
    NoOverflowByParts(era, yoe, month, day);
    DoeRange(yoe, month, day);
    StepsFitIff(era, yoe, YearStart(yoe) + DayOfYear(month, day));
  }

  lemma NoOverflowByParts(era: int, yoe: int, month: int, day: int)
    requires 0 <= yoe < 400
    ensures NoOverflow(ByParts(era, yoe, month, day)) <==>
              StepsFit(era * 400 + yoe, era, YearStart(yoe) + DayOfYear(month, day))
  {
    EraOfYear(era, yoe);
    MarchYearByParts(era, yoe, month, day);
  }

  lemma MarchYearByParts(era: int, yoe: int, month: int, day: int)
    ensures MarchYear(ByParts(era, yoe, month, day)) == era * 400 + yoe
  {
  }

  /** For every date that is accepted, the conversion overflows exactly when its day number is
      not a 32-bit integer or one of the last 719468 of them. */
  lemma OverflowIff(d: Date)
    requires ParsedToEpochDays(d).Some?
    ensures NoOverflow(d) <==> I32_MIN <= ParsedToEpochDays(d).value <= I32_MAX - 719468
  {
    var era, yoe := PartsOf(d);
    OverflowByParts(era, yoe, d.month, d.day);
  }

  /** The date of every other 32-bit day number can be converted back. */
  lemma WayBackOverflowsIff(days: int)
    requires I32(days)
    ensures NoOverflow(EpochDaysToCivil(days)) <==> days <= I32_MAX - 719468
  {
    DaysRoundTrip(days);
    OverflowIff(EpochDaysToCivil(days));
  }

  /** A year that parses as a 32-bit integer and is accepted can be far too large. */
  lemma YearTwoBillionOverflows()
    ensures ParsedToEpochDays(Date(2_000_000_000, 1, 1)).Some? && !NoOverflow(Date(2_000_000_000, 1, 1))
  {
    OverflowIff(Date(2_000_000_000, 1, 1));
  }
}
