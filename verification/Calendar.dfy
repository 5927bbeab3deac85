/** The two calendar conversions of the gateway: `civil_from_days` in the usage
    history and the day count inside `parse_iso8601`.  They were written
    independently; here they are proved to be inverse bijections. */
module Calendar {
  import opened Arithmetic

  datatype Date = Date(year: int, month: int, day: int)

  predicate IsLeap(year: int) {
    year % 4 == 0 && (year % 100 != 0 || year % 400 == 0)
  }

  function MaxDayInMonth(year: int, month: int): int {
    match month
    case 2 => if IsLeap(year) then 29 else 28
    case 4 => 30
    case 6 => 30
    case 9 => 30
    case 11 => 30
    case _ => 31
  }

  predicate ValidDate(t: Date) {
    1 <= t.month <= 12 && 1 <= t.day <= MaxDayInMonth(t.year, t.month)
  }

  // ------------------------------------------------------- days to a date

  /** Integer division as the machine does it: towards zero. */
  function TruncDiv(a: int, b: nat): int
    requires b > 0
  {
    if a >= 0 then a / b else -(-a / b)
  }

  function Era(z: int): int {
    TruncDiv(if z >= 0 then z else z - 146_096, 146_097)
  }

  function YearOfEra(doe: int): int {
    (doe - doe / 1_460 + doe / 36_524 - doe / 146_096) / 365
  }

  function DaysBeforeYear(yoe: int): int {
    365 * yoe + yoe / 4 - yoe / 100
  }

  /** `civil_from_days` before its final narrowing casts. */
  function CivilWide(days: int): Date {
    var z := days + 719_468;
    DateInEra(Era(z), z - Era(z) * 146_097)
  }

  function DateInEra(era: int, doe: int): Date {
    var yoe := YearOfEra(doe);
    DateInYear(yoe + era * 400, doe - DaysBeforeYear(yoe))
  }

  function DateInYear(y: int, doy: int): Date {
    var mp := (5 * doy + 2) / 153;
    var d := doy - (153 * mp + 2) / 5 + 1;
    var m := if mp < 10 then mp + 3 else mp - 9;
    Date(if m <= 2 then y + 1 else y, m, d)
  }

  function WrapI32(x: int): (r: int)
    ensures -0x8000_0000 <= r < 0x8000_0000
    ensures -0x8000_0000 <= x < 0x8000_0000 ==> r == x
  {
    (x + 0x8000_0000) % 0x1_0000_0000 - 0x8000_0000
  }

  function CivilFromDays(days: int): Date {
    var t := CivilWide(days);
    t.(year := WrapI32(t.year))
  }

  // ------------------------------------------------------- a date to days

  /** The day formula of `parse_iso8601`. */
  function DaysFromCivil(t: Date): int {
    var y := if t.month <= 2 then t.year - 1 else t.year;
    var m := if t.month <= 2 then t.month + 9 else t.month - 3;
    YearDays(y) + MonthOffset(m) + t.day - 719_469
  }

  function MonthOffset(m: int): int {
    (m * 306 + 5) / 10
  }

  function YearDays(y: int): int {
    365 * y + y / 4 - y / 100 + y / 400
  }

  // ---------------------------------------------------------------- lemmas

  /** The adjusted truncating division is floor division, below zero as well. */
  lemma EraIsFloor(z: int)
    ensures Era(z) == z / 146_097
  {
  }

  lemma EraOfDay(era: int, doe: int)
    requires 0 <= doe < 146_097
    ensures Era(146_097 * era + doe) == era
  {
    var z := 146_097 * era + doe;
    EraIsFloor(z);
    Quotient(z, 146_097, era, doe);
  }

  /** A year of an era is counted from 1 March, so its leap day comes last. */
  predicate DayOfYear(yoe: int, doy: int) {
    0 <= yoe < 400 && 0 <= doy < (if IsLeap(yoe + 1) then 366 else 365)
  }

  lemma CenturyYear(c: int, q: int, s: int)
    requires 0 <= c < 4 && 0 <= q < 25 && 0 <= s < 4
    ensures var yoe := 100 * c + 4 * q + s;
            && 0 <= yoe < 400
            && DaysBeforeYear(yoe) == 36_524 * c + 1_461 * q + 365 * s
            && (IsLeap(yoe + 1) <==> s == 3 && (q < 24 || c == 3))
  {
    var yoe := 100 * c + 4 * q + s;
    assert yoe / 4 == 25 * c + q && yoe / 100 == c;
    if s == 3 {
      assert (yoe + 1) % 4 == 0 && (yoe + 1) % 100 == (4 * q + 4) % 100;
      assert (yoe + 1) % 400 == 0 <==> q == 24 && c == 3;
    } else {
      assert (yoe + 1) % 4 == s + 1;
    }
  }

  lemma YearFromQuarters(c: int, q: int, s: int, doy: int)
    requires 0 <= c < 4 && 0 <= q < 25 && 0 <= s < 4
    requires 0 <= doy < (if s == 3 && (q < 24 || c == 3) then 366 else 365)
    ensures var doe := 36_524 * c + 1_461 * q + 365 * s + doy;
            0 <= doe < 146_097 && YearOfEra(doe) == 100 * c + 4 * q + s
  {
    var doe := 36_524 * c + 1_461 * q + 365 * s + doy;
    var inFour := 24 * c + q + 365 * s + doy;
    assert doe / 1_460 == 25 * c + q + (if inFour >= 1_460 then 1 else 0);
    var last := c == 3 && q == 24 && s == 3 && doy == 365;
    assert doe / 36_524 == c + (if last then 1 else 0);
    assert doe / 146_096 == if last then 1 else 0;
  }

  lemma YearRecovered(yoe: int, doy: int)
    requires DayOfYear(yoe, doy)
    ensures 0 <= DaysBeforeYear(yoe) + doy < 146_097
    ensures YearOfEra(DaysBeforeYear(yoe) + doy) == yoe
  {
    var c, q, s := yoe / 100, yoe % 100 / 4, yoe % 4;
    assert yoe == 100 * c + 4 * q + s;
    CenturyYear(c, q, s);
    YearFromQuarters(c, q, s, doy);
  }

  lemma YearExists(doe: int)
    requires 0 <= doe < 146_097
    ensures DayOfYear(YearOfEra(doe), doe - DaysBeforeYear(YearOfEra(doe)))
  {
    var c := if doe / 36_524 < 4 then doe / 36_524 else 3;
    var r := doe - 36_524 * c;
    var q := r / 1_461;
    var r' := r - 1_461 * q;
    var s := if r' / 365 < 4 then r' / 365 else 3;
    assert 0 <= r' <= 1_460 && 0 <= q < 25;
    assert r' == 1_460 && q == 24 ==> c == 3;
    QuartersMakeYear(c, q, s, r' - 365 * s);
  }

  lemma QuartersMakeYear(c: int, q: int, s: int, doy: int)
    requires 0 <= c < 4 && 0 <= q < 25 && 0 <= s < 4
    requires 0 <= doy < (if s == 3 && (q < 24 || c == 3) then 366 else 365)
    ensures var doe := 36_524 * c + 1_461 * q + 365 * s + doy;
            DayOfYear(YearOfEra(doe), doe - DaysBeforeYear(YearOfEra(doe)))
  {
    CenturyYear(c, q, s);
    YearFromQuarters(c, q, s, doy);
  }

  /** Eras of 400 years have 146097 days and the leap pattern repeats. */
  lemma EraYears(era: int, yoe: int)
    requires 0 <= yoe < 400
    ensures var y := yoe + era * 400;
            && YearDays(y) == 146_097 * era + DaysBeforeYear(yoe)
            && (IsLeap(y + 1) <==> IsLeap(yoe + 1))
  {
    Shift(yoe, 100 * era, 4);
    Shift(yoe, 4 * era, 100);
    Shift(yoe, era, 400);
    Shift(yoe + 1, 100 * era, 4);
    Shift(yoe + 1, 4 * era, 100);
    Shift(yoe + 1, era, 400);
  }

  /** A date split the way both formulas see it: era, year of era, month counted from
      March, day. */
  datatype March = March(era: int, yoe: int, mp: int, day: int)

  function DaysBeforeMonth(mp: int): int { (153 * mp + 2) / 5 }

  function MonthLength(yoe: int, mp: int): int {
    if mp == 11 then (if IsLeap(yoe + 1) then 29 else 28) else DaysBeforeMonth(mp + 1) - DaysBeforeMonth(mp)
  }

  predicate ValidMarch(m: March) {
    0 <= m.yoe < 400 && 0 <= m.mp < 12 && 1 <= m.day <= MonthLength(m.yoe, m.mp)
  }

  function DateOf(m: March): Date {
    var y := m.yoe + m.era * 400;
    var month := if m.mp < 10 then m.mp + 3 else m.mp - 9;
    Date(if month <= 2 then y + 1 else y, month, m.day)
  }

  function MarchOf(t: Date): March {
    var y := if t.month <= 2 then t.year - 1 else t.year;
    March(y / 400, y % 400, if t.month <= 2 then t.month + 9 else t.month - 3, t.day)
  }

  function DayNumber(m: March): int {
    146_097 * m.era + DaysBeforeYear(m.yoe) + DaysBeforeMonth(m.mp) + m.day - 1 - 719_468
  }

  lemma MonthLengths(yoe: int, era: int, mp: int)
    requires 0 <= yoe < 400 && 0 <= mp < 12
    ensures var t := DateOf(March(era, yoe, mp, 1)); MonthLength(yoe, mp) == MaxDayInMonth(t.year, t.month)
    ensures MonthOffset(mp) == DaysBeforeMonth(mp)
  {
    EraYears(era, yoe);
  }

  lemma MarchToDate(m: March)
    requires ValidMarch(m)
    ensures ValidDate(DateOf(m)) && DaysFromCivil(DateOf(m)) == DayNumber(m)
  {
    MonthLengths(m.yoe, m.era, m.mp);
    EraYears(m.era, m.yoe);
  }

  lemma DateToMarch(t: Date)
    requires ValidDate(t)
    ensures ValidMarch(MarchOf(t)) && DateOf(MarchOf(t)) == t
  {
    var m := MarchOf(t);
    MonthLengths(m.yoe, m.era, m.mp);
  }

  lemma MonthOfDay(yoe: int, doy: int)
    requires DayOfYear(yoe, doy)
    ensures var mp := (5 * doy + 2) / 153;
            0 <= mp < 12 && 1 <= doy - DaysBeforeMonth(mp) + 1 <= MonthLength(yoe, mp)
  {
  }

  lemma DayOfMonth(yoe: int, mp: int, day: int)
    requires 0 <= yoe < 400 && 0 <= mp < 12 && 1 <= day <= MonthLength(yoe, mp)
    ensures DayOfYear(yoe, DaysBeforeMonth(mp) + day - 1)
    ensures (5 * (DaysBeforeMonth(mp) + day - 1) + 2) / 153 == mp
  {
    var k := 5 * (DaysBeforeMonth(mp) + day - 1) + 2;
    assert 153 * mp <= k < 153 * mp + 153;
  }

  lemma MonthInYear(y: int, yoe: int, mp: int, day: int)
    requires 0 <= yoe < 400 && 0 <= mp < 12 && 1 <= day <= MonthLength(yoe, mp)
    ensures var month := if mp < 10 then mp + 3 else mp - 9;
            DateInYear(y, DaysBeforeMonth(mp) + day - 1) == Date(if month <= 2 then y + 1 else y, month, day)
  {
    DayOfMonth(yoe, mp, day);
  }

  lemma YearInEra(era: int, yoe: int, doy: int)
    requires DayOfYear(yoe, doy)
    ensures DateInEra(era, DaysBeforeYear(yoe) + doy) == DateInYear(yoe + era * 400, doy)
  {
    YearRecovered(yoe, doy);
  }

  lemma CivilInEra(era: int, doe: int)
    requires 0 <= doe < 146_097
    ensures CivilWide(146_097 * era + doe - 719_468) == DateInEra(era, doe)
  {
    EraOfDay(era, doe);
  }

  lemma CivilOfMarch(m: March)
    requires ValidMarch(m)
    ensures CivilWide(DayNumber(m)) == DateOf(m)
  {
    hide CivilWide, DateInEra, DateInYear, DaysBeforeYear, DaysBeforeMonth, MonthLength, DayOfYear, YearOfEra;
    var doy := DaysBeforeMonth(m.mp) + m.day - 1;
    calc {
      CivilWide(DayNumber(m));
    == { DayOfMonth(m.yoe, m.mp, m.day); YearRecovered(m.yoe, doy); CivilInEra(m.era, DaysBeforeYear(m.yoe) + doy); }
      DateInEra(m.era, DaysBeforeYear(m.yoe) + doy);
    == { DayOfMonth(m.yoe, m.mp, m.day); YearInEra(m.era, m.yoe, doy); }
      DateInYear(m.yoe + m.era * 400, doy);
    == { MonthInYear(m.yoe + m.era * 400, m.yoe, m.mp, m.day); }
      DateOf(m);
    }
  }

  lemma MarchExists(days: int) returns (m: March)
    ensures ValidMarch(m) && DayNumber(m) == days
  {
    var z := days + 719_468;
    var era, doe := z / 146_097, z % 146_097;
    YearExists(doe);
    var yoe := YearOfEra(doe);
    var doy := doe - DaysBeforeYear(yoe);
    MonthOfDay(yoe, doy);
    var mp := (5 * doy + 2) / 153;
    m := March(era, yoe, mp, doy - DaysBeforeMonth(mp) + 1);
  }

  // --------------------------------------------------------------- theorems

  /** Every day number, negative ones included, is the day number of the valid date it
      is converted to. */
  lemma DaysThenDate(days: int)
    ensures ValidDate(CivilWide(days)) && DaysFromCivil(CivilWide(days)) == days
  {
    var m := MarchExists(days);
    CivilOfMarch(m);
    MarchToDate(m);
  }

  /** Every valid date is the date of its day number. */
  lemma DateThenDays(t: Date)
    requires ValidDate(t)
    ensures CivilWide(DaysFromCivil(t)) == t
  {
    var m := MarchOf(t);
    DateToMarch(t);
    MarchToDate(m);
    CivilOfMarch(m);
  }

  const LAST_YEAR := 2_147_483_647  // i32::MAX

  lemma {:induction false} YearDaysGrow(a: int, b: int)
    requires a <= b
    ensures YearDays(b) - YearDays(a) >= 365 * (b - a)
    decreases b - a
  {
    if a < b {
      YearDaysGrow(a, b - 1);
      LeapDayStep(b);
    }
  }

  lemma YearBounds(t: Date)
    requires ValidDate(t)
    ensures YearDays(t.year - 1) - 719_162 <= DaysFromCivil(t) < YearDays(t.year) - 719_162
  {
    hide YearDays, IsLeap;
    LeapDayStep(t.year);
  }

  /** The day formula is monotone in the year, so the epoch splits the valid dates. */
  lemma EpochSplitsDates(t: Date)
    requires ValidDate(t)
    ensures DaysFromCivil(Date(1970, 1, 1)) == 0
    ensures DaysFromCivil(t) >= 0 <==> t.year >= 1970
    ensures DaysFromCivil(t) <= DaysFromCivil(Date(LAST_YEAR, 12, 31)) <==> t.year <= LAST_YEAR
  {
    assert YearDays(1969) == 719_162;
    assert DaysFromCivil(Date(LAST_YEAR, 12, 31)) == YearDays(LAST_YEAR) - 719_163;
    hide DaysFromCivil, YearDays, ValidDate;
    YearBounds(t);
    if t.year >= 1970 {
      YearDaysGrow(1969, t.year - 1);
    } else {
      YearDaysGrow(t.year, 1969);
    }
    if t.year <= LAST_YEAR {
      YearDaysGrow(t.year, LAST_YEAR);
    } else {
      YearDaysGrow(LAST_YEAR, t.year - 1);
    }
  }

  /** Between the day numbers 0 .. last day of year 2^31 - 1 and the valid dates from
      1970-01-01 on, the two conversions are mutually inverse, narrowing casts included. */
  lemma CalendarBijection(days: int, t: Date)
    ensures 0 <= days <= DaysFromCivil(Date(LAST_YEAR, 12, 31)) ==>
              ValidDate(CivilFromDays(days)) && 1970 <= CivilFromDays(days).year <= LAST_YEAR &&
              DaysFromCivil(CivilFromDays(days)) == days
    ensures ValidDate(t) && 1970 <= t.year <= LAST_YEAR ==>
              0 <= DaysFromCivil(t) <= DaysFromCivil(Date(LAST_YEAR, 12, 31)) &&
              CivilFromDays(DaysFromCivil(t)) == t
  {
    DaysThenDate(days);
    EpochSplitsDates(CivilWide(days));
    if ValidDate(t) {
      DateThenDays(t);
      EpochSplitsDates(t);
    }
  }

  /** The Gregorian calendar by its own rule: the day after a date. */
  function NextDate(t: Date): Date {
    if t.day < MaxDayInMonth(t.year, t.month) then t.(day := t.day + 1)
    else if t.month < 12 then Date(t.year, t.month + 1, 1)
    else Date(t.year + 1, 1, 1)
  }

  lemma QuotientSteps(y: int, d: nat)
    requires d > 1
    ensures y / d == (y - 1) / d + (if y % d == 0 then 1 else 0)
  {
    var q, r := y / d, y % d;
    if r == 0 {
      Quotient(y - 1, d, q - 1, d - 1);
    } else {
      Quotient(y - 1, d, q, r - 1);
    }
  }

  lemma LeapDayStep(y: int)
    ensures YearDays(y) == YearDays(y - 1) + (if IsLeap(y) then 366 else 365)
  {
    QuotientSteps(y, 4);
    QuotientSteps(y, 100);
    QuotientSteps(y, 400);
    assert y % 400 == 0 ==> y % 100 == 0;
    assert y % 100 == 0 ==> y % 4 == 0;
  }

  lemma MonthStep(year: int, month: int)
    requires 1 <= month <= 12 && month != 2
    ensures var m := if month <= 2 then month + 9 else month - 3;
            MonthOffset(m + 1) == MonthOffset(m) + MaxDayInMonth(year, month)
  {
  }

  lemma NextDateIsNextDay(t: Date)
    requires ValidDate(t)
    ensures ValidDate(NextDate(t)) && DaysFromCivil(NextDate(t)) == DaysFromCivil(t) + 1
  {
    if t.day < MaxDayInMonth(t.year, t.month) {
    } else if t.month == 2 {
      LeapDayStep(t.year);
    } else {
      MonthStep(t.year, t.month);
    }
  }

  /** `civil_from_days` walks the Gregorian calendar: it takes the day
      number after that of any date to the next date.  By `DaysThenDate` this covers
      every day number. */
  lemma CivilFollowsCalendar(t: Date)
    requires ValidDate(t)
    ensures CivilWide(DaysFromCivil(t) + 1) == NextDate(t)
  {
    NextDateIsNextDay(t);
    CivilAt(NextDate(t), DaysFromCivil(t) + 1);
  }

  lemma CivilAt(t: Date, days: int)
    requires ValidDate(t) && DaysFromCivil(t) == days
    ensures CivilWide(days) == t
  {
    DateThenDays(t);
  }
}
