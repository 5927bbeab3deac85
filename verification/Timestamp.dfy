/** `parse_iso8601` and `split_offset`: RFC 3339 section 5.6 timestamps to Unix
    seconds.  The services are built with overflow checks, so arithmetic that leaves
    its machine type panics; that outcome is part of the model. */
module Timestamp {
  import opened Calendar
  import opened Text
  import opened Wrappers

  datatype Parsed<+T> = Value(value: T) | Rejected | Panics {
    predicate IsFailure() { !Value? }
    function PropagateFailure<U>(): Parsed<U>
      requires !Value?
    {
      if Rejected? then Rejected else Panics
    }
    function Extract(): T
      requires Value?
    {
      value
    }
  }

  function Need<T>(o: Option<T>): Parsed<T> {
    if o.Some? then Value(o.value) else Rejected
  }

  function U64(x: int): (r: Parsed<nat>)
    ensures r.Value? <==> 0 <= x <= U64_MAX
    ensures r.Value? ==> r.value == x
  {
    if 0 <= x <= U64_MAX then Value(x) else Panics
  }

  function I64(x: int): Parsed<int> {
    if -I64_MAX - 1 <= x <= I64_MAX then Value(x) else Panics
  }

  function WrapI64(x: nat): int
    requires x <= U64_MAX
  {
    if x <= I64_MAX then x else x - U64_MAX - 1
  }

  function SplitOffset(s: string): Parsed<(string, int)> {
    if StripSuffix(s, "Z").Some? then Value((StripSuffix(s, "Z").value, 0))
    else
      var idx :- OffsetIndex(s);
      var (oh, om) :- Need(SplitOnce(s[idx + 1..], ":"));
      var offset :- OffsetSeconds(s[idx] == '-', oh, om);
      Value((s[..idx], offset))
  }

  function OffsetSeconds(negative: bool, oh: string, om: string): Parsed<int> {
    var hours :- Need(ParseI64(oh));
    var hourSecs :- I64(hours * 3600);
    var minutes :- Need(ParseI64(om));
    var minuteSecs :- I64(minutes * 60);
    var sum :- I64(hourSecs + minuteSecs);
    I64(if negative then -sum else sum)
  }

  /** The last plus sign, or the last minus sign after the first `T`. */
  function OffsetIndex(s: string): (r: Parsed<nat>)
    ensures r.Value? ==> r.value < |s|
  {
    match LastIndexOf(s, '+')
    case Some(i) => Value(i)
    case None =>
      var t :- Need(FindFrom(s, "T", 0));
      var i :- Need(LastIndexOf(s[t..], '-'));
      Value(i + t)
  }

  datatype Fields = Fields(year: nat, month: nat, day: nat, hour: nat, minute: nat, second: nat)

  function ThreeNumbers(parts: seq<string>): Parsed<(nat, nat, nat)> {
    if |parts| == 0 then Rejected else
    var a :- Need(ParseU64(parts[0]));
    if |parts| == 1 then Rejected else
    var b :- Need(ParseU64(parts[1]));
    if |parts| == 2 then Rejected else
    var c :- Need(ParseU64(parts[2]));
    Value((a, b, c))
  }

  function ParseFields(datetime: string): Parsed<Fields> {
    var (datePart, timePart) :- Need(SplitOnce(datetime, "T"));
    var (year, month, day) :- ThreeNumbers(Split(datePart, '-'));
    var (hour, minute, second) :- ThreeNumbers(Split(Split(timePart, '.')[0], ':'));
    Value(Fields(year, month, day, hour, minute, second))
  }

  predicate ValidFields(f: Fields) {
    ValidDate(Date(f.year, f.month, f.day)) && f.hour <= 23 && f.minute <= 59 && f.second <= 59
  }

  /** The range checks and the checked arithmetic, in the order of the source. */
  function ToUnix(f: Fields, offset: int): Parsed<nat> {
    if !(1 <= f.month <= 12) || f.day == 0 || f.hour > 23 || f.minute > 59 || f.second > 59 then Rejected
    else if f.day > MaxDayInMonth(f.year, f.month) then Rejected
    else
      var days :- CheckedDays(f.year, f.month, f.day);
      var secs :- U64(days * 86_400 + f.hour * 3_600 + f.minute * 60 + f.second);
      var utc :- I64(WrapI64(secs) - offset);
      if utc < 0 then Rejected else Value(utc)
  }

  function CheckedDays(year: nat, month: nat, day: nat): Parsed<nat>
    requires 1 <= month <= 12
  {
    var y :- U64(if month <= 2 then year - 1 else year);
    var m := if month <= 2 then month + 9 else month - 3;
    var whole :- U64(365 * y);
    var leaps :- U64(whole + y / 4);
    var ordinal :- U64(leaps - y / 100 + y / 400 + (m * 306 + 5) / 10 + day);
    U64(ordinal - 719_469)
  }

  function ParseIso8601(s: string): Parsed<nat> {
    var (datetime, offset) :- SplitOffset(Trim(s));
    var f :- ParseFields(datetime);
    ToUnix(f, offset)
  }

  // ---------------------------------------------------------------- printing

  function DateString(year: nat, month: nat, day: nat): string {
    Padded(year, 4) + "-" + Padded(month, 2) + "-" + Padded(day, 2)
  }

  /** `format_day`. */
  function FormatDay(dayStart: nat): string
    requires CivilFromDays(dayStart / 86_400).year >= 0
  {
    DaysThenDate(dayStart / 86_400);
    var t := CivilFromDays(dayStart / 86_400);
    DateString(t.year, t.month, t.day)
  }

  type DigitString = s: string | AllDigits(s)

  /** Any digits, of any number, after a full stop. */
  datatype Fraction = NoFraction | Decimals(digits: DigitString)

  /** What `toISOString` prints. */
  function Millis(ms: nat): Fraction { Decimals(Padded(ms, 3)) }

  datatype Zone = Zulu | Ahead(hours: nat, minutes: nat) | Behind(hours: nat, minutes: nat)

  function FractionString(x: Fraction): string {
    match x
    case NoFraction => ""
    case Decimals(digits) => "." + digits
  }

  function TimeString(f: Fields, x: Fraction): string {
    Padded(f.hour, 2) + ":" + Padded(f.minute, 2) + ":" + Padded(f.second, 2) + FractionString(x)
  }

  function LocalString(f: Fields, x: Fraction): string {
    DateString(f.year, f.month, f.day) + "T" + TimeString(f, x)
  }

  function ZoneString(z: Zone): string {
    match z
    case Zulu => "Z"
    case Ahead(h, m) => "+" + (Padded(h, 2) + ":" + Padded(m, 2))
    case Behind(h, m) => "-" + (Padded(h, 2) + ":" + Padded(m, 2))
  }

  function ZoneOffset(z: Zone): int {
    match z
    case Zulu => 0
    case Ahead(h, m) => h * 3600 + m * 60
    case Behind(h, m) => -(h * 3600 + m * 60)
  }

  /** An RFC 3339 `date-time`; `toISOString` prints `Iso(f, Millis(ms), Zulu)`. */
  function Iso(f: Fields, x: Fraction, z: Zone): string {
    LocalString(f, x) + ZoneString(z)
  }

  // ------------------------------------------------------------------ lemmas

  /** The characters a printed timestamp is made of, per part. */
  predicate Free(s: string, cs: string) { forall c :: c in cs ==> c !in s }

  lemma DigitsFree(s: string)
    requires AllDigits(s)
    ensures Free(s, "T-:.+Z")
  {
  }

  lemma DateStringFree(y: nat, m: nat, d: nat)
    ensures Free(DateString(y, m, d), "T:.+Z")
  {
    DigitsFree(Padded(y, 4));
    DigitsFree(Padded(m, 2));
    DigitsFree(Padded(d, 2));
  }

  lemma TimeStringFree(f: Fields, x: Fraction)
    ensures Free(TimeString(f, x), "T-+Z")
  {
    DigitsFree(Padded(f.hour, 2));
    DigitsFree(Padded(f.minute, 2));
    DigitsFree(Padded(f.second, 2));
    if x.Decimals? {
      DigitsFree(x.digits);
    }
  }

  lemma SplitThree(a: string, b: string, c: string, sep: char)
    requires sep !in a && sep !in b && sep !in c
    ensures Split(a + [sep] + b + [sep] + c, sep) == [a, b, c]
  {
    assert a + [sep] + b + [sep] + c == a + [sep] + (b + [sep] + c);
    SplitAt(a, sep, b + [sep] + c);
    SplitAt(b, sep, c);
    SplitLast(c, sep);
  }

  predicate Machine(f: Fields) {
    f.year <= U64_MAX && f.month <= U64_MAX && f.day <= U64_MAX &&
    f.hour <= U64_MAX && f.minute <= U64_MAX && f.second <= U64_MAX
  }

  lemma ReadThree(a: nat, wa: nat, b: nat, wb: nat, c: nat, wc: nat, sep: char)
    requires a <= U64_MAX && b <= U64_MAX && c <= U64_MAX && !IsDigit(sep)
    ensures ThreeNumbers(Split(Padded(a, wa) + [sep] + Padded(b, wb) + [sep] + Padded(c, wc), sep)) == Value((a, b, c))
  {
    hide Padded, Split, ParseU64, ParseI64;
    SplitThree(Padded(a, wa), Padded(b, wb), Padded(c, wc), sep);
    PaddedRoundTrip(a, wa);
    PaddedRoundTrip(b, wb);
    PaddedRoundTrip(c, wc);
  }

  lemma FractionDropped(f: Fields, x: Fraction)
    ensures Split(TimeString(f, x), '.')[0] == Padded(f.hour, 2) + ":" + Padded(f.minute, 2) + ":" + Padded(f.second, 2)
  {
    var hms := Padded(f.hour, 2) + ":" + Padded(f.minute, 2) + ":" + Padded(f.second, 2);
    assert '.' !in hms;
    if x.Decimals? {
      assert TimeString(f, x) == hms + ['.'] + x.digits;
      SplitAt(hms, '.', x.digits);
    } else {
      assert TimeString(f, x) == hms;
      SplitLast(hms, '.');
    }
  }

  /** Whatever the fields, printing and reading the local part returns them. */
  lemma LocalRoundTrip(f: Fields, x: Fraction)
    requires Machine(f)
    ensures ParseFields(LocalString(f, x)) == Value(f)
  {
    DateStringFree(f.year, f.month, f.day);
    SplitOnceAt(DateString(f.year, f.month, f.day), 'T', TimeString(f, x));
    ReadThree(f.year, 4, f.month, 2, f.day, 2, '-');
    FractionDropped(f, x);
    ReadThree(f.hour, 2, f.minute, 2, f.second, 2, ':');
  }

  predicate SmallZone(z: Zone) {
    z.Zulu? || (z.hours <= 99 && z.minutes <= 99)
  }

  lemma PlusFound(local: string, hm: string)
    requires '+' !in hm
    ensures OffsetIndex(local + ['+'] + hm) == Value(|local|)
  {
    LastIndexAt(local, '+', hm);
  }

  lemma MinusFound(date: string, time: string, hm: string)
    requires 'T' !in date && '-' !in hm && '+' !in date && '+' !in time && '+' !in hm
    ensures OffsetIndex((date + ['T'] + time) + ['-'] + hm) == Value(|date + ['T'] + time|)
  {
    hide FindFrom, LastIndexOf, OffsetIndex, SplitOnce;
    var s := (date + ['T'] + time) + ['-'] + hm;
    var tail := (['T'] + time) + ['-'] + hm;
    assert '+' !in s;
    assert s == date + ['T'] + (time + ['-'] + hm);
    SplitOnceAt(date, 'T', time + ['-'] + hm);
    assert s[|date|..] == tail;
    LastIndexAt(['T'] + time, '-', hm);
    MinusPicked(s, |date|, tail, |time| + 1);
  }

  lemma MinusPicked(s: string, t: nat, tail: string, i: nat)
    requires '+' !in s && FindFrom(s, "T", 0) == Some(t) && s[t..] == tail && LastIndexOf(tail, '-') == Some(i)
    ensures OffsetIndex(s) == Value(i + t)
  {
  }

  function SignedOffset(negative: bool, h: nat, m: nat): int {
    if negative then -(h * 3600 + m * 60) else h * 3600 + m * 60
  }

  lemma OffsetComputed(negative: bool, oh: string, om: string, h: nat, m: nat)
    requires h <= 99 && m <= 99 && Need(ParseI64(oh)) == Value(h) && Need(ParseI64(om)) == Value(m)
    ensures OffsetSeconds(negative, oh, om) == Value(SignedOffset(negative, h, m))
  {
  }

  lemma NoZulu(s: string)
    requires s != [] && s[|s| - 1] != 'Z'
    ensures StripSuffix(s, "Z").None?
  {
    assert s[|s| - 1..][0] == s[|s| - 1];
  }

  lemma SplitOffsetAt(s: string, idx: nat, oh: string, om: string, offset: int)
    requires idx < |s| && StripSuffix(s, "Z").None? && OffsetIndex(s) == Value(idx)
    requires SplitOnce(s[idx + 1..], ":") == Some((oh, om)) && OffsetSeconds(s[idx] == '-', oh, om) == Value(offset)
    ensures SplitOffset(s) == Value((s[..idx], offset))
  {
    hide StripSuffix, OffsetIndex, SplitOnce, OffsetSeconds;
  }

  lemma OffsetRead(local: string, sign: char, h: nat, m: nat)
    requires sign == '+' || sign == '-'
    requires h <= 99 && m <= 99
    requires OffsetIndex(local + [sign] + (Padded(h, 2) + [':'] + Padded(m, 2))) == Value(|local|)
    ensures SplitOffset(local + [sign] + (Padded(h, 2) + [':'] + Padded(m, 2))) ==
            Value((local, SignedOffset(sign == '-', h, m)))
  {
    hide OffsetIndex, SplitOnce, SplitOffset, OffsetSeconds, Padded, StripSuffix, ParseI64;
    var oh, om := Padded(h, 2), Padded(m, 2);
    var s := local + [sign] + (oh + [':'] + om);
    assert s[|s| - 1] == om[|om| - 1];
    NoZulu(s);
    assert s[|local| + 1..] == oh + [':'] + om && s[..|local|] == local && s[|local|] == sign;
    SplitOnceAt(oh, ':', om);
    PaddedRoundTrip(h, 2);
    PaddedRoundTrip(m, 2);
    OffsetComputed(sign == '-', oh, om, h, m);
    SplitOffsetAt(s, |local|, oh, om, SignedOffset(sign == '-', h, m));
  }

  lemma IsoSplits(f: Fields, x: Fraction, z: Zone)
    requires !z.Zulu?
    ensures Iso(f, x, z) ==
            LocalString(f, x) + [if z.Ahead? then '+' else '-'] + (Padded(z.hours, 2) + [':'] + Padded(z.minutes, 2))
  {
    Assoc(LocalString(f, x), [if z.Ahead? then '+' else '-'], Padded(z.hours, 2) + [':'] + Padded(z.minutes, 2));
  }

  lemma Assoc(a: string, b: string, c: string)
    ensures a + (b + c) == a + b + c
  {
  }

  lemma SignFound(f: Fields, x: Fraction, sign: char, h: nat, m: nat)
    requires sign == '+' || sign == '-'
    ensures OffsetIndex(LocalString(f, x) + [sign] + (Padded(h, 2) + [':'] + Padded(m, 2))) == Value(|LocalString(f, x)|)
  {
    var hm := Padded(h, 2) + [':'] + Padded(m, 2);
    assert '+' !in hm && '-' !in hm;
    if sign == '+' {
      PlusFound(LocalString(f, x), hm);
    } else {
      DateStringFree(f.year, f.month, f.day);
      TimeStringFree(f, x);
      MinusFound(DateString(f.year, f.month, f.day), TimeString(f, x), hm);
    }
  }

  /** Every zone suffix is cut off and read as its offset. */
  lemma OffsetRoundTrip(f: Fields, x: Fraction, z: Zone)
    requires SmallZone(z)
    ensures SplitOffset(Iso(f, x, z)) == Value((LocalString(f, x), ZoneOffset(z)))
  {
    if z.Zulu? {
      ZuluRoundTrip(f, x);
    } else {
      hide *;
      var sign := if z.Ahead? then '+' else '-';
      IsoSplits(f, x, z);
      SignFound(f, x, sign, z.hours, z.minutes);
      OffsetRead(LocalString(f, x), sign, z.hours, z.minutes);
      OffsetOfZone(z);
    }
  }

  lemma OffsetOfZone(z: Zone)
    requires !z.Zulu?
    ensures ZoneOffset(z) == SignedOffset(!z.Ahead?, z.hours, z.minutes)
  {
  }

  lemma ZuluRoundTrip(f: Fields, x: Fraction)
    ensures SplitOffset(Iso(f, x, Zulu)) == Value((LocalString(f, x), 0))
  {
    StripSuffixAt(LocalString(f, x), "Z");
  }

  lemma TrimIdle(s: string)
    requires s != "" && !IsWhitespace(s[0]) && !IsWhitespace(s[|s| - 1])
    ensures Trim(s) == s
  {
  }

  lemma LocalStartsWithDigit(f: Fields, x: Fraction)
    ensures LocalString(f, x) != "" && IsDigit(LocalString(f, x)[0])
  {
    hide Padded, TimeString;
    assert LocalString(f, x)[0] == DateString(f.year, f.month, f.day)[0] == Padded(f.year, 4)[0];
  }

  lemma ZoneEndsVisibly(z: Zone)
    ensures ZoneString(z) != "" && !IsWhitespace(ZoneString(z)[|ZoneString(z)| - 1])
  {
    hide Padded;
    if !z.Zulu? {
      assert ZoneString(z)[|ZoneString(z)| - 1] == Padded(z.minutes, 2)[|Padded(z.minutes, 2)| - 1];
    }
  }

  lemma NothingToTrim(f: Fields, x: Fraction, z: Zone)
    ensures Trim(Iso(f, x, z)) == Iso(f, x, z)
  {
    LocalStartsWithDigit(f, x);
    ZoneEndsVisibly(z);
    hide LocalString, ZoneString, Trim;
    TrimIdle(Iso(f, x, z));
  }

  function UnixSeconds(f: Fields): int {
    DaysFromCivil(Date(f.year, f.month, f.day)) * 86_400 + f.hour * 3_600 + f.minute * 60 + f.second
  }

  /** What the checked arithmetic amounts to, for every combination of fields up to the
      last 32-bit year. */
  function Expected(f: Fields, offset: int): Parsed<nat> {
    if !ValidFields(f) then Rejected
    else if f.year < 1970 then Panics
    else if UnixSeconds(f) < offset then Rejected
    else Value(UnixSeconds(f) - offset)
  }

  lemma YearDaysBounded(y: int)
    ensures 0 <= y <= LAST_YEAR ==> 0 <= y / 400 <= y / 100 <= y / 4 <= y && 365 * y <= YearDays(y) <= 366 * y
  {
  }

  lemma CheckedDaysIsCalendar(t: Date)
    requires ValidDate(t) && 0 <= t.year <= LAST_YEAR
    ensures CheckedDays(t.year, t.month, t.day) == if t.year < 1970 then Panics else Value(DaysFromCivil(t))
    ensures DaysFromCivil(t) <= 366 * LAST_YEAR
  {
    EpochSplitsDates(t);
    YearDaysBounded(if t.month <= 2 then t.year - 1 else t.year);
  }

  lemma ArithmeticIsCalendar(f: Fields, offset: int)
    requires f.year <= LAST_YEAR && -400_000 <= offset <= 400_000
    ensures ToUnix(f, offset) == Expected(f, offset)
  {
    if ValidFields(f) {
      CheckedDaysIsCalendar(Date(f.year, f.month, f.day));
    }
  }

  /** The timestamp theorem: for every printed date and time, any fraction and any zone,
      the parser returns the Unix time of exactly the valid ones, rejects the others, and
      leaves the range of its machine integers exactly for valid dates before 1970. */
  lemma TimestampTheorem(f: Fields, x: Fraction, z: Zone)
    requires Machine(f) && f.year <= LAST_YEAR && SmallZone(z)
    ensures ParseIso8601(Iso(f, x, z)) == Expected(f, ZoneOffset(z))
  {
    NothingToTrim(f, x, z);
    OffsetRoundTrip(f, x, z);
    LocalRoundTrip(f, x);
    ArithmeticIsCalendar(f, ZoneOffset(z));
  }

  /** The limits of RFC 3339 section 5.7, spelled out: a field beyond them is rejected; within
      them, every date from 1970 on up to the 28th, the 29th of a leap February, and longer
      months to their end, is its Unix time. */
  lemma TimestampLimits(f: Fields, x: Fraction, z: Zone, r: Parsed<nat>)
    requires Machine(f) && f.year <= LAST_YEAR && SmallZone(z) && r == ParseIso8601(Iso(f, x, z))
    ensures !(1 <= f.month <= 12) || !(1 <= f.day <= 31) || f.hour > 23 || f.minute > 59 || f.second > 59 ==> r == Rejected
    ensures f.day == 31 && (f.month == 2 || f.month == 4 || f.month == 6 || f.month == 9 || f.month == 11) ==> r == Rejected
    ensures f.month == 2 && (f.day == 30 || (f.day == 29 && (f.year % 4 != 0 || (f.year % 100 == 0 && f.year % 400 != 0)))) ==> r == Rejected
    ensures && f.year >= 1970 && 1 <= f.month <= 12 && f.hour <= 23 && f.minute <= 59 && f.second <= 59
            && (1 <= f.day <= 28 || (f.day == 29 && f.month == 2 && f.year % 4 == 0 && (f.year % 100 != 0 || f.year % 400 == 0))
                || (29 <= f.day <= 30 && f.month != 2) || (f.day == 31 && f.month in {1, 3, 5, 7, 8, 10, 12})) ==>
              r == if UnixSeconds(f) < ZoneOffset(z) then Rejected else Value(UnixSeconds(f) - ZoneOffset(z))
  {
    hide ParseIso8601, Iso, UnixSeconds, ZoneOffset;
    TimestampTheorem(f, x, z);
  }

  /** Whitespace around a timestamp is ignored. */
  lemma SpaceAroundIgnored(left: string, s: string, right: string)
    requires Blank(left) && Blank(right)
    ensures ParseIso8601(left + s + right) == ParseIso8601(s)
  {
    hide SplitOffset, Trim;
    TrimIgnores(left, s, right);
  }

  lemma ZeroPadded()
    ensures Padded(0, 2) == "00"
  {
  }

  lemma MidnightString(f: Fields)
    requires f.hour == f.minute == f.second == 0
    ensures Iso(f, NoFraction, Zulu) == DateString(f.year, f.month, f.day) + "T00:00:00Z"
  {
    hide Padded, DateString;
    ZeroPadded();
    assert TimeString(f, NoFraction) == "00:00:00";
    hide TimeString;
    Assoc(DateString(f.year, f.month, f.day), "T00:00:00", "Z");
  }

  lemma MidnightRoundTrip(t: Date)
    requires ValidDate(t) && 1970 <= t.year <= LAST_YEAR
    ensures ParseIso8601(DateString(t.year, t.month, t.day) + "T00:00:00Z") == Value(DaysFromCivil(t) * 86_400)
  {
    hide ParseIso8601, DateString, Iso, DaysFromCivil;
    var f := Fields(t.year, t.month, t.day, 0, 0, 0);
    EpochSplitsDates(t);
    TimestampTheorem(f, NoFraction, Zulu);
    MidnightString(f);
  }

  /** The usage history's date labels: reading a label back as midnight UTC returns the
      start of that day. */
  lemma DayLabelRoundTrip(dayStart: nat)
    requires dayStart % 86_400 == 0 && dayStart / 86_400 <= DaysFromCivil(Date(LAST_YEAR, 12, 31))
    ensures CivilFromDays(dayStart / 86_400).year >= 0
    ensures ParseIso8601(FormatDay(dayStart) + "T00:00:00Z") == Value(dayStart)
  {
    hide ParseIso8601, DateString, CivilFromDays, DaysFromCivil, ValidDate;
    CalendarBijection(dayStart / 86_400, Date(1970, 1, 1));
    MidnightRoundTrip(CivilFromDays(dayStart / 86_400));
  }
}
