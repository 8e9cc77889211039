/** The Gregorian calendar of the Xbox clock driver, `rtc.c`: timestamps to fields and back. */
module Calendar {
  import opened Bytes

  const SECONDS_PER_DAY := 86400

  /** Weekday 1 is Sunday. */
  datatype Fields = Fields(year: nat, month: nat, day: nat, weekday: nat, hour: nat, minute: nat, second: nat)

  predicate IsLeap(year: nat) {
    year % 4 == 0 && (year % 100 != 0 || year % 400 == 0)
  }

  function YearDays(year: nat): (n: nat)
    ensures 365 <= n <= 366
  {
    if IsLeap(year) then 366 else 365
  }

  /** Days of month `m`, counted from 0. */
  function MonthDays(year: nat, m: nat): (n: nat)
    ensures 28 <= n <= 31
  {
    if m == 1 then (if IsLeap(year) then 29 else 28)
    else if m == 3 || m == 5 || m == 8 || m == 10 then 30
    else 31
  }

  /** Days from 1970 to the start of a year. */
  function DaysBeforeYear(year: nat): nat {
    if year <= 1970 then 0 else DaysBeforeYear(year - 1) + YearDays(year - 1)
  }

  /** Days from the start of the year to month `m`, counted from 0, of at most twelve months. */
  function DaysBeforeMonth(year: nat, m: nat): nat {
    if m == 0 then 0 else if m > 12 then DaysBeforeMonth(year, 12)
        else DaysBeforeMonth(year, m - 1) + MonthDays(year, m - 1)
  }

  predicate ValidDate(f: Fields) {
    1970 <= f.year && 1 <= f.month <= 12 && 1 <= f.day <= MonthDays(f.year, f.month - 1)
  }

  predicate ValidFields(f: Fields) {
    ValidDate(f) && f.hour < 24 && f.minute < 60 && f.second < 60
  }

  /** Days since 1970-01-01; negative for a zero day in the first month. */
  function DayNumber(f: Fields): int {
    (DaysBeforeYear(f.year) as int) + DaysBeforeMonth(f.year, if f.month == 0 then 0 else f.month - 1) + f.day - 1
  }

  function Seconds(f: Fields): int {
    DayNumber(f) * SECONDS_PER_DAY + f.hour * 3600 + f.minute * 60 + f.second
  }

  // ---------------------------------------------------------------- the two loops

  /** The loops over years and months; month and day counted from 0. */
  method DateOf(days: nat) returns (year: nat, month: nat, day: nat)
    ensures 1970 <= year && month < 12 && day < MonthDays(year, month)
    ensures DaysBeforeYear(year) + DaysBeforeMonth(year, month) + day == days
  {
    hide IsLeap, YearDays, MonthDays;
    year, day := 1970, days;
    while day >= YearDays(year)
      invariant year >= 1970 && DaysBeforeYear(year) + day == days
      decreases day
    {
      day := day - YearDays(year);
      year := year + 1;
    }
    month := 0;
    MonthsMakeAYear(year);
    while month < 12 && day >= MonthDays(year, month)
      invariant month <= 12
      invariant DaysBeforeYear(year) + DaysBeforeMonth(year, month) + day == days
      invariant DaysBeforeMonth(year, month) + day < DaysBeforeMonth(year, 12)
    {
      day := day - MonthDays(year, month);
      month := month + 1;
    }
  }

  method ConvertTimestamp(timestamp: u32) returns (f: Fields)
    ensures ValidFields(f) && Seconds(f) == timestamp
    ensures f.weekday == (DayNumber(f) + 4) % 7 + 1
  {
    hide DaysBeforeYear, DaysBeforeMonth, MonthDays, DayNumber, Seconds, ValidFields;
    var days := timestamp / SECONDS_PER_DAY;
    var rest := timestamp % SECONDS_PER_DAY;
    var hour := rest / 3600;
    rest := rest % 3600;
    var minute, second := rest / 60, rest % 60;
    var weekday := (days + 4) % 7 + 1;
    var year, month, day := DateOf(days);
    f := Fields(year, month + 1, day + 1, weekday, hour, minute, second);
    Assembled(timestamp, year, month, day);
  }

  /** The date found and the time of day make up the timestamp. */
  lemma Assembled(t: nat, year: nat, month: nat, day: nat)
    requires 1970 <= year && month < 12 && day < MonthDays(year, month)
    requires DaysBeforeYear(year) + DaysBeforeMonth(year, month) + day == t / SECONDS_PER_DAY
    ensures var r := t % SECONDS_PER_DAY;
            var f := Fields(year, month + 1, day + 1, (t / SECONDS_PER_DAY + 4) % 7 + 1, r / 3600, r % 3600 / 60,
                r % 3600 % 60);
            ValidFields(f) && Seconds(f) == t && f.weekday == (DayNumber(f) + 4) % 7 + 1
  {
    hide DaysBeforeYear, DaysBeforeMonth, MonthDays, DayNumber, Seconds, ValidFields;
    var r := t % SECONDS_PER_DAY;
    DayParts(t);
    PartsAreSeconds(Fields(year, month + 1, day + 1, (t / SECONDS_PER_DAY + 4) % 7 + 1, r / 3600, r % 3600 / 60,
        r % 3600 % 60), t / SECONDS_PER_DAY, t);
  }

  lemma PartsAreSeconds(f: Fields, days: nat, t: nat)
    requires 1970 <= f.year && 1 <= f.month <= 12 && 1 <= f.day <= MonthDays(f.year, f.month - 1)
    requires f.hour < 24 && f.minute < 60 && f.second < 60
    requires DaysBeforeYear(f.year) + DaysBeforeMonth(f.year, f.month - 1) + f.day - 1 == days
    requires t == days * SECONDS_PER_DAY + f.hour * 3600 + f.minute * 60 + f.second
    ensures ValidFields(f) && Seconds(f) == t && DayNumber(f) == days
  {
    hide DaysBeforeYear, DaysBeforeMonth, MonthDays;
  }

  lemma DayParts(t: nat)
    ensures var r := t % SECONDS_PER_DAY;
            && t == t / SECONDS_PER_DAY * SECONDS_PER_DAY + r / 3600 * 3600 + r % 3600 / 60 * 60 + r % 3600 % 60
            && r / 3600 < 24 && r % 3600 / 60 < 60 && r % 3600 % 60 < 60
  {
  }

  function Cumulative(month: nat): nat {
    match month
    case 1 => 0 case 2 => 31 case 3 => 59 case 4 => 90 case 5 => 120 case 6 => 151
    case 7 => 181 case 8 => 212 case 9 => 243 case 10 => 273 case 11 => 304 case _ => 334
  }

  lemma {:induction false} MonthTable(year: nat, month: nat)
    requires 1 <= month <= 12
    ensures DaysBeforeMonth(year, month - 1) == Cumulative(month) + if month >= 3 && IsLeap(year) then 1 else 0
    decreases month
  {
    if month > 1 {
      MonthTable(year, month - 1);
    }
  }

  lemma MonthsMakeAYear(year: nat)
    ensures DaysBeforeMonth(year, 12) == YearDays(year)
  {
    MonthTable(year, 12);
  }

  /** `make_timestamp`, in 32-bit arithmetic, for any fields at all. */
  method MakeTimestamp(f: Fields) returns (t: u32)
    ensures t == Wrap32(Seconds(f))
  {
    var days := 0;
    var year := 1970;
    while year < f.year
      invariant 1970 <= year && (f.year < year ==> year == 1970) && days == DaysBeforeYear(year)
    {
      days := days + YearDays(year);
      year := year + 1;
    }
    assert days == DaysBeforeYear(f.year);
    var month := 0;
    while month + 1 < f.month && month < 12
      invariant 0 <= month <= 12 && (month > 0 ==> month + 1 <= f.month)
      invariant days == DaysBeforeYear(f.year) + DaysBeforeMonth(f.year, month)
    {
      days := days + MonthDays(f.year, month);
      month := month + 1;
    }
    assert DaysBeforeMonth(f.year, month) == DaysBeforeMonth(f.year, if f.month == 0 then 0 else f.month - 1);
    t := Wrap32((days + f.day - 1) * SECONDS_PER_DAY + f.hour * 3600 + f.minute * 60 + f.second);
  }

  // ---------------------------------------------------------------- inverses

  lemma {:induction false} YearsAreFurther(a: nat, b: nat)
    requires 1970 <= a < b
    ensures DaysBeforeYear(a) + YearDays(a) <= DaysBeforeYear(b)
    decreases b
  {
    if a < b - 1 {
      YearsAreFurther(a, b - 1);
    }
  }

  lemma {:induction false} MonthsAreFurther(year: nat, a: nat, b: nat)
    requires a < b <= 12
    ensures DaysBeforeMonth(year, a) + MonthDays(year, a) <= DaysBeforeMonth(year, b)
    decreases b
  {
    if a < b - 1 {
      MonthsAreFurther(year, a, b - 1);
    }
  }

  lemma DayInsideYear(f: Fields)
    requires ValidDate(f)
    ensures DaysBeforeYear(f.year) <= DayNumber(f) < DaysBeforeYear(f.year) + YearDays(f.year)
  {
    MonthsMakeAYear(f.year);
    MonthsAreFurther(f.year, f.month - 1, 12);
  }

  lemma SameDaySameDate(f: Fields, g: Fields)
    requires ValidDate(f) && ValidDate(g) && DayNumber(f) == DayNumber(g)
    ensures f.year == g.year && f.month == g.month && f.day == g.day
  {
    DayInsideYear(f);
    DayInsideYear(g);
    if f.year < g.year {
      YearsAreFurther(f.year, g.year);
    } else if g.year < f.year {
      YearsAreFurther(g.year, f.year);
    } else if f.month < g.month {
      MonthsAreFurther(f.year, f.month - 1, g.month - 1);
    } else if g.month < f.month {
      MonthsAreFurther(f.year, g.month - 1, f.month - 1);
    }
  }

  lemma TimeOfDay(d: int, h: nat, m: nat, s: nat)
    requires h < 24 && m < 60 && s < 60
    ensures var x := d * SECONDS_PER_DAY + h * 3600 + m * 60 + s;
            x / SECONDS_PER_DAY == d && x % SECONDS_PER_DAY / 3600 == h && x % SECONDS_PER_DAY % 3600 / 60 == m
                && x % SECONDS_PER_DAY % 60 == s
  {
    var r := h * 3600 + m * 60 + s;
    var x := d * SECONDS_PER_DAY + r;
    assert r < SECONDS_PER_DAY;
    assert x / SECONDS_PER_DAY == d && x % SECONDS_PER_DAY == r;
    assert r / 3600 == h && r % 3600 == m * 60 + s;
    assert r % 60 == s;
  }

  /** Different valid fields mean different times: a timestamp has one date and time of day, so
      converting forth and back, in either order, gives back what one started with. */
  lemma OneDatePerTimestamp(f: Fields, g: Fields)
    requires ValidFields(f) && ValidFields(g) && Seconds(f) == Seconds(g)
    ensures f == g.(weekday := f.weekday)
  {
    TimeOfDay(DayNumber(f), f.hour, f.minute, f.second);
    TimeOfDay(DayNumber(g), g.hour, g.minute, g.second);
    SameDaySameDate(f, g);
  }

  method RoundTrip(t: u32) returns (f: Fields, back: u32)
    ensures ValidFields(f) && back == t
  {
    f := ConvertTimestamp(t);
    back := MakeTimestamp(f);
  }

  method RoundTripOfFields(g: Fields) returns (t: u32, f: Fields)
    requires ValidFields(g) && Seconds(g) < 0x1_0000_0000
    ensures f == g.(weekday := f.weekday)
  {
    t := MakeTimestamp(g);
    DayInsideYear(g);
    f := ConvertTimestamp(t);
    OneDatePerTimestamp(f, g);
  }

  // ---------------------------------------------------------------- reference formulas

  /** Day of the year, from 0. */
  function YearDay(f: Fields): int {
    DaysBeforeMonth(f.year, if f.month == 0 then 0 else f.month - 1) + f.day - 1
  }

  /** Seconds Since the Epoch, section 4.16 of the Base Definitions of IEEE Std 1003.1-2017. */
  function SecondsSinceTheEpoch(tmYear: int, tmYday: int, tmHour: int, tmMin: int, tmSec: int): int {
    tmSec + tmMin * 60 + tmHour * 3600 + tmYday * 86400 + (tmYear - 70) * 31536000
    + ((tmYear - 69) / 4) * 86400 - ((tmYear - 1) / 100) * 86400 + ((tmYear + 299) / 400) * 86400
  }

  function Bit(b: bool): nat {
    if b then 1 else 0
  }

  /** A quotient steps up exactly at the multiples of its divisor. */
  lemma QuarterSteps(p: nat)
    requires 1970 <= p
    ensures (p + 1 - 1969) / 4 == (p - 1969) / 4 + Bit(p % 4 == 0)
  {
  }

  lemma CenturySteps(p: nat)
    requires 1970 <= p
    ensures (p + 1 - 1901) / 100 == (p - 1901) / 100 + Bit(p % 100 == 0)
  {
  }

  lemma CycleSteps(p: nat)
    requires 1970 <= p
    ensures (p + 1 - 1601) / 400 == (p - 1601) / 400 + Bit(p % 400 == 0)
  {
  }

  lemma LeapBits(p: nat)
    ensures Bit(IsLeap(p)) == Bit(p % 4 == 0) - Bit(p % 100 == 0) + Bit(p % 400 == 0)
  {
    CenturiesDivide(p / 400);
    QuartersDivide(p / 100);
    assert p == 400 * (p / 400) + p % 400 && p == 100 * (p / 100) + p % 100;
  }

  lemma CenturiesDivide(k: nat)
    ensures 400 * k % 100 == 0
  {
    assert 400 * k % 100 == 100 * (4 * k - 400 * k / 100);
  }

  lemma QuartersDivide(k: nat)
    ensures 100 * k % 4 == 0
  {
    assert 100 * k % 4 == 4 * (25 * k - 100 * k / 4);
  }

  lemma {:induction false} LeapDaysInClosedForm(year: nat)
    requires 1970 <= year
    ensures DaysBeforeYear(year) == 365 * (year - 1970) + (year - 1969) / 4 - (year - 1901) / 100 + (year - 1601) / 400
    decreases year
  {
    hide IsLeap, Bit;
    if year > 1970 {
      var p := year - 1;
      LeapDaysInClosedForm(p);
      OneMoreYear(p);
      QuarterSteps(p);
      CenturySteps(p);
      CycleSteps(p);
      LeapBits(p);
    }
  }

  lemma OneMoreYear(p: nat)
    requires 1970 <= p
    ensures DaysBeforeYear(p + 1) == DaysBeforeYear(p) + 365 + Bit(IsLeap(p))
  {
    hide IsLeap;
  }

  /** For years from 1970 on the loops compute the POSIX formula. */
  lemma AgreesWithPosix(f: Fields)
    requires 1970 <= f.year
    ensures Seconds(f) == SecondsSinceTheEpoch(f.year - 1900, YearDay(f), f.hour, f.minute, f.second)
  {
    LeapDaysInClosedForm(f.year);
  }

  function MonthOffset(month: nat): nat {
    match month
    case 1 => 0 case 2 => 3 case 3 => 2 case 4 => 5 case 5 => 0 case 6 => 3
    case 7 => 5 case 8 => 1 case 9 => 4 case 10 => 6 case 11 => 2 case _ => 4
  }

  /** Leap days up to the end of year `y` of the Gregorian calendar. */
  function LeapDays(y: int): int {
    y / 4 - y / 100 + y / 400
  }

  /** The weekday from the date alone, 0 for Sunday, by the month-offset rule of the Gregorian
      calendar in which the year starts in March. */
  function WeekdayOf(year: nat, month: nat, day: nat): int {
    var y := if month < 3 then (year as int) - 1 else year;
    (y + LeapDays(y) + MonthOffset(month) + day) % 7
  }

  lemma SameRemainder(a: int, b: int, q: int)
    requires a == b + 7 * q
    ensures a % 7 == b % 7
  {
  }

  lemma ByFour(year: nat)
    ensures (year - 1969) / 4 == (year - 1) / 4 - 492
    ensures year / 4 == (year - 1) / 4 + Bit(year % 4 == 0)
  {
  }

  lemma ByHundred(year: nat)
    ensures (year - 1901) / 100 == (year - 1) / 100 - 19
    ensures year / 100 == (year - 1) / 100 + Bit(year % 100 == 0)
  {
  }

  lemma ByFourHundred(year: nat)
    ensures (year - 1601) / 400 == (year - 1) / 400 - 4
    ensures year / 400 == (year - 1) / 400 + Bit(year % 400 == 0)
  {
  }

  lemma YearStartInLeapDays(year: nat)
    requires 1970 <= year
    ensures DaysBeforeYear(year) == 365 * (year - 1970) + LeapDays(year - 1) - 477
    ensures LeapDays(year) == LeapDays(year - 1) + if IsLeap(year) then 1 else 0
  {
    hide IsLeap, DaysBeforeYear;
    LeapDaysInClosedForm(year);
    ByFour(year);
    ByHundred(year);
    ByFourHundred(year);
    LeapBits(year);
  }

  /** How many weeks the month table is ahead of the month offsets. */
  function Weeks(month: nat): int {
    match month
    case 1 => -349 case 2 => -345 case 3 => -341 case 4 => -337 case 5 => -332 case 6 => -328
    case 7 => -324 case 8 => -319 case 9 => -315 case 10 => -311 case 11 => -306 case _ => -302
  }

  /** The stored weekday is the real one. */
  lemma WeekdayIsRight(f: Fields)
    requires ValidDate(f)
    ensures (DayNumber(f) + 4) % 7 == WeekdayOf(f.year, f.month, f.day)
  {
    hide DaysBeforeYear, DaysBeforeMonth, LeapDays, IsLeap;
    YearStartInLeapDays(f.year);
    MonthTable(f.year, f.month);
    var y := if f.month < 3 then (f.year as int) - 1 else f.year;
    SameRemainder(DayNumber(f) + 4, y + LeapDays(y) + MonthOffset(f.month) + f.day,
        52 * (f.year - 1970) + Weeks(f.month));
  }
}
