/** `utc_timestamp`: calendar fields from a count of seconds, by arithmetic on 400-year eras, against
    the Gregorian calendar counted out year by year and month by month. */
module Calendar {

  datatype Fields = Fields(year: int, month: int, day: int, hour: int, minute: int, second: int)

  // ---- The source's arithmetic ----

  function YearOfEra(dayOfEra: int): int {
    (dayOfEra - dayOfEra / 1_460 + dayOfEra / 36_524 - dayOfEra / 146_096) / 365
  }

  function Month(monthPart: int): int {
    monthPart + if monthPart < 10 then 3 else -9
  }

  datatype Date = Date(year: int, month: int, day: int)

  function DateOf(days: int): Date {
    var z := days + 719_468;
    var era := (if z >= 0 then z else z - 146_096) / 146_097;
    var doe := z - era * 146_097;
    var yoe := YearOfEra(doe);
    MarchDate(yoe + era * 400, doe - (365 * yoe + yoe / 4 - yoe / 100))
  }

  /** The date of a day counted from 1 March. */
  function MarchDate(march: int, doy: int): Date {
    var monthPart := (5 * doy + 2) / 153;
    var day, month := doy - (153 * monthPart + 2) / 5 + 1, Month(monthPart);
    Date(march + (if month <= 2 then 1 else 0), if month < 1 then 1 else month, day)
  }

  function UtcTimestamp(seconds: int): Fields {
    var daySeconds := seconds % 86_400;
    var Date(year, month, day) := DateOf(seconds / 86_400);
    Fields(year, month, day, daySeconds / 3_600, daySeconds % 3_600 / 60, daySeconds % 60)
  }

  // ---- The calendar ----

  predicate Leap(year: int) {
    year % 4 == 0 && (year % 100 != 0 || year % 400 == 0)
  }

  function DaysInMonth(year: int, month: int): int {
    if month == 2 then if Leap(year) then 29 else 28
    else if month == 4 || month == 6 || month == 9 || month == 11 then 30
    else 31
  }

  function DaysBeforeMonth(year: int, month: nat): int {
    if month <= 1 then 0 else DaysBeforeMonth(year, month - 1) + DaysInMonth(year, month - 1)
  }

  function YearLength(year: int): int {
    if Leap(year) then 366 else 365
  }

  /** Days from 1 January 1970. */
  function DaysBeforeYear(year: int): int
    decreases year
  {
    if year <= 1970 then 0 else DaysBeforeYear(year - 1) + YearLength(year - 1)
  }

  predicate Valid(f: Fields) {
    && f.year >= 1970 && 1 <= f.month <= 12 && 1 <= f.day <= DaysInMonth(f.year, f.month)
    && 0 <= f.hour < 24 && 0 <= f.minute < 60 && 0 <= f.second < 60
  }

  function DayNumber(year: int, month: int, day: int): int
    requires month >= 1
  {
    DaysBeforeYear(year) + DaysBeforeMonth(year, month) + day - 1
  }

  /** Seconds since the epoch, counted out. */
  function Seconds(f: Fields): int
    requires f.month >= 1
  {
    DayNumber(f.year, f.month, f.day) * 86_400 + f.hour * 3_600 + f.minute * 60 + f.second
  }

  // ---- Years ----

  /** Leap years up to and including n. */
  function Leaps(n: int): int {
    n / 4 - n / 100 + n / 400
  }

  lemma LeapsStep(n: int)
    ensures Leaps(n) == Leaps(n - 1) + if Leap(n) then 1 else 0
  {
    DivStep(n, 4);
    DivStep(n, 100);
    DivStep(n, 400);
  }

  lemma DivStep(n: int, k: int)
    requires k == 4 || k == 100 || k == 400
    ensures n / k == (n - 1) / k + if n % k == 0 then 1 else 0
  {}

  lemma {:induction false} DaysBeforeYearIs(year: int)
    requires year >= 1970
    ensures DaysBeforeYear(year) == 365 * (year - 1970) + Leaps(year - 1) - Leaps(1969)
    decreases year
  {
    if year > 1970 {
      DaysBeforeYearIs(year - 1);
      LeapsStep(year - 1);
    }
  }

  // ---- Days of an era ----

  /** Where a day of the era lies: century, four-year cycle, year of the cycle, day of the year. */
  lemma Decompose(doe: int) returns (c: int, q: int, b: int, d: int)
    requires 0 <= doe < 146_097
    ensures 0 <= c < 4 && 0 <= q < 25 && 0 <= b < 4 && 0 <= d <= 365
    ensures doe == 36_524 * c + 1_461 * q + 365 * b + d
    ensures d == 365 ==> b == 3 && (q < 24 || c == 3)
  {
    c := if doe == 146_096 then 3 else doe / 36_524;
    var r := doe - 36_524 * c;
    q := r / 1_461;
    var s := r - 1_461 * q;
    b := if s == 1_460 then 3 else s / 365;
    d := s - 365 * b;
  }

  lemma LeapDays(c: int, q: int, b: int)
    requires 0 <= c < 4 && 0 <= q < 25 && 0 <= b < 4
    ensures var y := 100 * c + 4 * q + b; y / 4 == 25 * c + q && y / 100 == c
  {}

  /** The formula finds the year. */
  lemma YearOfEraIs(c: int, q: int, b: int, d: int)
    requires 0 <= c < 4 && 0 <= q < 25 && 0 <= b < 4 && 0 <= d <= 365
    requires d == 365 ==> b == 3 && (q < 24 || c == 3)
    ensures YearOfEra(36_524 * c + 1_461 * q + 365 * b + d) == 100 * c + 4 * q + b
  {
    var doe := 36_524 * c + 1_461 * q + 365 * b + d;
    var a, y := 25 * c + q, 100 * c + 4 * q + b;
    var carry := if a - c + 365 * b + d >= 1_460 then 1 else 0;
    Quotient(doe, 1_460, a + carry, a - c + 365 * b + d - 1_460 * carry);
    var last := if doe == 146_096 then 1 else 0;
    Quotient(doe, 36_524, c + last, 1_461 * q + 365 * b + d - 36_524 * last);
    Quotient(doe, 146_096, last, doe - 146_096 * last);
    Quotient(365 * y + d - carry, 365, y, d - carry);
  }

  lemma Quotient(n: int, k: int, quotient: int, remainder: int)
    requires k == 365 || k == 1_460 || k == 36_524 || k == 146_096
    requires n == k * quotient + remainder && 0 <= remainder < k
    ensures n / k == quotient
  {}

  // ---- Days of a year that begins in March ----

  function MonthStart(monthPart: int): int {
    (153 * monthPart + 2) / 5
  }

  lemma MonthOfDay(d: int)
    requires 0 <= d <= 365
    ensures var m := (5 * d + 2) / 153; 0 <= m <= 11 && MonthStart(m) <= d < MonthStart(m + 1)
  {}

  /** Months from March are as long as the calendar says, except the last. */
  lemma MonthLengths(year: int, m: int)
    requires 0 <= m < 11
    ensures MonthStart(m + 1) - MonthStart(m) == DaysInMonth(year, Month(m))
  {}

  lemma {:induction false} DaysBeforeMonthIs(year: int, month: nat)
    requires 3 <= month <= 12
    ensures DaysBeforeMonth(year, month) == MonthStart(month - 3) + 59 + if Leap(year) then 1 else 0
    decreases month
  {
    if month == 3 {
      assert DaysBeforeMonth(year, 2) == 31;
    } else {
      DaysBeforeMonthIs(year, month - 1);
      MonthLengths(year, month - 4);
    }
  }

  // ---- The date of a day ----

  /** The day d of the March year Y, as a date. */
  lemma DateOfDay(march: int, d: int)
    requires march >= 1969 && 0 <= d <= 365 && (d == 365 ==> Leap(march + 1)) && (march == 1969 ==> d >= 306)
    ensures var Date(year, month, day) := MarchDate(march, d);
            && 1 <= month <= 12 && year >= 1970 && 1 <= day <= DaysInMonth(year, month)
            && DayNumber(year, month, day) == 365 * march + Leaps(march) + d - 719_468
  {
    var m := (5 * d + 2) / 153;
    MonthOfDay(d);
    if m < 10 {
      MonthLengths(march, m);
      DaysBeforeMonthIs(march, m + 3);
      assert march >= 1970 by { assert march == 1969 ==> m >= 10; }
      DaysBeforeYearIs(march);
      LeapsStep(march);
    } else {
      assert DaysBeforeMonth(march + 1, 1) == 0 && DaysBeforeMonth(march + 1, 2) == 31;
      DaysBeforeYearIs(march + 1);
    }
  }

  lemma LeapsOfEra(era: int, y: int)
    requires 0 <= y < 400
    ensures Leaps(400 * era + y) == 97 * era + y / 4 - y / 100
  {
    var n := 400 * era + y;
    assert n / 4 == 100 * era + y / 4;
    assert n / 100 == 4 * era + y / 100;
    assert n / 400 == era;
  }

  lemma NextIsLeap(era: int, c: int, q: int)
    requires 0 <= c < 4 && 0 <= q < 25 && (q < 24 || c == 3)
    ensures Leap(400 * era + 100 * c + 4 * q + 3 + 1)
  {
    var n := 400 * era + 100 * c + 4 * q + 4;
    assert n == 4 * (100 * era + 25 * c + q + 1);
    if q < 24 {
      assert n == 100 * (4 * era + c) + 4 * (q + 1);
    } else {
      assert n == 400 * (era + 1);
    }
  }

  /** The March year and day of a day of an era. */
  lemma MarchOf(era: int, doe: int) returns (march: int, d: int)
    requires 0 <= doe < 146_097
    ensures march == YearOfEra(doe) + era * 400
    ensures var yoe := YearOfEra(doe); d == doe - (365 * yoe + yoe / 4 - yoe / 100)
    ensures 0 <= d <= 365 && (d == 365 ==> Leap(march + 1))
    ensures 365 * march + Leaps(march) + d == era * 146_097 + doe
  {
    var c, q, b;
    c, q, b, d := Decompose(doe);
    var y := 100 * c + 4 * q + b;
    march := y + era * 400;
    YearOfEraIs(c, q, b, d);
    LeapDays(c, q, b);
    LeapsOfEra(era, y);
    if d == 365 {
      NextIsLeap(era, c, q);
    }
  }

  /** The date arithmetic is right for every day since the epoch. */
  lemma DateIsRight(days: int)
    requires days >= 0
    ensures var Date(year, month, day) := DateOf(days);
            && year >= 1970 && 1 <= month <= 12 && 1 <= day <= DaysInMonth(year, month)
            && DayNumber(year, month, day) == days
  {
    var march, d := MarchOfDay(days);
    MarchBound(march, d);
    DateOfDay(march, d);
  }

  lemma MarchOfDay(days: int) returns (march: int, d: int)
    requires days >= 0
    ensures DateOf(days) == MarchDate(march, d)
    ensures 0 <= d <= 365 && (d == 365 ==> Leap(march + 1)) && 365 * march + Leaps(march) + d == days + 719_468
  {
    var z := days + 719_468;
    var era := z / 146_097;
    march, d := MarchOf(era, z - era * 146_097);
  }

  /** No day since the epoch lies in a March year before 1969. */
  lemma MarchBound(march: int, d: int)
    requires 365 * march + Leaps(march) + d >= 719_468 && 0 <= d <= 365
    ensures march >= 1969 && (march == 1969 ==> d >= 306)
  {
    if march < 1969 {
      assert Leaps(march) <= Leaps(1968) by { LeapsMonotone(march, 1968); }
      assert false;
    }
  }

  lemma {:induction false} LeapsMonotone(m: int, n: int)
    requires m <= n
    ensures Leaps(m) <= Leaps(n)
    decreases n - m
  {
    if m < n {
      LeapsMonotone(m, n - 1);
      LeapsStep(n);
    }
  }

  // ---- Theorems ----

  lemma TimeOfDay(s: int)
    requires 0 <= s < 86_400
    ensures 0 <= s / 3_600 < 24 && 0 <= s % 3_600 / 60 < 60 && 0 <= s % 60 < 60
    ensures s / 3_600 * 3_600 + s % 3_600 / 60 * 60 + s % 60 == s
  {
    assert s % 3_600 % 60 == s % 60;
  }

  /** For every time since the epoch the fields are a real date and time of day, and counting them
      out gives the time back. */
  lemma TimestampIsRight(seconds: int)
    requires seconds >= 0
    ensures Valid(UtcTimestamp(seconds)) && Seconds(UtcTimestamp(seconds)) == seconds
  {
    DateIsRight(seconds / 86_400);
    TimeOfDay(seconds % 86_400);
  }

  /** The guard against a month before January never applies. */
  lemma ClampNeverFires(seconds: int)
    requires seconds >= 0
    ensures var z := seconds / 86_400 + 719_468;
            var doe := z - z / 146_097 * 146_097;
            var yoe := YearOfEra(doe);
            Month((5 * (doe - (365 * yoe + yoe / 4 - yoe / 100)) + 2) / 153) >= 1
  {
    var z := seconds / 86_400 + 719_468;
    var c, q, b, d := Decompose(z - z / 146_097 * 146_097);
    YearOfEraIs(c, q, b, d);
    LeapDays(c, q, b);
    MonthOfDay(d);
  }

  function TimeOf(f: Fields): int {
    f.hour * 3_600 + f.minute * 60 + f.second
  }

  predicate Before(f: Fields, g: Fields) {
    || f.year < g.year
    || (f.year == g.year && (
        || f.month < g.month
        || (f.month == g.month && (
            || f.day < g.day
            || (f.day == g.day && TimeOf(f) < TimeOf(g))))))
  }

  lemma {:induction false} MonthsAdd(year: int, m: nat, n: nat)
    requires 1 <= m < n <= 13
    ensures DaysBeforeMonth(year, m) + DaysInMonth(year, m) <= DaysBeforeMonth(year, n)
    decreases n
  {
    if m < n - 1 {
      MonthsAdd(year, m, n - 1);
    }
  }

  lemma {:induction false} YearsAdd(y: int, z: int)
    requires 1970 <= y < z
    ensures DaysBeforeYear(y) + YearLength(y) <= DaysBeforeYear(z)
    decreases z
  {
    if y < z - 1 {
      YearsAdd(y, z - 1);
    }
  }

  lemma WithinYear(year: int, month: int, day: int)
    requires 1 <= month <= 12 && 1 <= day <= DaysInMonth(year, month)
    ensures 0 <= DaysBeforeMonth(year, month) + day - 1 < YearLength(year)
  {
    MonthsAdd(year, month, 13);
    if month > 1 {
      MonthsAdd(year, 1, month);
    }
    DaysBeforeMonthIs(year, 12);
  }

  lemma DaysOrdered(f: Fields, g: Fields)
    requires Valid(f) && Valid(g)
    requires f.year < g.year || (f.year == g.year && (f.month < g.month || (f.month == g.month && f.day < g.day)))
    ensures DayNumber(f.year, f.month, f.day) < DayNumber(g.year, g.month, g.day)
  {
    WithinYear(f.year, f.month, f.day);
    WithinYear(g.year, g.month, g.day);
    if f.year < g.year {
      YearsAdd(f.year, g.year);
    } else if f.month < g.month {
      MonthsAdd(f.year, f.month, g.month);
    }
  }

  lemma BeforeIsEarlier(f: Fields, g: Fields)
    requires Valid(f) && Valid(g) && Before(f, g)
    ensures Seconds(f) < Seconds(g)
  {
    if f.year < g.year || f.month < g.month || f.day < g.day {
      DaysOrdered(f, g);
    }
  }

  /** The order of the fields is the order of time. */
  lemma OrderIsKept(s: int, t: int)
    requires s >= 0 && t >= 0
    ensures s < t <==> Before(UtcTimestamp(s), UtcTimestamp(t))
  {
    var f, g := UtcTimestamp(s), UtcTimestamp(t);
    TimestampIsRight(s);
    TimestampIsRight(t);
    if Before(f, g) {
      BeforeIsEarlier(f, g);
    } else if Before(g, f) {
      BeforeIsEarlier(g, f);
    }
  }
}
