/** Calendar arithmetic behind the timetable page. A day is an integer day
    number counted from 1970-01-01 (a Thursday); `Civil` converts it to a
    proleptic Gregorian year, month and day. Weekday 0 is Sunday. */
module Calendar {
  import opened Text

  datatype Date = Date(year: int, month: int, day: int)

  const MinutesPerDay: int := 1440

  predicate IsLeapYear(y: int) {
    y % 4 == 0 && (y % 100 != 0 || y % 400 == 0)
  }

  function DaysInYear(y: int): int {
    if IsLeapYear(y) then 366 else 365
  }

  function DaysInMonth(y: int, m: int): (n: int)
    requires 1 <= m <= 12
    ensures 28 <= n <= 31
  {
    if m == 2 then (if IsLeapYear(y) then 29 else 28)
    else if m == 4 || m == 6 || m == 9 || m == 11 then 30
    else 31
  }

  predicate Valid(d: Date) {
    1 <= d.month <= 12 && 1 <= d.day <= DaysInMonth(d.year, d.month)
  }

  /** The day number of 1 January of year `y`. */
  function YearStart(y: int): int
    decreases if y >= 1970 then y - 1970 else 1970 - y
  {
    if y == 1970 then 0
    else if y > 1970 then YearStart(y - 1) + DaysInYear(y - 1)
    else YearStart(y + 1) - DaysInYear(y)
  }

  /** Days in year `y` before the first of month `m` (`m == 13` names the
      end of the year). */
  function MonthStart(y: int, m: int): int
    requires 1 <= m <= 13
  {
    if m == 1 then 0 else MonthStart(y, m - 1) + DaysInMonth(y, m - 1)
  }

  function DayNumber(d: Date): int
    requires Valid(d)
  {
    YearStart(d.year) + MonthStart(d.year, d.month) + d.day - 1
  }

  lemma YearStartStep(y: int)
    ensures YearStart(y + 1) == YearStart(y) + DaysInYear(y)
  {
  }

  lemma MonthStartEndOfYear(y: int)
    ensures MonthStart(y, 13) == DaysInYear(y)
  {
    assert MonthStart(y, 2) == 31;
    assert MonthStart(y, 3) == 31 + DaysInMonth(y, 2);
    assert MonthStart(y, 4) == MonthStart(y, 3) + 31;
    assert MonthStart(y, 5) == MonthStart(y, 4) + 30;
    assert MonthStart(y, 6) == MonthStart(y, 5) + 31;
    assert MonthStart(y, 7) == MonthStart(y, 6) + 30;
    assert MonthStart(y, 8) == MonthStart(y, 7) + 31;
    assert MonthStart(y, 9) == MonthStart(y, 8) + 31;
    assert MonthStart(y, 10) == MonthStart(y, 9) + 30;
    assert MonthStart(y, 11) == MonthStart(y, 10) + 31;
    assert MonthStart(y, 12) == MonthStart(y, 11) + 30;
    assert MonthStart(y, 13) == MonthStart(y, 12) + 31;
  }

  lemma {:induction false} MonthStartMono(y: int, m1: int, m2: int)
    requires 1 <= m1 <= m2 <= 13
    ensures MonthStart(y, m1) + 28 * (m2 - m1) <= MonthStart(y, m2)
    decreases m2 - m1
  {
    if m1 < m2 {
      MonthStartMono(y, m1, m2 - 1);
    }
  }

  lemma {:induction false} YearStartMono(a: int, b: int)
    requires a <= b
    ensures YearStart(a) + 365 * (b - a) <= YearStart(b)
    decreases b - a
  {
    if a < b {
      YearStartMono(a, b - 1);
      YearStartStep(b - 1);
    }
  }

  /** A valid date's day number lies inside its year and inside its month. */
  lemma DayNumberBounds(d: Date)
    requires Valid(d)
    ensures YearStart(d.year) <= DayNumber(d) < YearStart(d.year + 1)
    ensures MonthStart(d.year, d.month) <= DayNumber(d) - YearStart(d.year) < MonthStart(d.year, d.month + 1)
  {
    MonthStartMono(d.year, 1, d.month);
    MonthStartMono(d.year, d.month + 1, 13);
    MonthStartEndOfYear(d.year);
    YearStartStep(d.year);
  }

  /** Valid dates with the same day number fall in the same year. */
  lemma SameYearOfDayNumber(a: Date, b: Date)
    requires Valid(a) && Valid(b) && DayNumber(a) == DayNumber(b)
    ensures a.year == b.year
  {
    DayNumberBounds(a);
    DayNumberBounds(b);
    if a.year < b.year {
      YearStartMono(a.year + 1, b.year);
    } else if b.year < a.year {
      YearStartMono(b.year + 1, a.year);
    }
  }

  /** Valid dates of one year with the same day number fall in the same
      month. */
  lemma SameMonthOfDayNumber(a: Date, b: Date)
    requires Valid(a) && Valid(b) && a.year == b.year && DayNumber(a) == DayNumber(b)
    ensures a.month == b.month
  {
    if a.month < b.month {
      EarlierMonthEarlier(a, b);
    } else if b.month < a.month {
      EarlierMonthEarlier(b, a);
    }
  }

  lemma EarlierMonthEarlier(a: Date, b: Date)
    requires Valid(a) && Valid(b) && a.year == b.year && a.month < b.month
    ensures DayNumber(a) < DayNumber(b)
  {
    DayNumberBounds(a);
    DayNumberBounds(b);
    MonthStartMono(a.year, a.month + 1, b.month);
  }

  /** Distinct valid dates have distinct day numbers. */
  lemma DayNumberInjective(a: Date, b: Date)
    requires Valid(a) && Valid(b) && DayNumber(a) == DayNumber(b)
    ensures a == b
  {
    SameYearOfDayNumber(a, b);
    SameMonthOfDayNumber(a, b);
  }

  function NextDate(d: Date): (r: Date)
    requires Valid(d)
    ensures Valid(r) && DayNumber(r) == DayNumber(d) + 1
  {
    if d.day < DaysInMonth(d.year, d.month) then Date(d.year, d.month, d.day + 1)
    else if d.month < 12 then Date(d.year, d.month + 1, 1)
    else
      MonthStartEndOfYear(d.year);
      YearStartStep(d.year);
      Date(d.year + 1, 1, 1)
  }

  function PrevDate(d: Date): (r: Date)
    requires Valid(d)
    ensures Valid(r) && DayNumber(r) == DayNumber(d) - 1
  {
    if d.day > 1 then Date(d.year, d.month, d.day - 1)
    else if d.month > 1 then Date(d.year, d.month - 1, DaysInMonth(d.year, d.month - 1))
    else
      MonthStartEndOfYear(d.year - 1);
      YearStartStep(d.year - 1);
      Date(d.year - 1, 12, 31)
  }

  /** The civil date of day number `n`. */
  function Civil(n: int): (d: Date)
    ensures Valid(d) && DayNumber(d) == n
    decreases if n >= 0 then n else -n
  {
    if n == 0 then Date(1970, 1, 1)
    else if n > 0 then NextDate(Civil(n - 1))
    else PrevDate(Civil(n + 1))
  }

  /** `Civil` and `DayNumber` are inverse bijections. */
  lemma CivilOfDayNumber(d: Date)
    requires Valid(d)
    ensures Civil(DayNumber(d)) == d
  {
    DayNumberInjective(Civil(DayNumber(d)), d);
  }

  /** `getDay()`: 0 for Sunday up to 6 for Saturday. */
  function Weekday(n: int): (w: int)
    ensures 0 <= w < 7
  {
    (n + 4) % 7
  }

  /** 1 January 1970 was a Thursday. */
  lemma WeekdayOfEpoch()
    ensures Weekday(DayNumber(Date(1970, 1, 1))) == 4
  {
    assert DayNumber(Date(1970, 1, 1)) == 0;
  }

  /** The weekdays follow each other, Saturday wrapping to Sunday. */
  lemma WeekdayNext(n: int)
    ensures Weekday(n + 1) == (Weekday(n) + 1) % 7
    ensures Weekday(n + 7) == Weekday(n)
  {
  }

  /** The day on which a time (in minutes) falls. */
  function DayOf(t: int): int {
    t / MinutesPerDay
  }

  predicate SameMonth(n: int, m: int) {
    Civil(n).year == Civil(m).year && Civil(n).month == Civil(m).month
  }

  /** `startOfMonth`: the first day of the month containing day `n`. */
  function StartOfMonth(n: int): (r: int)
    ensures Civil(r).day == 1 && SameMonth(r, n)
    ensures r <= n < r + DaysInMonth(Civil(n).year, Civil(n).month)
  {
    var d := Civil(n);
    var first := Date(d.year, d.month, 1);
    CivilOfDayNumber(first);
    DayNumber(first)
  }

  /** The days of a month are exactly the 28 to 31 days from its first. */
  lemma SameMonthRange(n: int, m: int)
    requires SameMonth(n, m)
    ensures StartOfMonth(m) <= n < StartOfMonth(m) + DaysInMonth(Civil(m).year, Civil(m).month)
  {
    assert StartOfMonth(n) == StartOfMonth(m);
  }

  /** `startOfCalendarGrid`: the Sunday on or before the first of the month. */
  function StartOfCalendarGrid(month: int): (r: int)
    ensures Weekday(r) == 0
    ensures StartOfMonth(month) - 6 <= r <= StartOfMonth(month)
  {
    var first := StartOfMonth(month);
    WeekdayBack(first);
    first - Weekday(first)
  }

  lemma WeekdayBack(n: int)
    ensures Weekday(n - Weekday(n)) == 0
  {
    var q := (n + 4) / 7;
    assert n + 4 == 7 * q + Weekday(n);
    assert n - Weekday(n) + 4 == 7 * q;
  }

  /** The query window of the visible grid, in minutes: from midnight of the
      grid's first day to midnight 42 days later. */
  function GridRange(month: int): (r: (int, int))
    ensures r.1 - r.0 == 42 * MinutesPerDay
    ensures DayOf(r.0) == StartOfCalendarGrid(month)
    ensures forall t :: r.0 <= t < r.1 <==>
              StartOfCalendarGrid(month) <= DayOf(t) < StartOfCalendarGrid(month) + 42
  {
    var from := StartOfCalendarGrid(month) * MinutesPerDay;
    (from, from + 42 * MinutesPerDay)
  }

  /** `gridDays`: the 42 consecutive days of the grid. */
  method GridDays(month: int) returns (days: seq<int>)
    ensures |days| == 42
    ensures days[0] == DayOf(GridRange(month).0)
    ensures forall i :: 0 < i < |days| ==> days[i] == days[i - 1] + 1
    ensures Weekday(days[0]) == 0
    ensures forall n :: SameMonth(n, month) ==> n in days
  {
    var d := StartOfCalendarGrid(month);
    days := [];
    var i := 0;
    while i < 42
      invariant 0 <= i <= 42
      invariant |days| == i
      invariant d == StartOfCalendarGrid(month) + i
      invariant forall j :: 0 <= j < i ==> days[j] == StartOfCalendarGrid(month) + j
    {
      days := days + [d];
      d := d + 1;
      i := i + 1;
    }
    forall n | SameMonth(n, month) ensures n in days {
      SameMonthRange(n, month);
      assert days[n - StartOfCalendarGrid(month)] == n;
    }
  }

  /** `ymd`: `YYYY-MM-DD` with the year as `String(year)` and the 1-based
      month and the day padded to two digits. */
  function Ymd(n: int): string {
    var d := Civil(n);
    IntToString(d.year) + "-" + PadStart2(NatToString(d.month)) + "-" + PadStart2(NatToString(d.day))
  }

  /** The key is the year's decimal text, then `-`, two digits of the
      month, `-` and two digits of the day. */
  lemma YmdShape(n: int)
    ensures var d := Civil(n);
      Ymd(n) == IntToString(d.year) + "-" + [DigitChar(d.month / 10), DigitChar(d.month % 10)]
                + "-" + [DigitChar(d.day / 10), DigitChar(d.day % 10)]
  {
    var d := Civil(n);
    TwoDigits(d.month);
    TwoDigits(d.day);
  }

  /** A key splits back into its year, month and day parts. */
  lemma KeyParts(ya: string, ma: string, da: string, yb: string, mb: string, db: string)
    requires |ma| == |mb| == |da| == |db| == 2
    requires ya + "-" + ma + "-" + da == yb + "-" + mb + "-" + db
    ensures ya == yb && ma == mb && da == db
  {
    var k := ya + "-" + ma + "-" + da;
    assert |ya| == |yb|;
    assert ya == k[..|ya|] == yb;
    assert ma == k[|ya| + 1..|ya| + 3] == mb;
    assert da == k[|ya| + 4..] == db;
  }

  lemma TwoDigitsInjective(a: nat, b: nat)
    requires a < 100 && b < 100
    requires [DigitChar(a / 10), DigitChar(a % 10)] == [DigitChar(b / 10), DigitChar(b % 10)]
    ensures a == b
  {
    assert DigitChar(a / 10) == DigitChar(b / 10);
    assert DigitChar(a % 10) == DigitChar(b % 10);
  }

  /** Distinct days have distinct keys. */
  lemma YmdInjective(a: int, b: int)
    requires Ymd(a) == Ymd(b)
    ensures a == b
  {
    var da, db := Civil(a), Civil(b);
    YmdShape(a);
    YmdShape(b);
    KeyParts(IntToString(da.year), [DigitChar(da.month / 10), DigitChar(da.month % 10)],
             [DigitChar(da.day / 10), DigitChar(da.day % 10)],
             IntToString(db.year), [DigitChar(db.month / 10), DigitChar(db.month % 10)],
             [DigitChar(db.day / 10), DigitChar(db.day % 10)]);
    IntToStringInjective(da.year, db.year);
    TwoDigitsInjective(da.month, db.month);
    TwoDigitsInjective(da.day, db.day);
    assert da == db;
  }

  /** The first day of the month before, and after, the month of `d`. */
  function MonthBefore(d: Date): Date {
    if d.month == 1 then Date(d.year - 1, 12, 1) else Date(d.year, d.month - 1, 1)
  }

  function MonthAfter(d: Date): Date {
    if d.month == 12 then Date(d.year + 1, 1, 1) else Date(d.year, d.month + 1, 1)
  }

  /** `new Date(y, m - 1, 1)`: the first day of the month before the month
      of `month`, which ends the day before the first of that month. */
  function PrevMonth(month: int): (r: int)
    ensures Civil(r) == MonthBefore(Civil(month))
    ensures r + DaysInMonth(Civil(r).year, Civil(r).month) == StartOfMonth(month)
  {
    var d := Civil(month);
    var p := MonthBefore(d);
    CivilOfDayNumber(p);
    var last := Date(p.year, p.month, DaysInMonth(p.year, p.month));
    assert NextDate(last) == Date(d.year, d.month, 1);
    DayNumber(p)
  }

  /** `new Date(y, m + 1, 1)`: the first day of the month after the month of
      `month`, the day after its last day. */
  function NextMonth(month: int): (r: int)
    ensures Civil(r) == MonthAfter(Civil(month))
    ensures r == StartOfMonth(month) + DaysInMonth(Civil(month).year, Civil(month).month)
  {
    var d := Civil(month);
    var nx := MonthAfter(d);
    CivilOfDayNumber(nx);
    var last := Date(d.year, d.month, DaysInMonth(d.year, d.month));
    assert NextDate(last) == nx;
    DayNumber(nx)
  }

  /** Going back a month and then forward again lands on the first of the
      original month. */
  lemma NextOfPrevMonth(month: int)
    ensures NextMonth(PrevMonth(month)) == StartOfMonth(month)
  {
    var d := Civil(month);
    var first := Date(d.year, d.month, 1);
    assert MonthAfter(MonthBefore(d)) == first;
    CivilOfDayNumber(first);
    DayNumberInjective(Civil(NextMonth(PrevMonth(month))), first);
  }

  /** Going forward a month and then back lands on the first of the original
      month. */
  lemma PrevOfNextMonth(month: int)
    ensures PrevMonth(NextMonth(month)) == StartOfMonth(month)
  {
    var d := Civil(month);
    var first := Date(d.year, d.month, 1);
    assert MonthBefore(MonthAfter(d)) == first;
    CivilOfDayNumber(first);
    DayNumberInjective(Civil(PrevMonth(NextMonth(month))), first);
  }
}
