/** Seconds since the Epoch and broken-down time: the kernel's to_epoch and from_epoch, and userspace's
    localtime, against one calendar. */
module Epoch {
  import opened Common

  const DAY: nat := 86400
  const Y2000: nat := 946684800

  datatype Date = Date(year: nat, month: nat, day: nat, hour: nat, minute: nat, second: nat)

  // ----- the calendar -----

  predicate IsLeap(y: nat) {
    (Divides(4, y) && !Divides(100, y)) || Divides(400, y)
  }

  predicate Divides(k: nat, y: nat)
    requires k > 0
  {
    y % k == 0
  }

  function YearDays(y: nat): (n: nat) {
    if IsLeap(y) then 366 else 365
  }

  const MONTHS: seq<nat> := [0, 31, 28, 31, 30, 31, 30, 31, 31, 30, 31, 30, 31]

  function MonthDays(y: nat, m: nat): (n: nat)
    requires 1 <= m <= 12
    ensures 28 <= n <= 31
  {
    MONTHS[m] + if m == 2 && IsLeap(y) then 1 else 0
  }

  /** The days from the start of 1970 to the start of year y. */
  function DaysBefore(y: nat): (n: nat)
    requires 1970 <= y
  {
    if y == 1970 then 0 else DaysBefore(y - 1) + YearDays(y - 1)
  }

  /** The days of year y before month m. */
  function MonthStart(y: nat, m: nat): (n: nat)
    requires 1 <= m <= 13
  {
    if m == 1 then 0 else MonthStart(y, m - 1) + MonthDays(y, m - 1)
  }

  predicate Valid(d: Date) {
    && 1970 <= d.year && 1 <= d.month <= 12 && 1 <= d.day <= MonthDays(d.year, d.month)
    && d.hour < 24 && d.minute < 60 && d.second < 60
  }

  function YearDay(d: Date): (n: nat)
    requires Valid(d)
  {
    MonthStart(d.year, d.month) + d.day - 1
  }

  function Seconds(d: Date): (n: nat)
    requires Valid(d)
  {
    (DaysBefore(d.year) + YearDay(d)) * DAY + d.hour * 3600 + d.minute * 60 + d.second
  }

  lemma YearIsItsMonths(y: nat)
    ensures MonthStart(y, 13) == YearDays(y)
  {
    assert MonthStart(y, 1) == 0;
    assert MonthStart(y, 2) == 31;
    assert MonthStart(y, 3) == 59 + if IsLeap(y) then 1 else 0;
    assert MonthStart(y, 5) == MonthStart(y, 4) + 30 == MonthStart(y, 3) + 61;
    assert MonthStart(y, 7) == MonthStart(y, 6) + 30 == MonthStart(y, 5) + 61;
    assert MonthStart(y, 9) == MonthStart(y, 8) + 31 == MonthStart(y, 7) + 62;
    assert MonthStart(y, 11) == MonthStart(y, 10) + 31 == MonthStart(y, 9) + 61;
    assert MonthStart(y, 13) == MonthStart(y, 12) + 31 == MonthStart(y, 11) + 61;
  }

  /** The days of year y before month m, without any table. */
  function DaysBeforeMonth(y: nat, m: nat): (n: int) {
    (367 * m - 362) / 12
      - if m <= 2 then 0 else if (y % 4 == 0 && y % 100 != 0) || y % 400 == 0 then 1 else 2
  }

  /** The month table is that of the Gregorian calendar. */
  lemma {:induction false} MonthTableIsRight(y: nat, m: nat)
    requires 1 <= m <= 13
    ensures MonthStart(y, m) == DaysBeforeMonth(y, m)
    ensures m <= 12 ==> MonthDays(y, m) == DaysBeforeMonth(y, m + 1) - DaysBeforeMonth(y, m)
    decreases m
  {
    MonthLength(y, m);
    if m > 1 {
      MonthTableIsRight(y, m - 1);
    }
  }

  lemma MonthLength(y: nat, m: nat)
    requires 1 <= m <= 13
    ensures m <= 12 ==> MonthDays(y, m) == DaysBeforeMonth(y, m + 1) - DaysBeforeMonth(y, m)
  {
    assert m in {1, 2, 3, 4, 5, 6, 7, 8, 9, 10, 11, 12, 13};
  }

  lemma {:induction false} MonthStartGrows(y: nat, m: nat, k: nat)
    requires 1 <= m < k <= 13
    ensures MonthStart(y, m) + MonthDays(y, m) <= MonthStart(y, k)
    decreases k
  {
    if m + 1 < k {
      MonthStartGrows(y, m, k - 1);
    }
  }

  lemma {:induction false} DaysBeforeGrows(y: nat, z: nat)
    requires 1970 <= y < z
    ensures DaysBefore(y) + YearDays(y) <= DaysBefore(z)
    decreases z
  {
    if y + 1 < z {
      DaysBeforeGrows(y, z - 1);
    }
  }

  lemma YearDayInYear(d: Date)
    requires Valid(d)
    ensures YearDay(d) < YearDays(d.year)
  {
    YearIsItsMonths(d.year);
    MonthStartGrows(d.year, d.month, 13);
  }

  /** The expression of IEEE Std 1003.1-2017, Base Definitions, section 4.16; years count from 1900 there. */
  function PosixSeconds(d: Date): (n: int)
    requires Valid(d)
  {
    var year := d.year - 1900;
    var yday := DaysBeforeMonth(d.year, d.month) + d.day - 1;
    d.second + d.minute * 60 + d.hour * 3600 + yday * 86400 + (year - 70) * 31536000
      + (year - 69) / 4 * 86400 - (year - 1) / 100 * 86400 + (year + 299) / 400 * 86400
  }

  lemma Quarter(y: nat)
    requires 1970 <= y
    ensures (y - 1968) / 4 == (y - 1969) / 4 + if Divides(4, y) then 1 else 0
  {
  }

  lemma Century(y: nat)
    requires 1970 <= y
    ensures (y - 1900) / 100 == (y - 1901) / 100 + if Divides(100, y) then 1 else 0
    ensures Divides(100, y) ==> Divides(4, y)
  {
  }

  lemma FourCenturies(y: nat)
    requires 1970 <= y
    ensures (y - 1600) / 400 == (y - 1601) / 400 + if Divides(400, y) then 1 else 0
    ensures Divides(400, y) ==> Divides(100, y)
  {
  }

  /** One more year adds a day to the three quotients together exactly when it is a leap year. */
  lemma LeapStep(y: nat)
    requires 1970 <= y
    ensures Leaps(y + 1) == Leaps(y) + if IsLeap(y) then 1 else 0
  {
    hide Divides;
    Quarter(y);
    Century(y);
    FourCenturies(y);
  }

  function Leaps(y: nat): (n: int)
    requires 1970 <= y
  {
    (y - 1969) / 4 - (y - 1901) / 100 + (y - 1601) / 400
  }

  lemma {:induction false} LeapDays(y: nat)
    requires 1970 <= y
    ensures DaysBefore(y) == 365 * (y - 1970) + Leaps(y)
  {
    hide IsLeap;
    if y > 1970 {
      hide Leaps;
      LeapDays(y - 1);
      LeapStep(y - 1);
    }
  }

  lemma SecondsIsPosix(d: Date)
    requires Valid(d)
    ensures Seconds(d) == PosixSeconds(d)
  {
    MonthTableIsRight(d.year, d.month);
    LeapDays(d.year);
  }

  /** The weekday of the first of January as Gauss has it, Sunday being 0. */
  function GaussWeekday(y: nat): (w: nat)
    requires y > 0
  {
    (1 + 5 * ((y - 1) % 4) + 4 * ((y - 1) % 100) + 6 * ((y - 1) % 400)) % 7
  }

  /** Weekdays counted on from the Epoch's Thursday are those of Gauss. */
  lemma WeekdayIsRight(d: Date)
    requires Valid(d)
    ensures (4 + DaysBefore(d.year) + YearDay(d)) % 7
      == (GaussWeekday(d.year) + DaysBeforeMonth(d.year, d.month) + d.day - 1) % 7
  {
    hide IsLeap, Leaps, DaysBefore, GaussWeekday;
    MonthTableIsRight(d.year, d.month);
    var z := NewYearIsRight(d.year);
    var n := d.year - 1;
    var gauss := 1 + 5 * (n % 4) + 4 * (n % 100) + 6 * (n % 400);
    GaussUnfolds(d.year);
    SameRemainder(4 + DaysBefore(d.year), gauss, z, YearDay(d));
  }

  lemma GaussUnfolds(y: nat)
    requires y > 0
    ensures GaussWeekday(y) == (1 + 5 * ((y - 1) % 4) + 4 * ((y - 1) % 100) + 6 * ((y - 1) % 400)) % 7
  {
  }

  lemma NewYearIsRight(y: nat) returns (z: int)
    requires 1970 <= y
    ensures 4 + DaysBefore(y) - (1 + 5 * ((y - 1) % 4) + 4 * ((y - 1) % 100) + 6 * ((y - 1) % 400)) == 7 * z
  {
    hide IsLeap, DaysBefore;
    LeapDays(y);
    var n := y - 1;
    QuotientsFromZero(n);
    z := 50 * n + 3 * (n / 4) + 57 * (n / 100) + 343 * (n / 400) - 102737;
  }

  lemma QuotientsFromZero(n: nat)
    requires n >= 1969
    ensures (n - 1968) / 4 == n / 4 - 492 && (n - 1900) / 100 == n / 100 - 19 && (n - 1600) / 400 == n / 400 - 4
    ensures n % 4 == n - 4 * (n / 4) && n % 100 == n - 100 * (n / 100) && n % 400 == n - 400 * (n / 400)
  {
  }

  lemma SameRemainder(x: int, y: int, z: int, k: int)
    requires x - y == 7 * z
    ensures (x + k) % 7 == (y % 7 + k) % 7
  {
  }

  // ----- dates and seconds correspond one to one -----

  lemma SameDays(a: nat, b: nat, x: nat, y: nat)
    requires x < DAY && y < DAY && a * DAY + x == b * DAY + y
    ensures a == b && x == y
  {
  }

  lemma SameSixtieths(a: nat, b: nat, x: nat, y: nat)
    requires x < 60 && y < 60 && a * 60 + x == b * 60 + y
    ensures a == b && x == y
  {
  }

  lemma SameYear(a: Date, b: Date)
    requires Valid(a) && Valid(b) && DaysBefore(a.year) + YearDay(a) == DaysBefore(b.year) + YearDay(b)
    ensures a.year == b.year
  {
    YearDayInYear(a);
    YearDayInYear(b);
    if a.year < b.year {
      DaysBeforeGrows(a.year, b.year);
    } else if b.year < a.year {
      DaysBeforeGrows(b.year, a.year);
    }
  }

  lemma DateOfSeconds(a: Date, b: Date)
    requires Valid(a) && Valid(b) && Seconds(a) == Seconds(b)
    ensures a == b
  {
    var m, n := a.hour * 60 + a.minute, b.hour * 60 + b.minute;
    SameDays(DaysBefore(a.year) + YearDay(a), DaysBefore(b.year) + YearDay(b), m * 60 + a.second, n * 60 + b.second);
    SameSixtieths(m, n, a.second, b.second);
    SameSixtieths(a.hour, b.hour, a.minute, b.minute);
    SameYear(a, b);
    if a.month < b.month {
      MonthStartGrows(a.year, a.month, b.month);
    } else if b.month < a.month {
      MonthStartGrows(a.year, b.month, a.month);
    }
  }

  /** The date that many seconds after the Epoch. */
  ghost predicate IsDateOf(d: Date, epoch: int) {
    Valid(d) && Seconds(d) == epoch
  }

  // ----- the kernel's side -----

  const WORD64: nat := 0x1_0000_0000_0000_0000

  /** The signed 32-bit value of n. */
  function Wrap32(n: int): (r: int)
    ensures -0x8000_0000 <= r < 0x8000_0000
  {
    (n + 0x8000_0000) % WORD32 - 0x8000_0000
  }

  /** A time_t, which is a signed 32-bit number. */
  predicate IsTime(e: int) {
    -0x8000_0000 <= e < 0x8000_0000
  }

  /** Its value where unsigned 64-bit arithmetic takes it in. */
  function Unsigned64(e: int): (v: nat)
    requires IsTime(e)
  {
    if e < 0 then e + WORD64 else e
  }

  /** rtc_time_t: the year counts from 2000 in eight bits. */
  datatype Fields = Fields(second: nat, minute: nat, hour: nat, day: nat, month: nat, year: nat)

  class RtcTime {
    var second: nat
    var minute: nat
    var hour: nat
    var day: nat
    var month: nat
    var year: nat

    function Value(): (f: Fields)
      reads this
    {
      Fields(second, minute, hour, day, month, year)
    }
  }

  /** Eight-bit fields whose month leaves the loop of to_epoch inside its table of 13 numbers. */
  predicate Readable(f: Fields) {
    f.second < 256 && f.minute < 256 && f.hour < 256 && f.day < 256 && f.month <= 13 && f.year < 256
  }

  function AsDate(f: Fields): (d: Date) {
    Date(2000 + f.year, f.month, f.day, f.hour, f.minute, f.second)
  }

  predicate Storable(f: Fields) {
    f.year < 256 && Valid(AsDate(f))
  }

  /** What to_epoch sums up, for any fields. */
  function RawSeconds(f: Fields): (n: int)
    requires f.month <= 13
  {
    (DaysBefore(2000 + f.year) + MonthStart(2000 + f.year, if f.month == 0 then 1 else f.month) + f.day - 1) * 86400
      + f.hour * 3600 + f.minute * 60 + f.second
  }

  function ToEpochOf(f: Fields): (r: int)
    requires f.month <= 13
  {
    Wrap32(RawSeconds(f))
  }

  method ToEpoch(t: RtcTime) returns (epoch: int)
    requires Readable(t.Value())
    ensures epoch == ToEpochOf(t.Value())
  {
    hide IsLeap, Wrap32;
    var fullYear := 2000 + t.year;
    var days := 0;
    var y := 1970;
    while y < fullYear
      invariant 1970 <= y <= fullYear && days == DaysBefore(y)
    {
      days := days + if IsLeap(y) then 366 else 365;
      y := y + 1;
    }
    var m := 1;
    while m < t.month
      invariant 1 <= m && (m == 1 || m <= t.month) && days == DaysBefore(fullYear) + MonthStart(fullYear, m)
    {
      days := days + MONTHS[m];
      if m == 2 && IsLeap(fullYear) {
        days := days + 1;
      }
      m := m + 1;
    }
    days := days + (t.day - 1);
    epoch := Wrap32(days * 86400 + t.hour * 3600 + t.minute * 60 + t.second);
  }

  lemma DateIsRaw(f: Fields)
    requires Storable(f)
    ensures RawSeconds(f) == Seconds(AsDate(f))
  {
  }

  /** The loop over the years, which count in 32 bits: days left, and year. */
  function YearFrom(days: nat, y: nat): (r: (nat, nat))
    requires y < WORD32
    ensures r.0 < YearDays(r.1) && r.1 < WORD32
    decreases days
  {
    if days >= YearDays(y) then YearFrom(days - YearDays(y), (y + 1) % WORD32) else (days, y)
  }

  /** The loop over the months, from month m: month, and days left. */
  function MonthFrom(y: nat, days: nat, m: nat): (r: (nat, nat))
    requires 1 <= m <= 12 && days + MonthStart(y, m) < YearDays(y)
    ensures m <= r.0 <= 12 && r.1 < MonthDays(y, r.0) && r.1 + MonthStart(y, r.0) == days + MonthStart(y, m)
    decreases 12 - m
  {
    if days < MonthDays(y, m) then (m, days)
    else
      YearIsItsMonths(y);
      assert m < 12;
      MonthFrom(y, days - MonthDays(y, m), m + 1)
  }

  lemma FirstMonth(y: nat)
    ensures MonthStart(y, 1) == 0
  {
  }

  lemma MonthStep(y: nat, days: nat, m: nat)
    requires 1 <= m <= 12 && days + MonthStart(y, m) < YearDays(y)
    ensures
      if days < MonthDays(y, m) then MonthFrom(y, days, m) == (m, days)
      else
        && m < 12 && MonthStart(y, m + 1) == MonthStart(y, m) + MonthDays(y, m)
        && MonthFrom(y, days, m) == MonthFrom(y, days - MonthDays(y, m), m + 1)
  {
    YearIsItsMonths(y);
  }

  /** What from_epoch leaves: the year counts from 2000, as 0 before, in eight bits. */
  function FromEpochOf(e: int): (f: Fields)
    requires IsTime(e)
  {
    var s := Unsigned64(e) % 86400;
    var (left, year) := YearFrom(Unsigned64(e) / 86400, 1970);
    var (month, rest) := MonthFrom(year, left, 1);
    Fields(s % 60, s % 3600 / 60, s / 3600, rest + 1, month, (if year >= 2000 then year - 2000 else 0) % 256)
  }

  /** Both loops stop inside the year, the month loop inside its table. */
  method FromEpoch(epoch: int, t: RtcTime)
    requires IsTime(epoch)
    modifies t
    ensures t.Value() == FromEpochOf(epoch) && 1 <= t.month <= 12
  {
    hide IsLeap;
    var v := Unsigned64(epoch);
    var secondsOfDay := v % 86400;
    t.hour := secondsOfDay / 3600;
    t.minute := secondsOfDay % 3600 / 60;
    t.second := secondsOfDay % 60;
    var total: nat, year: nat := v / 86400, 1970;
    while total >= (if IsLeap(year) then 366 else 365)
      invariant year < WORD32 && YearFrom(total, year) == YearFrom(v / 86400, 1970)
    {
      total := total - if IsLeap(year) then 366 else 365;
      year := (year + 1) % WORD32;
    }
    t.year := (if year >= 2000 then year - 2000 else 0) % 256;
    var m, left := MonthLoop(total, year);
    t.month := m;
    t.day := left + 1;
  }

  /** The loop over the months. */
  method MonthLoop(days: nat, year: nat) returns (m: nat, left: nat)
    requires days < YearDays(year)
    ensures 1 <= m <= 12 && (m, left) == MonthFrom(year, days, 1)
  {
    hide IsLeap, MonthFrom, MonthStart;
    m, left := 1, days;
    FirstMonth(year);
    while m <= 12
      invariant 1 <= m <= 12 && left + MonthStart(year, m) == days
      invariant MonthFrom(year, left, m) == MonthFrom(year, days, 1)
    {
      MonthStep(year, left, m);
      var daysThisMonth := MONTHS[m];
      if m == 2 && IsLeap(year) {
        daysThisMonth := daysThisMonth + 1;
      }
      if left >= daysThisMonth {
        left := left - daysThisMonth;
      } else {
        break;
      }
      m := m + 1;
    }
  }

  // ----- from_epoch and the calendar -----

  /** Years before 2000 become 2000. */
  function Stored(d: Date): (f: Fields) {
    Fields(d.second, d.minute, d.hour, d.day, d.month, if d.year >= 2000 then d.year - 2000 else 0)
  }

  lemma {:induction false} YearsUnwrapped(days: nat, y: nat)
    requires 1970 <= y && y + days < WORD32
    ensures var (left, year) := YearFrom(days, y); y <= year && DaysBefore(year) + left == DaysBefore(y) + days
    decreases days
  {
    hide IsLeap;
    if days >= YearDays(y) {
      var left := days - YearDays(y);
      assert (y + 1) % WORD32 == y + 1 && YearFrom(days, y) == YearFrom(left, y + 1);
      assert DaysBefore(y + 1) == DaysBefore(y) + YearDays(y);
      YearsUnwrapped(left, y + 1);
    }
  }

  lemma Recombine(epoch: nat)
    ensures
      var s := epoch % 86400;
      s / 3600 < 24 && epoch == epoch / 86400 * DAY + s / 3600 * 3600 + s % 3600 / 60 * 60 + s % 60
  {
  }

  /** From the Epoch on, from_epoch leaves the calendar's date of that second, years before 2000 as 2000. */
  lemma FromEpochShowsDate(e: int) returns (d: Date)
    requires 0 <= e < 0x8000_0000
    ensures IsDateOf(d, e) && FromEpochOf(e) == Stored(d)
  {
    hide IsLeap;
    var s := e % 86400;
    var (left, year) := YearFrom(e / 86400, 1970);
    var (month, rest) := MonthFrom(year, left, 1);
    YearsUnwrapped(e / 86400, 1970);
    d := Date(year, month, rest + 1, s / 3600, s % 3600 / 60, s % 60);
    Recombine(e);
    YearBefore2100(d);
  }

  lemma YearBefore2100(d: Date)
    requires Valid(d) && Seconds(d) < 0x8000_0000
    ensures d.year < 2100
  {
    LeapDays(2100);
    if d.year > 2100 {
      DaysBeforeGrows(2100, d.year);
    }
  }

  lemma Start2000(d: Date)
    requires Valid(d)
    ensures d.year >= 2000 <==> Seconds(d) >= Y2000
  {
    hide DaysBefore, YearDay;
    LeapDays(2000);
    if d.year > 2000 {
      DaysBeforeGrows(2000, d.year);
    } else if d.year < 2000 {
      YearDayInYear(d);
      DaysBeforeGrows(d.year, 2000);
    }
  }

  /** Clamping the year to 2000 keeps the date valid: 2000 is a leap year. */
  lemma StoredIsStorable(d: Date)
    requires Valid(d) && Seconds(d) < 0x8000_0000
    ensures Storable(Stored(d))
  {
    YearBefore2100(d);
  }

  lemma WrapExactly(n: nat)
    ensures Wrap32(n) == n <==> n < 0x8000_0000
  {
  }

  lemma Year2000Fits(d: Date)
    requires Valid(d) && d.year == 2000
    ensures Y2000 <= Seconds(d) < 0x8000_0000
  {
    LeapDays(2000);
    YearDayInYear(d);
  }

  // ----- times before the Epoch -----

  /** What to_epoch sums up for eight-bit fields lies between 2000 and 2256. */
  lemma RawBounds(f: Fields)
    requires Readable(f)
    ensures 0 <= RawSeconds(f) < 2 * WORD32 + 0x8000_0000
  {
    LeapDays(2000 + f.year);
    YearIsItsMonths(2000 + f.year);
    if 1 <= f.month < 13 {
      MonthStartGrows(2000 + f.year, f.month, 13);
    }
  }

  /** A second of the day read as unsigned 64-bit is never the one to_epoch wrapped away. */
  lemma WrappedTimesDiffer(n: int, e: int)
    requires 0 <= n < 2 * WORD32 + 0x8000_0000 && IsTime(e) && e < 0 && Wrap32(n) == e
    ensures n % 86400 != Unsigned64(e) % 86400
  {
    var k := (n - e) / WORD32;
    WrapsBy(n, e, k);
    if k == 1 {
      assert n == e + WORD32;
      ShiftApart(n, WORD64 - WORD32);
    } else {
      assert k == 2 && n == e + 2 * WORD32;
      ShiftApart(n, WORD64 - 2 * WORD32);
    }
  }

  lemma WrapsBy(n: int, e: int, k: int)
    requires 0 <= n < 2 * WORD32 + 0x8000_0000 && IsTime(e) && e < 0 && Wrap32(n) == e && k == (n - e) / WORD32
    ensures (k == 1 || k == 2) && n == e + k * WORD32
  {
  }

  lemma ShiftApart(n: int, d: int)
    requires d % 86400 != 0
    ensures n % 86400 != (n + d) % 86400
  {
  }

  // ----- round trips -----

  /** to_epoch undoes from_epoch exactly from the start of 2000 on, over all 32-bit times. */
  lemma EpochComesBackExactly(e: int)
    requires IsTime(e)
    ensures FromEpochOf(e).month <= 13
    ensures ToEpochOf(FromEpochOf(e)) == e <==> e >= Y2000
  {
    hide Wrap32, Seconds, RawSeconds;
    var f := FromEpochOf(e);
    if e >= 0 {
      var date := FromEpochShowsDate(e);
      StoredIsStorable(date);
      DateIsRaw(f);
      Start2000(date);
      Start2000(AsDate(f));
      WrapExactly(Seconds(AsDate(f)));
      if date.year < 2000 {
        Year2000Fits(AsDate(f));
      }
    } else {
      NegativeIsReadable(e);
      RawBounds(f);
      RawTimeOfDay(f, Unsigned64(e));
      if ToEpochOf(f) == e {
        WrappedTimesDiffer(RawSeconds(f), e);
      }
    }
  }

  lemma NegativeIsReadable(e: int)
    requires IsTime(e)
    ensures Readable(FromEpochOf(e))
  {
  }

  /** to_epoch keeps the time of day that from_epoch took from v. */
  lemma RawTimeOfDay(f: Fields, v: nat)
    requires f.month <= 13
    requires f.hour == v % 86400 / 3600 && f.minute == v % 86400 % 3600 / 60 && f.second == v % 86400 % 60
    ensures RawSeconds(f) % 86400 == v % 86400
  {
    var days := DaysBefore(2000 + f.year) + MonthStart(2000 + f.year, if f.month == 0 then 1 else f.month) + f.day - 1;
    Recombine(v);
    DayParts(days, v % 86400);
  }

  lemma DayParts(days: int, s: nat)
    requires s < 86400
    ensures (days * 86400 + s) % 86400 == s
  {
  }

  /** from_epoch undoes to_epoch exactly while the time fits 31 bits, over all dates the fields can hold. */
  lemma DateComesBackExactly(f: Fields)
    requires Storable(f)
    ensures FromEpochOf(ToEpochOf(f)) == f <==> Seconds(AsDate(f)) < 0x8000_0000
  {
    hide Wrap32, Seconds, RawSeconds, FromEpochOf;
    DateIsRaw(f);
    WrapExactly(Seconds(AsDate(f)));
    var e := ToEpochOf(f);
    if e >= 0 {
      var date := FromEpochShowsDate(e);
      if Seconds(AsDate(f)) < 0x8000_0000 {
        DateOfSeconds(date, AsDate(f));
      } else if Stored(date) == f {
        EpochComesBackExactly(e);
        Start2000(date);
      }
    } else if FromEpochOf(e) == f {
      EpochComesBackExactly(e);
    }
  }

  /** to_epoch is right, by the standard's expression, exactly up to the last second of 31 bits. */
  lemma ToEpochIsPosixExactly(f: Fields)
    requires Storable(f)
    ensures ToEpochOf(f) == PosixSeconds(AsDate(f)) <==> Seconds(AsDate(f)) < 0x8000_0000
  {
    hide Wrap32, Seconds, PosixSeconds, RawSeconds;
    DateIsRaw(f);
    SecondsIsPosix(AsDate(f));
    WrapExactly(Seconds(AsDate(f)));
  }

  // ----- userspace -----

  /** C division and remainder round toward zero. */
  function TruncDiv(a: int, b: nat): (q: int)
    requires b > 0
  {
    if a >= 0 then a / b else -(-a / b)
  }

  function TruncMod(a: int, b: nat): (r: int)
    requires b > 0
  {
    if a >= 0 then a % b else -(-a % b)
  }

  datatype Shown = Shown(sec: int, min: int, hour: int, mday: int, mon: int, year: int, wday: int, yday: int,
                         isdst: int)

  class Tm {
    var sec: int
    var min: int
    var hour: int
    var mday: int
    var mon: int
    var year: int
    var wday: int
    var yday: int
    var isdst: int

    function Value(): (v: Shown)
      reads this
    {
      Shown(sec, min, hour, mday, mon, year, wday, yday, isdst)
    }
  }

  /** v shows the date d: POSIX months count from 0, years from 1900, weekdays from a Sunday. */
  predicate Shows(v: Shown, d: Date)
    requires Valid(d)
  {
    v == Shown(d.second, d.minute, d.hour, d.day, d.month - 1, d.year - 1900,
               (4 + DaysBefore(d.year) + YearDay(d)) % 7, YearDay(d), -1)
  }

  const DAYS: seq<nat> := [31, 28, 31, 30, 31, 30, 31, 31, 30, 31, 30, 31]

  function DaysInMonth(month: nat, year: nat): (n: nat)
    requires month < 12
    ensures n == MonthDays(year, month + 1)
  {
    if month == 1 && IsLeap(year) then 29 else DAYS[month]
  }

  /** What localtime shows before the Epoch: seconds, minutes, hours and days counted back from 1970-01-01. */
  function ShownBefore(timer: int): (v: Shown) {
    var days := TruncDiv(TruncDiv(TruncDiv(timer, 60), 60), 24);
    Shown(TruncMod(timer, 60), TruncMod(TruncDiv(timer, 60), 60), TruncMod(TruncDiv(TruncDiv(timer, 60), 60), 24),
          days + 1, 0, 70, TruncMod(days + 4, 7), days, -1)
  }

  /** That is never a date. */
  lemma NoDateBefore(timer: int, d: Date)
    requires timer < 0 && Valid(d)
    ensures !Shows(ShownBefore(timer), d)
  {
    var q := -timer;
    assert q == q / 60 / 60 / 24 * DAY + q / 60 / 60 % 24 * 3600 + q / 60 % 60 * 60 + q % 60;
    assert q % 60 != 0 || q / 60 % 60 != 0 || q / 60 / 60 % 24 != 0 || q / 60 / 60 / 24 != 0;
    assert TruncDiv(TruncDiv(TruncDiv(timer, 60), 60), 24) == -(q / 60 / 60 / 24);
  }

  /** localtime shows the date of that second, inside its month table, exactly from the Epoch on. */
  method LocalTime(timer: int, result: Tm) returns (ghost date: Date)
    requires IsTime(timer)
    modifies result
    ensures timer >= 0 ==> IsDateOf(date, timer) && Shows(result.Value(), date)
    ensures timer < 0 ==> result.Value() == ShownBefore(timer)
  {
    hide IsLeap, YearDay, DaysBefore;
    date := Date(1970, 1, 1, 0, 0, 0);
    var t := timer;
    result.sec := TruncMod(t, 60);
    t := TruncDiv(t, 60);
    result.min := TruncMod(t, 60);
    t := TruncDiv(t, 60);
    result.hour := TruncMod(t, 24);
    t := TruncDiv(t, 24);
    result.wday := TruncMod(t + 4, 7);
    var days, year := YearsOf(t);
    result.year := year - 1900;
    result.yday := days;
    var month, left := MonthsOf(days, year);
    result.mon := month;
    result.mday := left + 1;
    result.isdst := -1;
    if timer >= 0 {
      date := Date(year, month + 1, left + 1, result.hour, result.min, result.sec);
      LocalIsDate(timer, days, left, date);
      ShowsIt(result.Value(), t, date);
    }
  }

  /** localtime's loop over the years; a negative count is left alone. */
  method YearsOf(t: int) returns (days: int, year: nat)
    ensures 1970 <= year && days < YearDays(year)
    ensures t >= 0 ==> days >= 0 && days + DaysBefore(year) == t
    ensures t < 365 ==> days == t && year == 1970
  {
    days, year := t, 1970;
    while days >= (if IsLeap(year) then 366 else 365)
      invariant 1970 <= year && (t >= 0 ==> days >= 0 && days + DaysBefore(year) == t)
      invariant t < 365 ==> days == t && year == 1970
    {
      days := days - if IsLeap(year) then 366 else 365;
      year := year + 1;
    }
  }

  /** localtime's loop over the months, which count from 0. */
  method MonthsOf(days: int, year: nat) returns (month: nat, left: int)
    requires days < YearDays(year)
    ensures month < 12 && left < MonthDays(year, month + 1)
    ensures days >= 0 ==> left >= 0 && left + MonthStart(year, month + 1) == days
    ensures days < 31 ==> month == 0 && left == days
  {
    hide IsLeap;
    YearIsItsMonths(year);
    month, left := 0, days;
    while left >= DaysInMonth(month, year)
      invariant 0 <= month < 12 && left + MonthStart(year, month + 1) == days
      invariant (days >= 0 ==> left >= 0) && (days < 31 ==> month == 0)
    {
      left := left - DaysInMonth(month, year);
      month := month + 1;
    }
  }

  lemma ShowsIt(v: Shown, t: nat, d: Date)
    requires Valid(d) && t == DaysBefore(d.year) + YearDay(d)
    requires v == Shown(d.second, d.minute, d.hour, d.day, d.month - 1, d.year - 1900, (t + 4) % 7, YearDay(d), -1)
    ensures Shows(v, d)
  {
  }

  lemma LocalIsDate(timer: int, days: int, left: int, d: Date)
    requires timer >= 0 && Valid(d) && left >= 0 && d.day == left + 1 && days == left + MonthStart(d.year, d.month)
    requires days + DaysBefore(d.year) == timer / 60 / 60 / 24
    requires d.second == timer % 60 && d.minute == timer / 60 % 60 && d.hour == timer / 60 / 60 % 24
    ensures Seconds(d) == timer && YearDay(d) == days
  {
    assert timer == timer / 60 / 60 / 24 * DAY + d.hour * 3600 + d.minute * 60 + d.second;
  }

  /** The same time of day, month and day. */
  predicate SameClock(f: Fields, v: Shown) {
    f.second == v.sec && f.minute == v.min && f.hour == v.hour && f.month == v.mon + 1 && f.day == v.mday
  }

  /** Kernel and userspace on one time: they agree exactly from the Epoch on, on the year from 2000 on. */
  method BothClocks(epoch: int, t: RtcTime, tm: Tm)
    requires IsTime(epoch)
    modifies t, tm
    ensures SameClock(t.Value(), tm.Value()) <==> epoch >= 0
    ensures epoch >= 0 ==> (2000 + t.year == tm.year + 1900 <==> epoch >= Y2000)
  {
    hide FromEpochOf, ShownBefore, Shows;
    FromEpoch(epoch, t);
    var date := LocalTime(epoch, tm);
    if epoch >= 0 {
      ShowsFields(tm.Value(), date);
      ghost var other := FromEpochShowsDate(epoch);
      DateOfSeconds(date, other);
      Start2000(date);
    } else {
      ClocksDiffer(epoch);
    }
  }

  lemma ShowsFields(v: Shown, d: Date)
    requires Valid(d) && Shows(v, d)
    ensures v.sec == d.second && v.min == d.minute && v.hour == d.hour && v.mday == d.day
    ensures v.mon == d.month - 1 && v.year == d.year - 1900
  {
  }

  lemma ClocksDiffer(epoch: int)
    requires IsTime(epoch) && epoch < 0
    ensures !SameClock(FromEpochOf(epoch), ShownBefore(epoch))
  {
  }
}
