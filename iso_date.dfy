/**
 * `Date.prototype.toISOString` for the dates the mappers render: the proleptic Gregorian
 * calendar date and the UTC time of a millisecond time value, written as
 * `YYYY-MM-DDTHH:mm:ss.sssZ` (section 21.4.1.32 of ECMA-262), with a signed six-digit year
 * outside the years 0 to 9999.
 */
module IsoDate {
  import opened Numerals

  const MsPerSecond: nat := 1000
  const MsPerMinute: nat := 60_000
  const MsPerHour: nat := 3_600_000
  const MsPerDay: nat := 86_400_000

  /** The largest distance from the epoch a `Date` can hold, in milliseconds (section 21.4.1.31 of ECMA-262). */
  const MaxTime: int := 8_640_000_000_000_000

  /** Days from 0000-01-01 to 1970-01-01. */
  const EpochDay: nat := 719_528

  predicate IsLeap(y: int) {
    y % 4 == 0 && (y % 100 != 0 || y % 400 == 0)
  }

  function DaysInYear(y: int): nat {
    if IsLeap(y) then 366 else 365
  }

  function DaysInMonth(y: int, m: nat): nat
    requires 1 <= m <= 12
  {
    if m == 2 then (if IsLeap(y) then 29 else 28)
    else if m == 4 || m == 6 || m == 9 || m == 11 then 30
    else 31
  }

  /** Days from 0000-01-01 to the first of January of year `y`, negative before year 0. */
  function DaysBeforeYear(y: int): int {
    365 * y + (y + 3) / 4 - (y + 99) / 100 + (y + 399) / 400
  }

  /** Days from the first of January to the first of month `m` in year `y` (month 13: the next year). */
  function DaysBeforeMonth(y: int, m: nat): nat
    requires 1 <= m <= 13
  {
    [0, 31, 59, 90, 120, 151, 181, 212, 243, 273, 304, 334, 365][m - 1] + (if m > 2 && IsLeap(y) then 1 else 0)
  }

  lemma Step4(y: int)
    ensures (y + 4) / 4 == (y + 3) / 4 + (if y % 4 == 0 then 1 else 0)
  {
  }

  lemma Step100(y: int)
    ensures (y + 100) / 100 == (y + 99) / 100 + (if y % 100 == 0 then 1 else 0)
  {
  }

  lemma Step400(y: int)
    ensures (y + 400) / 400 == (y + 399) / 400 + (if y % 400 == 0 then 1 else 0)
  {
  }

  /** A year is as long as its days say. */
  lemma YearStep(y: int)
    ensures DaysBeforeYear(y + 1) == DaysBeforeYear(y) + DaysInYear(y)
  {
    Step4(y);
    Step100(y);
    Step400(y);
    Divisors(y);
    assert DaysBeforeYear(y + 1) == 365 * y + 365 + (y + 4) / 4 - (y + 100) / 100 + (y + 400) / 400;
  }

  /** A multiple of 400 is one of 100, and a multiple of 100 is one of 4. */
  lemma Divisors(y: int)
    ensures y % 400 == 0 ==> y % 100 == 0
    ensures y % 100 == 0 ==> y % 4 == 0
  {
    if y % 400 == 0 {
      Mod400(y);
    }
    if y % 100 == 0 {
      Mod100(y);
    }
  }

  lemma Mod400(y: int)
    requires y % 400 == 0
    ensures y % 100 == 0
  {
    var q := y / 400;
    assert y == 100 * (4 * q);
    var r := y % 100;
    assert y == 100 * (y / 100) + r && 0 <= r < 100;
    assert 100 * (4 * q - y / 100) == r;
  }

  lemma Mod100(y: int)
    requires y % 100 == 0
    ensures y % 4 == 0
  {
    var h := y / 100;
    assert y == 4 * (25 * h);
    var r := y % 4;
    assert y == 4 * (y / 4) + r && 0 <= r < 4;
    assert 4 * (25 * h - y / 4) == r;
  }

  /** Each month is as long as its days say, and the twelve make up the year. */
  lemma MonthStep(y: int, m: nat)
    requires 1 <= m <= 12
    ensures DaysBeforeMonth(y, m + 1) == DaysBeforeMonth(y, m) + DaysInMonth(y, m)
    ensures DaysBeforeMonth(y, 13) == DaysInYear(y)
  {
  }

  /** Later years start later. */
  lemma {:induction false} YearsIncrease(a: int, b: int)
    ensures a < b ==> DaysBeforeYear(a) < DaysBeforeYear(b)
    ensures a <= b ==> DaysBeforeYear(a) <= DaysBeforeYear(b)
    decreases if a < b then b - a else 0
  {
    if a < b {
      YearStep(a);
      YearsIncrease(a + 1, b);
    }
  }

  /** Later months start later. */
  lemma {:induction false} MonthsIncrease(y: int, a: nat, b: nat)
    requires 1 <= a && b <= 13
    ensures a < b ==> DaysBeforeMonth(y, a) < DaysBeforeMonth(y, b)
    ensures a <= b ==> DaysBeforeMonth(y, a) <= DaysBeforeMonth(y, b)
    decreases if a < b then b - a else 0
  {
    if a < b {
      MonthsIncrease(y, a + 1, b);
    }
  }

  /** The year holding day `n` (counted from 0000-01-01), searched upwards from year `y`. */
  function YearFrom(n: int, y: int): (r: int)
    requires DaysBeforeYear(y) <= n
    ensures y <= r && DaysBeforeYear(r) <= n < DaysBeforeYear(r + 1)
    decreases n - DaysBeforeYear(y)
  {
    YearStep(y);
    if n < DaysBeforeYear(y + 1) then y else YearFrom(n, y + 1)
  }

  /** The month holding day `doy` of year `y` (counted from 0), searched upwards from month `m`. */
  function MonthFrom(y: int, doy: nat, m: nat): (r: nat)
    requires 1 <= m <= 12 && DaysBeforeMonth(y, m) <= doy < DaysInYear(y)
    ensures m <= r <= 12 && DaysBeforeMonth(y, r) <= doy < DaysBeforeMonth(y, r + 1)
    decreases 12 - m
  {
    MonthStep(y, 1);
    if m == 12 || doy < DaysBeforeMonth(y, m + 1) then m else MonthFrom(y, doy, m + 1)
  }

  /** A calendar date. */
  datatype Civil = Civil(year: int, month: nat, day: nat)

  predicate ValidCivil(c: Civil) {
    1 <= c.month <= 12 && 1 <= c.day <= DaysInMonth(c.year, c.month)
  }

  /** The number of the day of a date, counted from 1970-01-01. */
  function DayNumber(c: Civil): int
    requires ValidCivil(c)
  {
    DaysBeforeYear(c.year) + DaysBeforeMonth(c.year, c.month) + c.day - 1 - EpochDay
  }

  /** The date of day `d`, counted from 1970-01-01 (negative before it). */
  function CivilOf(d: int): (c: Civil)
    ensures ValidCivil(c)
    ensures DaysBeforeYear(c.year) <= d + EpochDay < DaysBeforeYear(c.year + 1)
    ensures DaysBeforeMonth(c.year, c.month) <= d + EpochDay - DaysBeforeYear(c.year) < DaysBeforeMonth(c.year, c.month + 1)
    ensures DayNumber(c) == d
  {
    var n := d + EpochDay;
    var era := n / 146_097;
    EraStart(era);
    Divide(n, 146_097);
    var y := YearFrom(n, 400 * era);
    YearStep(y);
    var doy := n - DaysBeforeYear(y);
    var m := MonthFrom(y, doy, 1);
    MonthStep(y, m);
    Civil(y, m, doy - DaysBeforeMonth(y, m) + 1)
  }

  /** A 400-year era has 146097 days, so era `e` starts on day `146097 * e`. */
  lemma EraStart(e: int)
    ensures DaysBeforeYear(400 * e) == 146_097 * e
  {
    var y := 400 * e;
    assert (y + 3) / 4 == 100 * e by {
      assert y + 3 == 4 * (100 * e) + 3;
    }
    assert (y + 99) / 100 == 4 * e by {
      assert y + 99 == 100 * (4 * e) + 99;
    }
    assert (y + 399) / 400 == e by {
      assert y + 399 == 400 * e + 399;
    }
  }

  /** Only one year holds a given day. */
  lemma YearUnique(n: int, a: int, b: int)
    requires DaysBeforeYear(a) <= n < DaysBeforeYear(a + 1)
    requires DaysBeforeYear(b) <= n < DaysBeforeYear(b + 1)
    ensures a == b
  {
    YearsIncrease(a + 1, b);
    YearsIncrease(b + 1, a);
  }

  /** Only one month holds a given day of the year. */
  lemma MonthUnique(y: int, doy: int, a: nat, b: nat)
    requires 1 <= a <= 12 && 1 <= b <= 12
    requires DaysBeforeMonth(y, a) <= doy < DaysBeforeMonth(y, a + 1)
    requires DaysBeforeMonth(y, b) <= doy < DaysBeforeMonth(y, b + 1)
    ensures a == b
  {
    MonthsIncrease(y, a + 1, b);
    MonthsIncrease(y, b + 1, a);
  }

  /** Every valid date is the date of its own day number: days and dates correspond one to one. */
  lemma CivilOfDayNumber(c: Civil)
    requires ValidCivil(c)
    ensures CivilOf(DayNumber(c)) == c
  {
    var n := DayNumber(c) + EpochDay;
    var r := CivilOf(DayNumber(c));
    var doy := n - DaysBeforeYear(c.year);
    assert DaysBeforeMonth(c.year, c.month) <= doy < DaysBeforeMonth(c.year, c.month + 1) by {
      MonthStep(c.year, c.month);
    }
    assert DaysBeforeYear(c.year) <= n < DaysBeforeYear(c.year + 1) by {
      MonthStep(c.year, c.month);
      MonthsIncrease(c.year, c.month + 1, 13);
      YearStep(c.year);
    }
    YearUnique(n, c.year, r.year);
    MonthUnique(c.year, doy, c.month, r.month);
  }

  /** `n` in exactly `width` decimal digits, with leading zeros. */
  function FixedDecimal(n: nat, width: nat): (s: string)
    ensures |s| == width && AllDigitsOf(s, 10)
    decreases width
  {
    if width == 0 then []
    else
      DigitRoundTrip(n % 10);
      FixedDecimal(n / 10, width - 1) + [DigitChar(n % 10)]
  }

  function Pow10(k: nat): (p: nat)
    ensures 0 < p
  {
    if k == 0 then 1 else 10 * Pow10(k - 1)
  }

  /** A fixed-width rendering of a number that fits is read back exactly. */
  lemma {:induction false} FromFixedDecimal(n: nat, width: nat)
    requires n < Pow10(width)
    ensures FromDigits(FixedDecimal(n, width), 10) == n
    decreases width
  {
    if width > 0 {
      assert n / 10 < Pow10(width - 1);
      FromFixedDecimal(n / 10, width - 1);
      var s := FixedDecimal(n, width);
      assert s[..|s| - 1] == FixedDecimal(n / 10, width - 1);
    }
  }

  /** The year as `toISOString` writes it: four digits, or a sign and six digits. */
  function YearString(y: int): (s: string)
    ensures 0 <= y <= 9999 ==> |s| == 4 && AllDigitsOf(s, 10)
    ensures !(0 <= y <= 9999) ==> |s| == 7 && s[0] == (if y < 0 then '-' else '+') && AllDigitsOf(s[1..], 10)
  {
    if 0 <= y <= 9999 then FixedDecimal(y, 4)
    else (if y < 0 then "-" else "+") + FixedDecimal(if y < 0 then -y else y, 6)
  }

  /** The date and time fields `toISOString` prints for a time value. */
  datatype Fields = Fields(date: Civil, hour: nat, minute: nat, second: nat, millisecond: nat)

  /** Splits `n` into a quotient by `unit` and what remains. */
  lemma Divide(n: int, unit: nat)
    requires 0 < unit
    ensures n == n / unit * unit + n % unit && 0 <= n % unit < unit
  {
  }

  /** The UTC fields of time value `t`: its day's date and the time within that day. */
  function FieldsOf(t: int): (f: Fields)
    ensures ValidCivil(f.date)
    ensures f.hour < 24 && f.minute < 60 && f.second < 60 && f.millisecond < 1000
    ensures t == DayNumber(f.date) * MsPerDay
                 + f.hour * MsPerHour + f.minute * MsPerMinute + f.second * MsPerSecond + f.millisecond
  {
    var day := t / MsPerDay;
    var inDay := t % MsPerDay;
    Divide(t, MsPerDay);
    var hour := inDay / MsPerHour;
    Divide(inDay, MsPerHour);
    var inHour := inDay % MsPerHour;
    var minute := inHour / MsPerMinute;
    Divide(inHour, MsPerMinute);
    var inMinute := inHour % MsPerMinute;
    var second := inMinute / MsPerSecond;
    Divide(inMinute, MsPerSecond);
    assert hour < 24 && minute < 60 && second < 60;
    Fields(CivilOf(day), hour, minute, second, inMinute % MsPerSecond)
  }

  predicate ValidFields(f: Fields) {
    ValidCivil(f.date) && f.hour < 24 && f.minute < 60 && f.second < 60 && f.millisecond < 1000
  }

  /** The time value of a date and time of day. */
  function TimeValue(f: Fields): int
    requires ValidFields(f)
  {
    DayNumber(f.date) * MsPerDay + f.hour * MsPerHour + f.minute * MsPerMinute + f.second * MsPerSecond + f.millisecond
  }

  /** Two equal sums `q * unit + r` with the remainders below the unit agree in both parts. */
  lemma DivideUnique(q1: int, r1: int, q2: int, r2: int, unit: nat)
    requires 0 <= r1 < unit && 0 <= r2 < unit
    requires q1 * unit + r1 == q2 * unit + r2
    ensures q1 == q2 && r1 == r2
  {
    Gap(q1, q2, unit);
    Gap(q2, q1, unit);
  }

  /** Multiples of a unit at least one step apart are at least a unit apart. */
  lemma Gap(a: int, b: int, unit: nat)
    ensures a < b ==> a * unit + unit <= b * unit
  {
    if a < b {
      var k := b - a - 1;
      assert b * unit == a * unit + unit + k * unit;
      assert 0 <= k * unit;
    }
  }

  /** Every date and time of day is read back from its own time value. */
  lemma FieldsOfTimeValue(f: Fields)
    requires ValidFields(f)
    ensures FieldsOf(TimeValue(f)) == f
  {
    var g := FieldsOf(TimeValue(f));
    var inDayF := f.hour * MsPerHour + f.minute * MsPerMinute + f.second * MsPerSecond + f.millisecond;
    var inDayG := g.hour * MsPerHour + g.minute * MsPerMinute + g.second * MsPerSecond + g.millisecond;
    DivideUnique(DayNumber(f.date), inDayF, DayNumber(g.date), inDayG, MsPerDay);
    CivilOfDayNumber(f.date);
    CivilOfDayNumber(g.date);
    DivideUnique(f.hour, inDayF - f.hour * MsPerHour, g.hour, inDayG - g.hour * MsPerHour, MsPerHour);
    DivideUnique(f.minute, f.second * MsPerSecond + f.millisecond, g.minute, g.second * MsPerSecond + g.millisecond, MsPerMinute);
    DivideUnique(f.second, f.millisecond, g.second, g.millisecond, MsPerSecond);
  }

  /**
   * The years a `Date` can reach run from -271821 to 275760, so the six digits of an
   * extended year always suffice.
   */
  lemma YearsOfDates(t: int)
    requires -MaxTime <= t <= MaxTime
    ensures -271_821 <= FieldsOf(t).date.year <= 275_760
  {
    var y := FieldsOf(t).date.year;
    var d := t / MsPerDay;
    Divide(t, MsPerDay);
    assert -100_000_000 <= d <= 100_000_000;
    assert FieldsOf(t).date == CivilOf(d);
    assert DaysBeforeYear(275_761) == 100_719_638;
    assert DaysBeforeYear(-271_821) == -99_280_581;
    YearsIncrease(275_761, y);
    YearsIncrease(y + 1, -271_821);
  }

  /** `-MM-DDTHH:mm:ss.sssZ`: everything `toISOString` writes after the year. */
  function AfterYear(f: Fields): (s: string)
    ensures |s| == 20
    ensures s[0] == '-' && s[3] == '-' && s[6] == 'T' && s[9] == ':' && s[12] == ':' && s[15] == '.' && s[19] == 'Z'
  {
    var date := "-" + FixedDecimal(f.date.month, 2) + "-" + FixedDecimal(f.date.day, 2);
    var time := "T" + FixedDecimal(f.hour, 2) + ":" + FixedDecimal(f.minute, 2) + ":" + FixedDecimal(f.second, 2);
    assert |date| == 6 && |time| == 9;
    date + time + "." + FixedDecimal(f.millisecond, 3) + "Z"
  }

  /**
   * `new Date(t).toISOString()` for a time value a `Date` can hold: a fixed layout whose
   * separators sit at fixed places counted from the end, 24 characters long in the years 0
   * to 9999 and 27 otherwise.
   */
  function IsoString(t: int): (s: string)
    requires -MaxTime <= t <= MaxTime
    ensures |s| == 24 || |s| == 27
    ensures |s| == 24 <==> 0 <= FieldsOf(t).date.year <= 9999
    ensures var k := |s| - 24;
      && s[k + 4] == '-' && s[k + 7] == '-' && s[k + 10] == 'T'
      && s[k + 13] == ':' && s[k + 16] == ':' && s[k + 19] == '.' && s[k + 23] == 'Z'
  {
    var f := FieldsOf(t);
    YearString(f.date.year) + AfterYear(f)
  }
}
