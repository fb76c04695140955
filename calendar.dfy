/** Calendar dates as the journey filter uses them: parsing a query value
    with `datetime.strptime(text, "%Y-%m-%d").date()`, the proleptic
    Gregorian day count of `date.toordinal()`, and the calendar date on which
    a moment falls. Moments are whole seconds since 1970-01-01T00:00:00 UTC. */
module Calendar {
  import opened Wrappers
  import opened Text

  datatype Date = Date(year: int, month: int, day: int)

  predicate IsLeap(y: int) {
    y % 4 == 0 && (y % 100 != 0 || y % 400 == 0)
  }

  function DaysInYear(y: int): int {
    if IsLeap(y) then 366 else 365
  }

  function DaysInMonth(y: int, m: int): int
    requires 1 <= m <= 12
  {
    if m == 2 then (if IsLeap(y) then 29 else 28)
    else if m == 4 || m == 6 || m == 9 || m == 11 then 30
    else 31
  }

  /** A date `datetime.date` can represent: years 1 to 9999, a real day of a real month. */
  predicate IsValid(d: Date) {
    1 <= d.year <= 9999 && 1 <= d.month <= 12 && 1 <= d.day <= DaysInMonth(d.year, d.month)
  }

  /** Lexicographic order on (year, month, day). */
  predicate Before(d1: Date, d2: Date) {
    || d1.year < d2.year
    || (d1.year == d2.year && d1.month < d2.month)
    || (d1.year == d2.year && d1.month == d2.month && d1.day < d2.day)
  }

  // ----------------------------------------------------------------------
  // `date.toordinal()`

  function DaysBeforeYear(y: int): int {
    var p := y - 1;
    p * 365 + p / 4 - p / 100 + p / 400
  }

  function DaysBeforeMonth(y: int, m: int): int
    requires 1 <= m <= 12
  {
    var table := [0, 31, 59, 90, 120, 151, 181, 212, 243, 273, 304, 334];
    table[m - 1] + (if m > 2 && IsLeap(y) then 1 else 0)
  }

  /** `date.toordinal()`: day 1 is 0001-01-01 of the proleptic Gregorian calendar. */
  function ToOrdinal(d: Date): (n: int)
    requires 1 <= d.month <= 12
    ensures d == Date(1, 1, 1) ==> n == 1
    ensures 1 <= d.year && 1 <= d.day ==> n >= 1
  {
    DaysBeforeYear(d.year) + DaysBeforeMonth(d.year, d.month) + d.day
  }

  /** `date(1970, 1, 1).toordinal()`. */
  const EpochOrdinal: int := 719163

  lemma EpochOrdinalIsNewYear1970()
    ensures ToOrdinal(Date(1970, 1, 1)) == EpochOrdinal
  {
  }

  // Going from `y - 1` to `y` adds one multiple of 4, 100 or 400 exactly
  // when that divisor divides `y`.

  lemma FoursStep(y: int)
    ensures y / 4 - (y - 1) / 4 == if y % 4 == 0 then 1 else 0
  {
  }

  lemma CenturiesStep(y: int)
    ensures y / 100 - (y - 1) / 100 == if y % 100 == 0 then 1 else 0
  {
  }

  lemma QuadricentenniaStep(y: int)
    ensures y / 400 - (y - 1) / 400 == if y % 400 == 0 then 1 else 0
  {
  }

  lemma DaysBeforeYearStep(y: int)
    ensures DaysBeforeYear(y + 1) == DaysBeforeYear(y) + DaysInYear(y)
  {
    FoursStep(y);
    CenturiesStep(y);
    QuadricentenniaStep(y);
  }

  lemma {:induction false} DaysBeforeYearMonotone(y1: int, y2: int)
    requires y1 < y2
    ensures DaysBeforeYear(y1) + DaysInYear(y1) <= DaysBeforeYear(y2)
    decreases y2 - y1
  {
    DaysBeforeYearStep(y1);
    if y1 + 1 < y2 {
      DaysBeforeYearMonotone(y1 + 1, y2);
    }
  }

  lemma {:induction false} DaysBeforeMonthMonotone(y: int, m1: int, m2: int)
    requires 1 <= m1 <= 12 && 1 <= m2 <= 13 && m1 < m2
    ensures DaysBeforeMonth(y, m1) + DaysInMonth(y, m1) <= if m2 == 13 then DaysInYear(y) else DaysBeforeMonth(y, m2)
    decreases m2 - m1
  {
    if m1 + 1 < m2 {
      DaysBeforeMonthMonotone(y, m1 + 1, m2);
    }
  }

  /** Later dates have larger ordinals, so `toordinal()` tells dates apart. */
  lemma ToOrdinalOrdered(d1: Date, d2: Date)
    requires IsValid(d1) && IsValid(d2) && Before(d1, d2)
    ensures ToOrdinal(d1) < ToOrdinal(d2)
  {
    if d1.year < d2.year {
      DaysBeforeMonthMonotone(d1.year, d1.month, 13);
      DaysBeforeYearMonotone(d1.year, d2.year);
    } else if d1.month < d2.month {
      DaysBeforeMonthMonotone(d1.year, d1.month, d2.month);
    }
  }

  lemma ToOrdinalInjective(d1: Date, d2: Date)
    requires IsValid(d1) && IsValid(d2) && ToOrdinal(d1) == ToOrdinal(d2)
    ensures d1 == d2
  {
    if Before(d1, d2) {
      ToOrdinalOrdered(d1, d2);
    } else if Before(d2, d1) {
      ToOrdinalOrdered(d2, d1);
    }
  }

  // ----------------------------------------------------------------------
  // The date a moment falls on

  const SecondsPerDay: int := 86400

  /** The number of midnights since 1970-01-01 up to moment `t`, i.e. the
      day of `t` counted from the epoch (floor division, as for
      `datetime.date()` of a moment before 1970 too). */
  function DayNumber(t: int): int {
    t / SecondsPerDay
  }

  /** The first second of date `d`. */
  function DayStart(d: Date): int
    requires 1 <= d.month <= 12
  {
    (ToOrdinal(d) - EpochOrdinal) * SecondsPerDay
  }

  /** `t.date() == d` for a moment `t` in UTC. */
  predicate FallsOn(t: int, d: Date) {
    1 <= d.month <= 12 && DayNumber(t) + EpochOrdinal == ToOrdinal(d)
  }

  /** A moment falls on `d` exactly when it lies in the 24 hours of `d`,
      whatever its time of day. */
  lemma FallsOnWindow(t: int, d: Date)
    requires 1 <= d.month <= 12
    ensures FallsOn(t, d) <==> DayStart(d) <= t < DayStart(d) + SecondsPerDay
  {
    var k := ToOrdinal(d) - EpochOrdinal;
    assert DayStart(d) == k * 86400;
    assert t == 86400 * (t / 86400) + t % 86400;
    if DayStart(d) <= t < DayStart(d) + SecondsPerDay {
      assert t / 86400 == k;
    }
  }

  /** A moment falls on one valid date only. */
  lemma FallsOnOneDate(t: int, d1: Date, d2: Date)
    requires IsValid(d1) && IsValid(d2) && FallsOn(t, d1) && FallsOn(t, d2)
    ensures d1 == d2
  {
    ToOrdinalInjective(d1, d2);
  }

  // ----------------------------------------------------------------------
  // `datetime.strptime(s, "%Y-%m-%d").date()`

  /** A number that a directive matched, and how many characters it took. */
  datatype Field = Field(value: int, width: nat)

  /** The `%m` directive, `1[0-2]|0[1-9]|[1-9]`, followed by the literal `-`
      of the format; the alternatives are tried in that order. */
  function MonthField(t: string): (r: Option<Field>)
    ensures r.Some? ==> 1 <= r.value.value <= 12 && 1 <= r.value.width < |t| && t[r.value.width] == '-'
  {
    if |t| >= 3 && t[0] == '1' && '0' <= t[1] <= '2' && t[2] == '-' then Some(Field(10 + DigitValue(t[1]), 2))
    else if |t| >= 3 && t[0] == '0' && '1' <= t[1] <= '9' && t[2] == '-' then Some(Field(DigitValue(t[1]), 2))
    else if |t| >= 2 && '1' <= t[0] <= '9' && t[1] == '-' then Some(Field(DigitValue(t[0]), 1))
    else None
  }

  /** The `%d` directive, `3[01]|[12]\d|0[1-9]|[1-9]| [1-9]`, which must
      take all of `t` (otherwise "unconverted data remains"). */
  function DayField(t: string): (r: Option<int>)
    ensures r.Some? ==> 1 <= r.value <= 31
  {
    if |t| == 2 && t[0] == '3' && '0' <= t[1] <= '1' then Some(30 + DigitValue(t[1]))
    else if |t| == 2 && '1' <= t[0] <= '2' && IsDigit(t[1]) then Some(DigitValue(t[0]) * 10 + DigitValue(t[1]))
    else if |t| == 2 && t[0] == '0' && '1' <= t[1] <= '9' then Some(DigitValue(t[1]))
    else if |t| == 1 && '1' <= t[0] <= '9' then Some(DigitValue(t[0]))
    else if |t| == 2 && t[0] == ' ' && '1' <= t[1] <= '9' then Some(DigitValue(t[1]))
    else None
  }

  /** `datetime.strptime(s, "%Y-%m-%d").date()`: exactly four digits of year
      (`%Y`), `-`, month, `-`, day and nothing more; then the date must
      exist, so year 0 and the 30th of February raise `ValueError` too. */
  function ParseDate(s: string): (r: Result<Date, ValueError>)
    ensures r.Ok? ==> IsValid(r.value)
    ensures r.Err? ==> r.error == ValueError(s)
  {
    if |s| < 5 || !AllDigits(s[..4]) || s[4] != '-' then
      Err(ValueError(s))
    else
      match MonthField(s[5..])
      case None => Err(ValueError(s))
      case Some(month) =>
        match DayField(s[5 + month.width + 1..])
        case None => Err(ValueError(s))
        case Some(day) =>
          var d := Date(DecimalValue(s[..4]), month.value, day);
          if IsValid(d) then Ok(d) else Err(ValueError(s))
  }

  function Pow10(width: nat): nat {
    if width == 0 then 1 else 10 * Pow10(width - 1)
  }

  /** `n` written with exactly `width` digits, zero-padded on the left:
      `"%0*d" % (width, n)` for an `n` that fits. */
  function ZeroPad(n: nat, width: nat): (s: string)
    requires n < Pow10(width)
    ensures |s| == width && AllDigits(s)
    ensures DecimalValue(s) == n
  {
    if width == 0 then
      []
    else
      var s := ZeroPad(n / 10, width - 1) + [DigitChar(n % 10)];
      assert s[..|s| - 1] == ZeroPad(n / 10, width - 1);
      s
  }

  lemma TwoDigits(n: nat)
    requires n < 100
    ensures ZeroPad(n, 2) == [DigitChar(n / 10), DigitChar(n % 10)]
  {
    assert ZeroPad(n / 10, 1) == ZeroPad(n / 100, 0) + [DigitChar(n / 10 % 10)];
  }

  /** `date.isoformat()`, which is also `str(date)`: `YYYY-MM-DD`. */
  function IsoFormat(d: Date): (s: string)
    requires IsValid(d)
    ensures |s| == 10 && s[4] == '-' && s[7] == '-'
  {
    ZeroPad(d.year, 4) + "-" + ZeroPad(d.month, 2) + "-" + ZeroPad(d.day, 2)
  }

  /** `%m` reads a zero-padded month and stops at the `-` after it. */
  lemma MonthFieldOfPadded(m: int, rest: string)
    requires 1 <= m <= 12
    ensures MonthField(ZeroPad(m, 2) + "-" + rest) == Some(Field(m, 2))
  {
    TwoDigits(m);
  }

  /** `%d` reads a zero-padded day. */
  lemma DayFieldOfPadded(d: int)
    requires 1 <= d <= 31
    ensures DayField(ZeroPad(d, 2)) == Some(d)
  {
    TwoDigits(d);
  }

  /** Parsing gives back every date written in ISO form, as a date rendered
      with `str()` is sent as a query value. */
  lemma ParseIsoFormat(d: Date)
    requires IsValid(d)
    ensures ParseDate(IsoFormat(d)) == Ok(d)
  {
    var s := IsoFormat(d);
    var dd := ZeroPad(d.day, 2);
    assert s[..4] == ZeroPad(d.year, 4);
    assert s[5..] == ZeroPad(d.month, 2) + "-" + dd;
    MonthFieldOfPadded(d.month, dd);
    assert s[8..] == dd;
    DayFieldOfPadded(d.day);
  }
}
