/** Parsing of the alert platform's comment timestamps into seconds since the Unix epoch:
    everything from the first '.' on is dropped, the rest must be exactly
    `YYYY-MM-DDTHH:MM:SS`, is read as UTC, and any failure yields 0. */
module Timestamps {
  import opened Wrappers

  /** A calendar date and time of day, as the fields of the fixed format. */
  datatype DateTime = DateTime(year: int, month: int, day: int, hour: int, minute: int, second: int)

  /** Seconds of 1970-01-01 00:00:00 UTC counted as proleptic Gregorian ordinal days
      (day 1 is 0001-01-01). */
  const EpochOrdinal: int := 719163
  const SecondsPerDay: int := 86400

  /** The earliest and the latest value a successful parse can produce:
      0001-01-01T00:00:00 and 9999-12-31T23:59:59. */
  const MinEpochSeconds: int := -62135596800
  const MaxEpochSeconds: int := 253402300799

  // ---------------------------------------------------------------------------------------
  // Splitting off the fraction

  /** The text before the first '.', or all of `s` when it has none. */
  function BeforeDot(s: string): (r: string)
    ensures '.' !in r
    ensures r <= s
    ensures |r| < |s| ==> s[|r|] == '.'
  {
    if s == [] then []
    else if s[0] == '.' then []
    else [s[0]] + BeforeDot(s[1..])
  }

  /** Appending a fraction after a dot-free text leaves that text as the part before the dot. */
  lemma {:induction false} BeforeDotOfFraction(s: string, fraction: string)
    requires '.' !in s
    ensures BeforeDot(s + "." + fraction) == s
  {
    if s == [] {
      assert s + "." + fraction == "." + fraction;
    } else {
      assert (s + "." + fraction)[1..] == s[1..] + "." + fraction;
      BeforeDotOfFraction(s[1..], fraction);
    }
  }

  /** A dot-free text is its own part before the dot. */
  lemma {:induction false} BeforeDotOfDotFree(s: string)
    requires '.' !in s
    ensures BeforeDot(s) == s
  {
    if s != [] {
      BeforeDotOfDotFree(s[1..]);
    }
  }

  // ---------------------------------------------------------------------------------------
  // The fixed-width text form

  predicate IsDigit(c: char) {
    '0' <= c <= '9'
  }

  function DigitValue(c: char): int {
    c as int - '0' as int
  }

  function DigitChar(v: int): char
    requires 0 <= v <= 9
  {
    ('0' as int + v) as char
  }

  function Two(t: string, i: int): int
    requires 0 <= i && i + 2 <= |t|
  {
    10 * DigitValue(t[i]) + DigitValue(t[i + 1])
  }

  function Four(t: string, i: int): int
    requires 0 <= i && i + 4 <= |t|
  {
    100 * Two(t, i) + Two(t, i + 2)
  }

  /** `t` has the shape `YYYY-MM-DDTHH:MM:SS`, nothing before and nothing after; the date and
      time separator may be written `T` or `t`, as the matcher ignores case. */
  predicate HasIsoShape(t: string) {
    && |t| == 19
    && IsDigit(t[0]) && IsDigit(t[1]) && IsDigit(t[2]) && IsDigit(t[3])
    && t[4] == '-' && IsDigit(t[5]) && IsDigit(t[6])
    && t[7] == '-' && IsDigit(t[8]) && IsDigit(t[9])
    && (t[10] == 'T' || t[10] == 't') && IsDigit(t[11]) && IsDigit(t[12])
    && t[13] == ':' && IsDigit(t[14]) && IsDigit(t[15])
    && t[16] == ':' && IsDigit(t[17]) && IsDigit(t[18])
  }

  function IsoFields(t: string): DateTime
    requires HasIsoShape(t)
  {
    DateTime(Four(t, 0), Two(t, 5), Two(t, 8), Two(t, 11), Two(t, 14), Two(t, 17))
  }

  // ---------------------------------------------------------------------------------------
  // The proleptic Gregorian calendar

  predicate IsLeap(y: int) {
    y % 4 == 0 && (y % 100 != 0 || y % 400 == 0)
  }

  function DaysInYear(y: int): int {
    if IsLeap(y) then 366 else 365
  }

  function DaysInMonth(y: int, m: int): int
    requires 1 <= m <= 12
  {
    if m == 2 then (if IsLeap(y) then 29 else 28)
    else if m == 4 || m == 6 || m == 9 || m == 11 then 30
    else 31
  }

  /** A date and time the calendar admits: years 1 to 9999, seconds 0 to 59. */
  predicate IsValid(dt: DateTime) {
    && 1 <= dt.year <= 9999
    && 1 <= dt.month <= 12
    && 1 <= dt.day <= DaysInMonth(dt.year, dt.month)
    && 0 <= dt.hour <= 23
    && 0 <= dt.minute <= 59
    && 0 <= dt.second <= 59
  }

  /** Days in the years before `y`, in closed form. */
  function DaysBeforeYear(y: int): int
    requires y >= 1
  {
    var p := y - 1;
    p * 365 + p / 4 - p / 100 + p / 400
  }

  /** Days in the months of year `y` before month `m`. */
  function DaysBeforeMonth(y: int, m: int): int
    requires 1 <= m <= 12
  {
    [0, 31, 59, 90, 120, 151, 181, 212, 243, 273, 304, 334][m - 1] + (if m > 2 && IsLeap(y) then 1 else 0)
  }

  /** The ordinal of a date: 0001-01-01 is day 1. */
  function Ordinal(dt: DateTime): int
    requires IsValid(dt)
  {
    DaysBeforeYear(dt.year) + DaysBeforeMonth(dt.year, dt.month) + dt.day
  }

  /** Seconds since 1970-01-01T00:00:00 UTC. */
  function EpochSeconds(dt: DateTime): int
    requires IsValid(dt)
  {
    (Ordinal(dt) - EpochOrdinal) * SecondsPerDay + dt.hour * 3600 + dt.minute * 60 + dt.second
  }

  // ---------------------------------------------------------------------------------------
  // Parsing

  /** The fields of a text in the fixed format, if it has the shape and names a valid instant. */
  function ParseFields(t: string): (r: Option<DateTime>)
    ensures r.Some? ==> HasIsoShape(t) && IsValid(r.value)
    ensures r.None? <==> !HasIsoShape(t) || !IsValid(IsoFields(t))
  {
    if HasIsoShape(t) && IsValid(IsoFields(t)) then Some(IsoFields(t)) else None
  }

  /** The timestamp parser: seconds since the epoch, or 0 whenever the text before the first
      '.' is not a valid `YYYY-MM-DDTHH:MM:SS`. */
  function ParseTimestamp(s: string): (r: int)
    ensures ParseFields(BeforeDot(s)).None? ==> r == 0
    ensures MinEpochSeconds <= r <= MaxEpochSeconds
  {
    match ParseFields(BeforeDot(s))
    case Some(dt) => EpochInRange(dt); EpochSeconds(dt)
    case None => 0
  }

  // ---------------------------------------------------------------------------------------
  // Calendar lemmas

  /** Stepping a non-negative count by one raises its quotient by `k` exactly when the new
      count is a multiple of `k`; stated for the three divisors of the leap-year rule. */
  lemma QuotientStep(y: int)
    requires y >= 1
    ensures y / 4 == (y - 1) / 4 + (if y % 4 == 0 then 1 else 0)
    ensures y / 100 == (y - 1) / 100 + (if y % 100 == 0 then 1 else 0)
    ensures y / 400 == (y - 1) / 400 + (if y % 400 == 0 then 1 else 0)
  {
  }

  /** Consecutive years differ by the length of the earlier one. */
  lemma DaysBeforeYearStep(y: int)
    requires y >= 1
    ensures DaysBeforeYear(y + 1) == DaysBeforeYear(y) + DaysInYear(y)
  {
    QuotientStep(y);
    if y % 400 == 0 {
      assert y % 100 == 0 && y % 4 == 0;
    } else if y % 100 == 0 {
      assert y % 4 == 0;
    }
  }

  /** The year lengths counted one by one, as an independent reference for `DaysBeforeYear`. */
  function DaysBeforeYearByCount(y: int): int
    requires y >= 1
    decreases y
  {
    if y == 1 then 0 else DaysBeforeYearByCount(y - 1) + DaysInYear(y - 1)
  }

  /** The closed form agrees with counting the years one by one. */
  lemma {:induction false} DaysBeforeYearCounts(y: int)
    requires y >= 1
    ensures DaysBeforeYear(y) == DaysBeforeYearByCount(y)
    decreases y
  {
    if y > 1 {
      DaysBeforeYearCounts(y - 1);
      DaysBeforeYearStep(y - 1);
    }
  }

  lemma {:induction false} DaysBeforeYearMonotone(a: int, b: int)
    requires 1 <= a <= b
    ensures DaysBeforeYear(a) <= DaysBeforeYear(b)
    decreases b - a
  {
    if a < b {
      DaysBeforeYearStep(a);
      DaysBeforeYearMonotone(a + 1, b);
    }
  }

  /** Consecutive months differ by the length of the earlier one, and the twelve months fill
      the year. */
  lemma DaysBeforeMonthStep(y: int, m: int)
    requires 1 <= m <= 12
    ensures m < 12 ==> DaysBeforeMonth(y, m + 1) == DaysBeforeMonth(y, m) + DaysInMonth(y, m)
    ensures m == 12 ==> DaysBeforeMonth(y, m) + DaysInMonth(y, m) == DaysInYear(y)
  {
  }

  lemma {:induction false} DaysBeforeMonthMonotone(y: int, a: int, b: int)
    requires 1 <= a < b <= 12
    ensures DaysBeforeMonth(y, a) + DaysInMonth(y, a) <= DaysBeforeMonth(y, b)
    decreases b - a
  {
    DaysBeforeMonthStep(y, a);
    if a + 1 < b {
      DaysBeforeMonthMonotone(y, a + 1, b);
    }
  }

  /** A valid date's ordinal lies inside its own year. */
  lemma OrdinalInYear(dt: DateTime)
    requires IsValid(dt)
    ensures DaysBeforeYear(dt.year) < Ordinal(dt) <= DaysBeforeYear(dt.year + 1)
  {
    DaysBeforeYearStep(dt.year);
    DaysBeforeMonthStep(dt.year, 12);
    if dt.month < 12 {
      DaysBeforeMonthMonotone(dt.year, dt.month, 12);
    }
  }

  lemma EpochInRange(dt: DateTime)
    requires IsValid(dt)
    ensures MinEpochSeconds <= EpochSeconds(dt) <= MaxEpochSeconds
  {
    OrdinalInYear(dt);
    DaysBeforeYearMonotone(dt.year + 1, 10000);
    assert DaysBeforeYear(10000) == 3652059;
  }

  /** Chronological order of date-times. */
  predicate Earlier(a: DateTime, b: DateTime) {
    || a.year < b.year
    || (a.year == b.year && a.month < b.month)
    || (a.year == b.year && a.month == b.month && a.day < b.day)
    || (a.year == b.year && a.month == b.month && a.day == b.day && a.hour < b.hour)
    || (a.year == b.year && a.month == b.month && a.day == b.day && a.hour == b.hour && a.minute < b.minute)
    || (a.year == b.year && a.month == b.month && a.day == b.day && a.hour == b.hour && a.minute == b.minute
        && a.second < b.second)
  }

  /** Ordinals respect the order of dates. */
  lemma OrdinalMonotone(a: DateTime, b: DateTime)
    requires IsValid(a) && IsValid(b)
    requires a.year < b.year || (a.year == b.year && a.month < b.month)
      || (a.year == b.year && a.month == b.month && a.day < b.day)
    ensures Ordinal(a) < Ordinal(b)
  {
    if a.year < b.year {
      OrdinalInYear(a);
      OrdinalInYear(b);
      DaysBeforeYearMonotone(a.year + 1, b.year);
    } else if a.month < b.month {
      DaysBeforeMonthMonotone(a.year, a.month, b.month);
    }
  }

  /** Later instants get strictly more seconds: the conversion preserves chronological order
      and in particular never maps two valid instants to the same value. */
  lemma EpochSecondsMonotone(a: DateTime, b: DateTime)
    requires IsValid(a) && IsValid(b) && Earlier(a, b)
    ensures EpochSeconds(a) < EpochSeconds(b)
  {
    var sa := a.hour * 3600 + a.minute * 60 + a.second;
    var sb := b.hour * 3600 + b.minute * 60 + b.second;
    assert 0 <= sa < SecondsPerDay && 0 <= sb < SecondsPerDay;
    if a.year < b.year || (a.year == b.year && a.month < b.month)
      || (a.year == b.year && a.month == b.month && a.day < b.day)
    {
      OrdinalMonotone(a, b);
      assert (Ordinal(a) - EpochOrdinal) * SecondsPerDay + SecondsPerDay
          <= (Ordinal(b) - EpochOrdinal) * SecondsPerDay;
    } else {
      assert Ordinal(a) == Ordinal(b);
    }
  }

  // ---------------------------------------------------------------------------------------
  // Rendering, the partner of parsing

  function Pad2(v: int): string
    requires 0 <= v <= 99
  {
    [DigitChar(v / 10), DigitChar(v % 10)]
  }

  function Pad4(v: int): string
    requires 0 <= v <= 9999
  {
    Pad2(v / 100) + Pad2(v % 100)
  }

  /** A valid date-time written in the fixed format `YYYY-MM-DDTHH:MM:SS`. */
  function IsoText(dt: DateTime): (t: string)
    requires IsValid(dt)
    ensures |t| == 19
  {
    Pad4(dt.year) + "-" + Pad2(dt.month) + "-" + Pad2(dt.day) + "T"
      + Pad2(dt.hour) + ":" + Pad2(dt.minute) + ":" + Pad2(dt.second)
  }

  lemma Pad2Reads(t: string, i: int, v: int)
    requires 0 <= v <= 99 && 0 <= i && i + 2 <= |t| && t[i..i + 2] == Pad2(v)
    ensures IsDigit(t[i]) && IsDigit(t[i + 1]) && Two(t, i) == v
  {
    assert t[i] == t[i..i + 2][0] && t[i + 1] == t[i..i + 2][1];
  }

  /** Reading back a written date-time yields its fields. */
  lemma IsoTextFields(dt: DateTime)
    requires IsValid(dt)
    ensures '.' !in IsoText(dt)
    ensures HasIsoShape(IsoText(dt)) && IsoFields(IsoText(dt)) == dt
  {
    var t := IsoText(dt);
    Pad2Reads(t, 0, dt.year / 100);
    Pad2Reads(t, 2, dt.year % 100);
    Pad2Reads(t, 5, dt.month);
    Pad2Reads(t, 8, dt.day);
    Pad2Reads(t, 11, dt.hour);
    Pad2Reads(t, 14, dt.minute);
    Pad2Reads(t, 17, dt.second);
    assert t[4] == '-' && t[7] == '-' && t[10] == 'T' && t[13] == ':' && t[16] == ':';
    forall i | 0 <= i < |t|
      ensures t[i] != '.'
    {
      if i !in {4, 7, 10, 13, 16} {
        assert IsDigit(t[i]);
      }
    }
  }

  /** Round trip: a written date-time parses back to its own epoch seconds, with or without a
      fractional part after a '.'. */
  lemma ParseIsoText(dt: DateTime, fraction: string)
    requires IsValid(dt)
    ensures ParseTimestamp(IsoText(dt)) == EpochSeconds(dt)
    ensures ParseTimestamp(IsoText(dt) + "." + fraction) == EpochSeconds(dt)
  {
    IsoTextFields(dt);
    BeforeDotOfDotFree(IsoText(dt));
    BeforeDotOfFraction(IsoText(dt), fraction);
  }

  /** The result depends only on the text before the first '.': a fractional part never
      changes it. */
  lemma ParseIgnoresFraction(s: string, fraction: string)
    requires '.' !in s
    ensures ParseTimestamp(s + "." + fraction) == ParseTimestamp(s)
  {
    BeforeDotOfFraction(s, fraction);
    BeforeDotOfDotFree(s);
  }

  /** Anything left over after the seconds, other than a fraction, makes the parse fail:
      `...SSZ` with no fraction yields 0. */
  lemma ParseRejectsTrailingText(dt: DateTime, suffix: string)
    requires IsValid(dt) && suffix != [] && '.' !in suffix
    ensures ParseTimestamp(IsoText(dt) + suffix) == 0
  {
    IsoTextFields(dt);
    BeforeDotOfDotFree(IsoText(dt) + suffix);
  }

  /** Parsing a written date-time with a fraction, stated on the concatenated text. */
  lemma ParseIsoTextWithFraction(dt: DateTime, t: string, fraction: string, full: string)
    requires IsValid(dt) && IsoText(dt) == t && full == t + "." + fraction
    ensures ParseTimestamp(t) == EpochSeconds(dt) && ParseTimestamp(full) == EpochSeconds(dt)
  {
    ParseIsoText(dt, fraction);
  }

  /** The epoch written out. */
  lemma EpochText()
    ensures IsoText(DateTime(1970, 1, 1, 0, 0, 0)) == "1970-01-01T00:00:00"
  {
    assert Pad2(19) == "19" && Pad2(70) == "70" && Pad2(1) == "01" && Pad2(0) == "00";
  }

  /** The epoch itself is indistinguishable from a failed parse. */
  lemma ParseEpochIsZero()
    ensures ParseTimestamp("1970-01-01T00:00:00") == 0
    ensures ParseTimestamp("1970-01-01T00:00:00.000Z") == 0
  {
    var dt := DateTime(1970, 1, 1, 0, 0, 0);
    EpochText();
    assert EpochSeconds(dt) == 0 by {
      assert DaysBeforeYear(1970) == 719162;
    }
    ParseIsoTextWithFraction(dt, "1970-01-01T00:00:00", "000Z", "1970-01-01T00:00:00.000Z");
  }

  /** The first instant of 2024 written out. */
  lemma ExampleText()
    ensures IsoText(DateTime(2024, 1, 1, 0, 0, 0)) == "2024-01-01T00:00:00"
  {
    assert Pad2(20) == "20" && Pad2(24) == "24" && Pad2(1) == "01" && Pad2(0) == "00";
  }

  /** An alert timestamp as the alert source writes it, 2024-01-01 midnight UTC with
      milliseconds and a zone letter, parses to its Unix time. */
  lemma ParseExample()
    ensures ParseTimestamp("2024-01-01T00:00:00.000Z") == 1704067200
  {
    var dt := DateTime(2024, 1, 1, 0, 0, 0);
    ExampleText();
    assert EpochSeconds(dt) == 1704067200 by {
      assert DaysBeforeYear(2024) == 738885;
    }
    ParseIsoTextWithFraction(dt, "2024-01-01T00:00:00", "000Z", "2024-01-01T00:00:00.000Z");
  }

  /** The same instant with a zone letter but no fraction does not parse. */
  lemma ParseRejectsZoneLetter()
    ensures ParseTimestamp("2024-01-01T00:00:00Z") == 0
  {
    ExampleText();
    ParseRejectsSuffixOf(DateTime(2024, 1, 1, 0, 0, 0), "2024-01-01T00:00:00", "Z", "2024-01-01T00:00:00Z");
  }

  lemma ParseRejectsSuffixOf(dt: DateTime, t: string, suffix: string, full: string)
    requires IsValid(dt) && IsoText(dt) == t && suffix != [] && '.' !in suffix && full == t + suffix
    ensures ParseTimestamp(full) == 0
  {
    ParseRejectsTrailingText(dt, suffix);
  }
}
