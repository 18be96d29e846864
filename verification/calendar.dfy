/** The `DateTime` arithmetic and the two date formats of the weather digest.
    A `DateTime` is a count of 100-nanosecond ticks since 0001-01-01 00:00
    (`Models.Time`). Turning a day number into a year, month and day is the
    .NET calendar's business and comes in as a parameter (`CivilOf`). */
module Calendar {
  import opened Wrappers
  import opened Text
  import opened Models

  const TicksPerHour: nat := 36_000_000_000
  const TicksPerDay: nat := 24 * TicksPerHour

  /** Whole days since 0001-01-01. */
  function DayOf(t: Time): nat {
    t / TicksPerDay
  }

  function TimeOfDay(t: Time): (r: nat)
    ensures r < TicksPerDay
  {
    t % TicksPerDay
  }

  /** `DateTime.Hour`. */
  function Hour(t: Time): (h: nat)
    ensures h < 24
    ensures h * TicksPerHour <= TimeOfDay(t) < (h + 1) * TicksPerHour
  {
    TimeOfDay(t) / TicksPerHour
  }

  /** `AddDays(1)`: the same time of day on the following day. */
  function NextDay(t: Time): (r: Time)
    ensures DayOf(r) == DayOf(t) + 1
    ensures TimeOfDay(r) == TimeOfDay(t)
  {
    t + TicksPerDay
  }

  /** A proleptic Gregorian date. */
  datatype CivilDate = CivilDate(year: nat, month: nat, day: nat)

  /** The dates a `DateTime` can hold. */
  predicate Valid(c: CivilDate) {
    1 <= c.year <= 9999 && 1 <= c.month <= 12 && 1 <= c.day <= 31
  }

  /** The calendar: the date of each day number. */
  type CivilOf = nat -> CivilDate

  const Dash: CodeUnit := 0x2D

  lemma Pow10Values()
    ensures Pow10(2) == 100 && Pow10(4) == 10000
  {
    assert Pow10(1) == 10;
    assert Pow10(3) == 1000;
  }

  /** `ToString("dd-MM-yyyy")`. */
  function DayMonthYear(c: CivilDate): (r: Str)
    ensures Valid(c) ==> |r| == 10 && r[2] == Dash && r[5] == Dash
  {
    Pow10Values();
    PadNat(c.day, 2) + [Dash] + PadNat(c.month, 2) + [Dash] + PadNat(c.year, 4)
  }

  /** `ToString("yyyy-MM-dd")`. */
  function YearMonthDay(c: CivilDate): (r: Str)
    ensures Valid(c) ==> |r| == 10 && r[4] == Dash && r[7] == Dash
  {
    Pow10Values();
    PadNat(c.year, 4) + [Dash] + PadNat(c.month, 2) + [Dash] + PadNat(c.day, 2)
  }

  /** Reads three dash-separated digit fields of widths `w0`, `w1`, `w2`. */
  function Fields(s: Str, w0: nat, w1: nat, w2: nat): (r: Option<(nat, nat, nat)>)
    ensures r.Some? ==> |s| == w0 + w1 + w2 + 2 && s[w0] == Dash && s[w0 + w1 + 1] == Dash
  {
    if |s| == w0 + w1 + w2 + 2 && s[w0] == Dash && s[w0 + w1 + 1] == Dash
       && AllDigits(s[..w0]) && AllDigits(s[w0 + 1..w0 + w1 + 1]) && AllDigits(s[w0 + w1 + 2..])
    then Some((DigitsValue(s[..w0]), DigitsValue(s[w0 + 1..w0 + w1 + 1]), DigitsValue(s[w0 + w1 + 2..])))
    else None
  }

  /** Reading a `dd-MM-yyyy` text back into a date. */
  function ParseDayMonthYear(s: Str): Option<CivilDate> {
    match Fields(s, 2, 2, 4)
    case None => None
    case Some((d, m, y)) => Some(CivilDate(y, m, d))
  }

  /** Reading a `yyyy-MM-dd` text back into a date. */
  function ParseYearMonthDay(s: Str): Option<CivilDate> {
    match Fields(s, 4, 2, 2)
    case None => None
    case Some((y, m, d)) => Some(CivilDate(y, m, d))
  }

  /** The three fields and two dashes of a joined text sit where `Fields` looks. */
  lemma JoinSlices(a: Str, b: Str, c: Str)
    ensures var s := a + [Dash] + b + [Dash] + c;
      && |s| == |a| + |b| + |c| + 2
      && s[|a|] == Dash && s[|a| + |b| + 1] == Dash
      && s[..|a|] == a && s[|a| + 1..|a| + |b| + 1] == b && s[|a| + |b| + 2..] == c
  {
    var ab := a + [Dash] + b;
    var s := ab + [Dash] + c;
    assert s[..|ab|] == ab && s[|ab| + 1..] == c;
    assert s[..|a|] == ab[..|a|] == a;
    assert s[|a| + 1..|ab|] == ab[|a| + 1..] == b;
  }

  lemma FieldsOfJoin(a: Str, b: Str, c: Str)
    requires AllDigits(a) && AllDigits(b) && AllDigits(c)
    ensures Fields(a + [Dash] + b + [Dash] + c, |a|, |b|, |c|) == Some((DigitsValue(a), DigitsValue(b), DigitsValue(c)))
  {
    JoinSlices(a, b, c);
  }

  /** `dd-MM-yyyy` reads back as the date it was written from. */
  lemma DayMonthYearRoundTrip(c: CivilDate)
    requires Valid(c)
    ensures ParseDayMonthYear(DayMonthYear(c)) == Some(c)
  {
    Pow10Values();
    FieldsOfJoin(PadNat(c.day, 2), PadNat(c.month, 2), PadNat(c.year, 4));
  }

  /** `yyyy-MM-dd` reads back as the date it was written from. */
  lemma YearMonthDayRoundTrip(c: CivilDate)
    requires Valid(c)
    ensures ParseYearMonthDay(YearMonthDay(c)) == Some(c)
  {
    Pow10Values();
    FieldsOfJoin(PadNat(c.year, 4), PadNat(c.month, 2), PadNat(c.day, 2));
  }

  /** Different dates have different `yyyy-MM-dd` texts, so the prefix test on
      a forecast's timestamp picks out one date. */
  lemma YearMonthDayInjective(c: CivilDate, d: CivilDate)
    requires Valid(c) && Valid(d) && c != d
    ensures YearMonthDay(c) != YearMonthDay(d)
  {
    YearMonthDayRoundTrip(c);
    YearMonthDayRoundTrip(d);
  }
}
