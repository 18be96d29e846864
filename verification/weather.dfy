/** `WeatherService`: tweets the forecast of the table's locations as a
    digest, a header line with the forecast date followed by one line per
    report in random order. The random draws, the line terminator
    (`Environment.NewLine`), the calendar and the outcome of posting the
    tweet are inputs. */
module Weather {
  import opened Wrappers
  import opened Text
  import opened Models
  import Sorting
  import Calendar
  import Ipma

  /** `UtcNow.Hour > 12 ? UtcNow.AddDays(1) : UtcNow`: after midday the
      forecast is for the following day, otherwise for today. */
  function ForecastTime(now: Time): (r: Time)
    ensures Calendar.DayOf(r) == (if Calendar.Hour(now) > 12 then Calendar.DayOf(now) + 1 else Calendar.DayOf(now))
    ensures Calendar.TimeOfDay(r) == Calendar.TimeOfDay(now)
  {
    if Calendar.Hour(now) > 12 then Calendar.NextDay(now) else now
  }

  const HeaderLabel: Str := Lit("Previs\U{E3}o para dia ")
  const HeaderEnd: Str := Lit(":")
  const TypeLabel: Str := Lit(": ")
  const MinLabel: Str := Lit(" - MIN: ")
  const MaxLabel: Str := Lit("\U{BA}C MAX: ")
  const LineEnd: Str := Lit("\U{BA}C ")

  const LineFeed: CodeUnit := 0x0A

  /** The header: `Previsão para dia dd-MM-yyyy:`. */
  function Header(date: Time, civil: Calendar.CivilOf): (r: Str)
    ensures StartsWith(r, HeaderLabel)
    ensures Calendar.Valid(civil(Calendar.DayOf(date))) ==>
      (|r| == |HeaderLabel| + 11 && r[|r| - 1..] == HeaderEnd
       && Calendar.ParseDayMonthYear(r[|HeaderLabel|..|HeaderLabel| + 10]) == Some(civil(Calendar.DayOf(date))))
  {
    var c := civil(Calendar.DayOf(date));
    var text := Calendar.DayMonthYear(c);
    var r := HeaderLabel + text + HeaderEnd;
    assert r[..|HeaderLabel|] == HeaderLabel;
    assert Calendar.Valid(c) ==> r[|HeaderLabel|..|HeaderLabel| + 10] == text by {
      if Calendar.Valid(c) {
        Calendar.DayMonthYearRoundTrip(c);
      }
    }
    assert Calendar.Valid(c) ==> Calendar.ParseDayMonthYear(text) == Some(c) by {
      if Calendar.Valid(c) {
        Calendar.DayMonthYearRoundTrip(c);
      }
    }
    r
  }

  /** A report line: `{Location}: {WeatherType} - MIN: {TempMin}ºC MAX: {TempMax}ºC `. */
  function ReportLine(w: WeatherReport): (r: Str)
    ensures StartsWith(r, w.location + TypeLabel)
    ensures |r| == |w.location| + |w.weatherType| + |w.tempMin| + |w.tempMax| + 21
    ensures r[|r| - |LineEnd|..] == LineEnd
    ensures LineFeed in r <==> LineFeed in w.location || LineFeed in w.weatherType || LineFeed in w.tempMin || LineFeed in w.tempMax
  {
    assert LineFeed !in TypeLabel + MinLabel + MaxLabel + LineEnd;
    var r := w.location + TypeLabel + w.weatherType + MinLabel + w.tempMin + MaxLabel + w.tempMax + LineEnd;
    assert r[..|w.location + TypeLabel|] == w.location + TypeLabel;
    r
  }

  /** `OrderBy(x => r.Next(...))`: a stable sort of the reports by one random
      draw each. */
  function Shuffle(reports: seq<WeatherReport>, draws: seq<int>): (r: seq<WeatherReport>)
    requires |draws| == |reports|
    ensures multiset(r) == multiset(reports)
  {
    var tagged := seq(|reports|, i requires 0 <= i < |reports| => (draws[i], reports[i]));
    var sorted := Sorting.Sort(tagged, ByDraw);
    Sorting.MapPermutation(sorted, tagged, Report);
    assert Sorting.MapSeq(tagged, Report) == reports;
    Sorting.MapSeq(sorted, Report)
  }

  predicate ByDraw(a: (int, WeatherReport), b: (int, WeatherReport)) {
    a.0 <= b.0
  }

  function Report(x: (int, WeatherReport)): WeatherReport {
    x.1
  }

  /** The text a `StringBuilder` holds after `AppendLine` of each part. */
  function AppendLines(parts: seq<Str>, eol: Str): Str {
    if parts == [] then []
    else AppendLines(parts[..|parts| - 1], eol) + parts[|parts| - 1] + eol
  }

  /** Appending lines is joining them with the terminator, plus a final empty line. */
  lemma {:induction false} AppendLinesJoin(parts: seq<Str>, eol: Str)
    ensures AppendLines(parts, eol) == Join(parts + [[]], eol)
  {
    if parts != [] {
      var init := parts[..|parts| - 1];
      AppendLinesJoin(init, eol);
      assert (parts + [[]])[..|parts|] == parts;
      assert (init + [[]])[..|init|] == init;
      if init == [] {
        assert parts == [parts[0]];
      } else {
        assert parts[..|parts| - 1] == init;
      }
    }
  }

  /** The digest lines after the header. */
  function BodyLines(reports: seq<WeatherReport>, draws: seq<int>): (r: seq<Str>)
    requires |draws| == |reports|
    ensures |r| == |reports|
    ensures multiset(r) == multiset(Sorting.MapSeq(reports, ReportLine))
  {
    var shuffled := Shuffle(reports, draws);
    Sorting.MapPermutation(shuffled, reports, ReportLine);
    Sorting.MapSeq(shuffled, ReportLine)
  }

  /** `weatherReports[0]` on an empty array throws. */
  datatype DigestError = NoReports

  /** `GetWeatherString`: the header for the first report's date, then the
      report lines in the drawn order, each line terminated by `eol`. */
  function Digest(reports: seq<WeatherReport>, draws: seq<int>, civil: Calendar.CivilOf, eol: Str)
    : (r: Result<Str, DigestError>)
    requires |draws| == |reports|
    ensures r.Failure? <==> reports == []
    ensures r.Success? ==> r.value == Join([Header(reports[0].date, civil)] + BodyLines(reports, draws) + [[]], eol)
  {
    if reports == [] then Failure(NoReports)
    else
      var parts := [Header(reports[0].date, civil)] + BodyLines(reports, draws);
      AppendLinesJoin(parts, eol);
      Success(AppendLines(parts, eol))
  }

  /** Report fields without line feeds. */
  predicate SingleLine(w: WeatherReport) {
    LineFeed !in w.location && LineFeed !in w.weatherType && LineFeed !in w.tempMin && LineFeed !in w.tempMax
  }

  /** Split at line feeds, a digest with `\n` terminators gives back the
      header, exactly one line per report, and a final empty piece; the lines
      are the report lines in some order. */
  lemma DigestLines(reports: seq<WeatherReport>, draws: seq<int>, civil: Calendar.CivilOf)
    requires |draws| == |reports| && reports != []
    requires forall k :: 0 <= k < |reports| ==> SingleLine(reports[k])
    requires Calendar.Valid(civil(Calendar.DayOf(reports[0].date)))
    ensures var pieces := Split(Digest(reports, draws, civil, [LineFeed]).value, LineFeed);
      && |pieces| == |reports| + 2
      && pieces[0] == Header(reports[0].date, civil)
      && pieces[|pieces| - 1] == []
      && multiset(pieces[1..|pieces| - 1]) == multiset(Sorting.MapSeq(reports, ReportLine))
  {
    var header := Header(reports[0].date, civil);
    var lines := BodyLines(reports, draws);
    var items := [header] + lines + [[]];
    HeaderSingleLine(reports[0].date, civil);
    BodyLinesSingleLine(reports, draws);
    assert forall i :: 0 <= i < |items| ==> LineFeed !in items[i];
    SplitJoin(items, LineFeed);
    assert items[1..|items| - 1] == lines;
  }

  lemma BodyLinesSingleLine(reports: seq<WeatherReport>, draws: seq<int>)
    requires |draws| == |reports|
    requires forall k :: 0 <= k < |reports| ==> SingleLine(reports[k])
    ensures forall k :: 0 <= k < |reports| ==> LineFeed !in BodyLines(reports, draws)[k]
  {
    var lines := BodyLines(reports, draws);
    var all := Sorting.MapSeq(reports, ReportLine);
    forall k | 0 <= k < |lines|
      ensures LineFeed !in lines[k]
    {
      assert lines[k] in multiset(all);
      var j :| 0 <= j < |all| && all[j] == lines[k];
    }
  }

  lemma HeaderSingleLine(date: Time, civil: Calendar.CivilOf)
    requires Calendar.Valid(civil(Calendar.DayOf(date)))
    ensures LineFeed !in Header(date, civil)
  {
    var text := Calendar.DayMonthYear(civil(Calendar.DayOf(date)));
    assert Calendar.ParseDayMonthYear(text).Some? by {
      Calendar.DayMonthYearRoundTrip(civil(Calendar.DayOf(date)));
    }
    assert LineFeed !in text;
    assert Header(date, civil) == HeaderLabel + text + HeaderEnd;
  }

  /** Why `Act` stops short of tweeting: a report could not be built, or the
      digest could not be formatted. */
  datatype ActError = ReportFailed(cause: Ipma.WeatherError) | DigestFailed(reason: DigestError)

  /** `Act`: the reports for the forecast date, their digest, and the outcome
      of posting it (`sent`, the result of `SendTweet`). */
  function Act(now: Time, civil: Calendar.CivilOf, fetch: Str -> seq<Ipma.Forecast>, draws: seq<int>, eol: Str, sent: bool)
    : (r: Result<(bool, Str), ActError>)
    requires |draws| == |Ipma.LocationCodes|
    ensures r.Failure? <==> Ipma.GetWeatherReports(fetch, ForecastTime(now), civil).Failure?
    ensures r.Success? ==> r.value.0 == sent
    ensures r.Success? ==> StartsWith(r.value.1, Header(ForecastTime(now), civil) + eol)
    ensures r.Success? ==>
      Digest(Ipma.GetWeatherReports(fetch, ForecastTime(now), civil).value, draws, civil, eol) == Success(r.value.1)
  {
    match Ipma.GetWeatherReports(fetch, ForecastTime(now), civil)
    case Failure(e) => Failure(ReportFailed(e))
    case Success(reports) =>
      var parts := [Header(reports[0].date, civil)] + BodyLines(reports, draws);
      match Digest(reports, draws, civil, eol)
      case Failure(e) => Failure(DigestFailed(e))
      case Success(text) =>
        AppendLinesJoin(parts, eol);
        AppendLinesStart(parts, eol);
        Success((sent, text))
  }

  lemma {:induction false} AppendLinesStart(parts: seq<Str>, eol: Str)
    requires parts != []
    ensures StartsWith(AppendLines(parts, eol), parts[0] + eol)
  {
    if |parts| > 1 {
      AppendLinesStart(parts[..|parts| - 1], eol);
    }
  }
}
