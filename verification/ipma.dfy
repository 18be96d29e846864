/** `IPMAService`: one weather report per location of the service's table,
    read from the forecast entries the Portuguese weather institute (IPMA)
    publishes for that location. Fetching and decoding the entries is an
    input (`fetch`: the entries of a location code). */
module Ipma {
  import opened Wrappers
  import opened Text
  import opened Models
  import Calendar

  /** The fields of an IPMA forecast entry the service reads. */
  datatype Forecast = Forecast(dataPrev: Str, tMin: Str, tMax: Str, idTipoTempo: Str)

  /** `locationCodes`: IPMA location code and place name, in insertion order. */
  const LocationCodes: seq<(Str, Str)> := [
    (Lit("1110600"), Lit("Lisboa")),
    (Lit("1131200"), Lit("Porto")),
    (Lit("1060300"), Lit("Coimbra")),
    (Lit("1080500"), Lit("Faro"))]

  /** `forecastDescPT`: the description of each weather type, by number. */
  const ForecastDescriptionTexts: seq<string> := [
    "Sem informa\U{E7}\U{E3}o",
    "C\U{E9}u limpo",
    "C\U{E9}u pouco nublado",
    "C\U{E9}u parcialmente nublado",
    "C\U{E9}u muito nublado ou encoberto",
    "C\U{E9}u nublado por nuvens altas",
    "Aguaceiros",
    "Aguaceiros fracos",
    "Aguaceiros fortes",
    "Chuva",
    "Chuva fraca ou chuvisco",
    "Chuva forte",
    "Per\U{ED}odos de chuva",
    "Per\U{ED}odos de chuva fraca",
    "Per\U{ED}odos de chuva forte",
    "Chuvisco",
    "Neblina",
    "Nevoeiro ou nuvens baixas",
    "Neve",
    "Trovoada",
    "Aguaceiros e trovoada",
    "Granizo",
    "Geada",
    "Chuva forte e trovoada",
    "Nebulosidade convectiva",
    "C\U{E9}u com periodos muito nublado",
    "Nevoeiro",
    "C\U{E9}u nublado"]

  const ForecastDescriptions: seq<Str> := LitAll(ForecastDescriptionTexts)

  /** The marker of a forecast without a maximum temperature. */
  const NoTemperature: Str := Lit("-99")

  /** The ways building a report throws. */
  datatype WeatherError =
    | UnknownLocation(code: Str)        // `locationCodes[code]`: KeyNotFoundException
    | NoForecast(code: Str)             // `ipma` is null: NullReferenceException
    | UnparsableWeatherType(id: Str)    // `int.Parse`: FormatException or OverflowException
    | UnknownWeatherType(index: int)    // `forecastDescPT[i]`: IndexOutOfRangeException

  /** The place name the table gives a code. */
  function LocationName(code: Str): (r: Option<Str>)
    ensures r.Some? <==> exists k :: 0 <= k < |LocationCodes| && LocationCodes[k].0 == code
    ensures r.Some? ==> exists k :: 0 <= k < |LocationCodes| && LocationCodes[k] == (code, r.value)
  {
    if code == LocationCodes[0].0 then Some(LocationCodes[0].1)
    else if code == LocationCodes[1].0 then Some(LocationCodes[1].1)
    else if code == LocationCodes[2].0 then Some(LocationCodes[2].1)
    else if code == LocationCodes[3].0 then Some(LocationCodes[3].1)
    else None
  }

  /** Every code of the table names its own place. */
  lemma LocationNameOfTable(k: nat)
    requires k < |LocationCodes|
    ensures LocationName(LocationCodes[k].0) == Some(LocationCodes[k].1)
  {
    var c0, c1, c2, c3 := LocationCodes[0].0, LocationCodes[1].0, LocationCodes[2].0, LocationCodes[3].0;
    assert c0[2] != c1[2] && c0[2] != c2[2] && c0[2] != c3[2];
    assert c1[2] != c2[2] && c1[2] != c3[2];
    assert c2[2] != c3[2];
  }

  /** The entry the report is built from: a forecast for the day (its
      timestamp starts with `yyyy-MM-dd`) that carries a maximum temperature. */
  predicate Usable(f: Forecast, day: Str) {
    StartsWith(f.dataPrev, day) && !StartsWith(f.tMax, NoTemperature)
  }

  function FirstUsableFrom(entries: seq<Forecast>, day: Str, from: nat): (r: Option<nat>)
    requires from <= |entries|
    ensures r.Some? ==> (from <= r.value < |entries| && Usable(entries[r.value], day)
      && forall j :: from <= j < r.value ==> !Usable(entries[j], day))
    ensures r.None? ==> forall j :: from <= j < |entries| ==> !Usable(entries[j], day)
    decreases |entries| - from
  {
    if from == |entries| then None
    else if Usable(entries[from], day) then Some(from)
    else FirstUsableFrom(entries, day, from + 1)
  }

  /** Entry `i` is the first usable one for the day. */
  predicate FirstUsable(entries: seq<Forecast>, day: Str, i: int) {
    0 <= i < |entries| && Usable(entries[i], day) && forall j :: 0 <= j < i ==> !Usable(entries[j], day)
  }

  /** `int.Parse(idTipoTempo)` gives an index of `forecastDescPT`. */
  predicate KnownWeatherType(f: Forecast) {
    ParseInt32(f.idTipoTempo).Some? && 0 <= ParseInt32(f.idTipoTempo).value < |ForecastDescriptions|
  }

  /** `Where(...).FirstOrDefault()`: the first usable entry, `None` for null. */
  function SelectEntry(entries: seq<Forecast>, day: Str): (r: Option<Forecast>)
    ensures r.None? <==> forall j :: 0 <= j < |entries| ==> !Usable(entries[j], day)
    ensures r.Some? ==> exists i :: (0 <= i < |entries| && entries[i] == r.value && Usable(r.value, day)
      && forall j :: 0 <= j < i ==> !Usable(entries[j], day))
  {
    match FirstUsableFrom(entries, day, 0)
    case None => None
    case Some(i) => Some(entries[i])
  }

  /** `IPMAToWeatherReport`, in the order its assignments run. */
  function ToReport(entry: Option<Forecast>, date: Time, code: Str): (r: Result<WeatherReport, WeatherError>)
    ensures r.Success? <==> (LocationName(code).Some? && entry.Some?
      && ParseInt32(entry.value.idTipoTempo).Some?
      && 0 <= ParseInt32(entry.value.idTipoTempo).value < |ForecastDescriptions|)
    ensures r.Failure? && LocationName(code).Some? && entry.None? ==> r.error == NoForecast(code)
    ensures r.Success? ==> (r.value.location == LocationName(code).value && r.value.date == date
      && r.value.tempMax == entry.value.tMax && r.value.tempMin == entry.value.tMin
      && r.value.weatherType == ForecastDescriptions[ParseInt32(entry.value.idTipoTempo).value])
  {
    match LocationName(code)
    case None => Failure(UnknownLocation(code))
    case Some(name) =>
      match entry
      case None => Failure(NoForecast(code))
      case Some(f) =>
        match ParseInt32(f.idTipoTempo)
        case None => Failure(UnparsableWeatherType(f.idTipoTempo))
        case Some(i) =>
          if 0 <= i < |ForecastDescriptions| then
            Success(WeatherReport(date, name, f.tMin, f.tMax, ForecastDescriptions[i]))
          else Failure(UnknownWeatherType(i))
  }

  /** `GetWeatherReport`: select the day's entry of a location and map it. */
  function GetWeatherReport(code: Str, entries: seq<Forecast>, date: Time, civil: Calendar.CivilOf)
    : (r: Result<WeatherReport, WeatherError>)
    ensures LocationName(code).Some? ==>
      (r.Failure? && r.error == NoForecast(code) <==>
        forall j :: 0 <= j < |entries| ==> !Usable(entries[j], Calendar.YearMonthDay(civil(Calendar.DayOf(date)))))
    ensures r.Success? ==> exists i :: (0 <= i < |entries|
      && Usable(entries[i], Calendar.YearMonthDay(civil(Calendar.DayOf(date))))
      && r.value.tempMax == entries[i].tMax && r.value.tempMin == entries[i].tMin)
    ensures r.Success? <==> (LocationName(code).Some?
      && exists i :: (FirstUsable(entries, Calendar.YearMonthDay(civil(Calendar.DayOf(date))), i)
        && KnownWeatherType(entries[i])))
    ensures r.Success? ==> exists i :: (FirstUsable(entries, Calendar.YearMonthDay(civil(Calendar.DayOf(date))), i)
      && KnownWeatherType(entries[i])
      && r.value == WeatherReport(date, LocationName(code).value, entries[i].tMin, entries[i].tMax,
                                  ForecastDescriptions[ParseInt32(entries[i].idTipoTempo).value]))
  {
    var day := Calendar.YearMonthDay(civil(Calendar.DayOf(date)));
    var r := ToReport(SelectEntry(entries, day), date, code);
    FirstUsableUnique(entries, day);
    r
  }

  /** At most one entry is the first usable one. */
  lemma FirstUsableUnique(entries: seq<Forecast>, day: Str)
    ensures forall i, j :: FirstUsable(entries, day, i) && FirstUsable(entries, day, j) ==> i == j
  {
  }

  /** The `foreach` of `GetWeatherReports` from the `k`-th code on: one report
      per code, in order; the first report that throws ends the run. */
  function ReportsOf(codes: seq<Str>, report: Str -> Result<WeatherReport, WeatherError>, k: nat)
    : (r: Result<seq<WeatherReport>, WeatherError>)
    requires k <= |codes|
    ensures r.Success? ==> |r.value| == |codes| - k
    ensures r.Success? <==> forall j :: k <= j < |codes| ==> report(codes[j]).Success?
    ensures r.Success? ==> forall j :: k <= j < |codes| ==> r.value[j - k] == report(codes[j]).value
    decreases |codes| - k
  {
    if k == |codes| then Success([])
    else
      match report(codes[k])
      case Failure(e) => Failure(e)
      case Success(first) =>
        match ReportsOf(codes, report, k + 1)
        case Failure(e) => Failure(e)
        case Success(rest) => Success([first] + rest)
  }

  /** The codes of the table, in its order. */
  function TableCodes(): (r: seq<Str>)
    ensures |r| == |LocationCodes| && forall k :: 0 <= k < |r| ==> r[k] == LocationCodes[k].0
  {
    seq(|LocationCodes|, k requires 0 <= k < |LocationCodes| => LocationCodes[k].0)
  }

  /** `GetWeatherReports`: the table's four locations, in table order. */
  function GetWeatherReports(fetch: Str -> seq<Forecast>, date: Time, civil: Calendar.CivilOf)
    : (r: Result<seq<WeatherReport>, WeatherError>)
    ensures r.Success? ==> |r.value| == 4
    ensures r.Success? ==> forall k :: 0 <= k < 4 ==>
      r.value[k].location == LocationCodes[k].1 && r.value[k].date == date
    ensures r.Success? <==> forall k :: 0 <= k < |LocationCodes| ==>
      GetWeatherReport(LocationCodes[k].0, fetch(LocationCodes[k].0), date, civil).Success?
    ensures r.Success? ==> forall k :: 0 <= k < 4 ==>
      r.value[k] == GetWeatherReport(LocationCodes[k].0, fetch(LocationCodes[k].0), date, civil).value
  {
    var r := ReportsOf(TableCodes(), LocationReport(fetch, date, civil), 0);
    TableReports(fetch, date, civil);
    if r.Success? then
      TableReportsLocated(r.value, fetch, date, civil);
      r
    else r
  }

  /** The report of one location, as the `foreach` computes it. */
  function LocationReport(fetch: Str -> seq<Forecast>, date: Time, civil: Calendar.CivilOf)
    : Str -> Result<WeatherReport, WeatherError>
  {
    code => GetWeatherReport(code, fetch(code), date, civil)
  }

  /** Report `k` of the table run is location `k`'s own report. */
  lemma TableReports(fetch: Str -> seq<Forecast>, date: Time, civil: Calendar.CivilOf)
    ensures var r := ReportsOf(TableCodes(), LocationReport(fetch, date, civil), 0);
      && (r.Success? <==> forall k :: 0 <= k < |LocationCodes| ==>
        GetWeatherReport(LocationCodes[k].0, fetch(LocationCodes[k].0), date, civil).Success?)
      && (r.Success? ==> |r.value| == 4 && forall k :: 0 <= k < 4 ==>
        r.value[k] == GetWeatherReport(LocationCodes[k].0, fetch(LocationCodes[k].0), date, civil).value)
  {
    var codes := TableCodes();
    var report := LocationReport(fetch, date, civil);
    forall k | 0 <= k < |LocationCodes|
      ensures report(codes[k]) == GetWeatherReport(LocationCodes[k].0, fetch(LocationCodes[k].0), date, civil)
    {
    }
  }

  /** Every report of the table run names its own place and the date. */
  lemma TableReportsLocated(reports: seq<WeatherReport>, fetch: Str -> seq<Forecast>, date: Time, civil: Calendar.CivilOf)
    requires |reports| == 4
    requires forall k :: 0 <= k < 4 ==>
      GetWeatherReport(LocationCodes[k].0, fetch(LocationCodes[k].0), date, civil).Success?
      && reports[k] == GetWeatherReport(LocationCodes[k].0, fetch(LocationCodes[k].0), date, civil).value
    ensures forall k :: 0 <= k < 4 ==> reports[k].location == LocationCodes[k].1 && reports[k].date == date
  {
    forall k | 0 <= k < 4
      ensures reports[k].location == LocationCodes[k].1 && reports[k].date == date
    {
      ReportOfLocation(k, fetch(LocationCodes[k].0), date, civil);
    }
  }

  lemma ReportOfLocation(k: nat, entries: seq<Forecast>, date: Time, civil: Calendar.CivilOf)
    requires k < |LocationCodes|
    requires GetWeatherReport(LocationCodes[k].0, entries, date, civil).Success?
    ensures GetWeatherReport(LocationCodes[k].0, entries, date, civil).value.location == LocationCodes[k].1
    ensures GetWeatherReport(LocationCodes[k].0, entries, date, civil).value.date == date
  {
    LocationNameOfTable(k);
  }

  /** A location's report fails for want of a forecast exactly when none of
      its entries is a forecast for that day with a maximum temperature. */
  lemma NoForecastIffNoUsableEntry(fetch: Str -> seq<Forecast>, date: Time, civil: Calendar.CivilOf, k: nat)
    requires k < |LocationCodes|
    ensures var r := GetWeatherReport(LocationCodes[k].0, fetch(LocationCodes[k].0), date, civil);
      r.Failure? && r.error == NoForecast(LocationCodes[k].0) <==>
      forall j :: 0 <= j < |fetch(LocationCodes[k].0)| ==>
        !Usable(fetch(LocationCodes[k].0)[j], Calendar.YearMonthDay(civil(Calendar.DayOf(date))))
  {
    LocationNameOfTable(k);
  }
}
