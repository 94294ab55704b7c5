/** The weather extractor `weather`, over the text already taken from the
    page: the heading values and the rows of the forecast table. */
module Weather {
  import opened Outcomes
  import opened Text
  import opened Numbers

  /** The number of forecast rows `weather` reads. */
  const FORECAST_ROWS := 7

  datatype HighLow = HighLow(highest: Option<int>, lowest: Option<int>)
  datatype Temperatures = Temperatures(fahrenheit: HighLow, celsius: HighLow)
  const NO_TEMPERATURES := Temperatures(HighLow(None, None), HighLow(None, None))

  datatype WeatherIcon = WeatherIcon(text: string, icon: string)       // `img` alt and src
  datatype Precipitation = Precipitation(icon: string, percentage: string)

  /** One forecast table row: the day label, the weather image, the
      precipitation cell and the texts of the `dl dd` temperature cells. */
  datatype ForecastRow = ForecastRow(
    day: string,
    weather: Option<WeatherIcon>,
    precipitation: Option<Precipitation>,
    temperatures: seq<string>)

  datatype DayForecast = DayForecast(
    fahrenheit: HighLow,
    celsius: HighLow,
    weather: Option<WeatherIcon>,
    precipitation: Option<Precipitation>)

  /** The `div#module-location-heading` block: its `img` src and `p` text. */
  datatype Heading = Heading(icon: Option<string>, text: Option<string>)

  datatype WeatherPage = WeatherPage(
    location: Option<string>,
    country: Option<string>,
    time: Option<string>,
    celsius: Option<string>,
    fahrenheit: Option<string>,
    heading: Option<Heading>,
    rows: seq<ForecastRow>)

  datatype WeatherInfo = WeatherInfo(
    location: Option<string>,
    country: Option<string>,
    time: Option<string>,
    celsius: Option<int>,
    fahrenheit: Option<int>,
    weatherIcon: Option<string>,
    weather: Option<string>,
    forecast: map<string, DayForecast>)

  // ---------------------------------------------------------------------
  // Temperature cells

  /** A cell's value: its text without the trailing degree sign, as an int. */
  function CellValue(cell: string): (r: Result<int>)
    ensures r.Failure? ==> r.error == ValueError
    ensures r.Success? ==> |cell| >= 2 && IsDigit(cell[|cell| - 2])
  {
    ParseInt(DropLast(cell))
  }

  /** A rendered temperature followed by one unit character parses back. */
  lemma CellValueOfRendered(n: int, unit: char)
    ensures CellValue(ShowInt(n) + [unit]) == Success(n)
  {
    assert DropLast(ShowInt(n) + [unit]) == ShowInt(n);
    ParseShowInt(n);
  }

  /** The assignment by position: 0 is the Fahrenheit high, 1 the Celsius
      high, 2 the Fahrenheit low, and every later index the Celsius low. */
  function Assign(t: Temperatures, index: nat, v: int): (r: Temperatures)
    ensures r.fahrenheit.highest == if index == 0 then Some(v) else t.fahrenheit.highest
    ensures r.celsius.highest == if index == 1 then Some(v) else t.celsius.highest
    ensures r.fahrenheit.lowest == if index == 2 then Some(v) else t.fahrenheit.lowest
    ensures r.celsius.lowest == if index >= 3 then Some(v) else t.celsius.lowest
  {
    if index == 0 then t.(fahrenheit := t.fahrenheit.(highest := Some(v)))
    else if index == 1 then t.(celsius := t.celsius.(highest := Some(v)))
    else if index == 2 then t.(fahrenheit := t.fahrenheit.(lowest := Some(v)))
    else t.(celsius := t.celsius.(lowest := Some(v)))
  }

  /** The temperatures after the `enumerate(hl_temp)` loop over `cells`. */
  function TemperaturesOf(cells: seq<string>): (r: Result<Temperatures>)
    ensures r.Failure? ==> r.error == ValueError
    ensures r.Success? ==>
      && (r.value.fahrenheit.highest.Some? <==> |cells| >= 1)
      && (r.value.celsius.highest.Some? <==> |cells| >= 2)
      && (r.value.fahrenheit.lowest.Some? <==> |cells| >= 3)
      && (r.value.celsius.lowest.Some? <==> |cells| >= 4)
    decreases |cells|
  {
    if cells == [] then Success(NO_TEMPERATURES)
    else
      var t :- TemperaturesOf(cells[..|cells| - 1]);
      var v :- CellValue(cells[|cells| - 1]);
      Success(Assign(t, |cells| - 1, v))
  }

  /** Every cell holds an integer followed by one character. */
  predicate AllCellsParse(cells: seq<string>) {
    forall i :: 0 <= i < |cells| ==> CellValue(cells[i]).Success?
  }

  /** The value at `i` when there is a cell there. */
  function ValueAt(cells: seq<string>, i: nat): Option<int>
    requires AllCellsParse(cells)
  {
    if i < |cells| then Some(CellValue(cells[i]).value) else None
  }

  /** When every cell parses, each field holds the value of its position;
      with more than four cells the last one is the Celsius low. */
  lemma {:induction false} TemperaturePositions(cells: seq<string>)
    requires AllCellsParse(cells)
    ensures TemperaturesOf(cells) == Success(Temperatures(
      HighLow(ValueAt(cells, 0), ValueAt(cells, 2)),
      HighLow(ValueAt(cells, 1), if |cells| > 3 then ValueAt(cells, |cells| - 1) else None)))
    decreases |cells|
  {
    if cells != [] {
      var prefix := cells[..|cells| - 1];
      assert AllCellsParse(prefix) by {
        forall i | 0 <= i < |prefix| ensures CellValue(prefix[i]).Success? {
          assert prefix[i] == cells[i];
        }
      }
      TemperaturePositions(prefix);
      assert forall i :: 0 <= i < |prefix| ==> prefix[i] == cells[i];
    }
  }

  /** A cell that is not an integer followed by one character makes the
      whole row a `ValueError`. */
  lemma {:induction false} TemperatureFailure(cells: seq<string>, i: nat)
    requires i < |cells| && CellValue(cells[i]).Failure?
    ensures TemperaturesOf(cells) == Failure(ValueError)
    decreases |cells|
  {
    var prefix := cells[..|cells| - 1];
    if i < |prefix| {
      assert prefix[i] == cells[i];
      TemperatureFailure(prefix, i);
    }
  }

  /** The `for index, item in enumerate(hl_temp)` loop of one row. */
  method ParseTemperatures(cells: seq<string>) returns (r: Result<Temperatures>)
    ensures r == TemperaturesOf(cells)
  {
    var t := NO_TEMPERATURES;
    for index := 0 to |cells|
      invariant TemperaturesOf(cells[..index]) == Success(t)
    {
      assert cells[..index + 1][..index] == cells[..index];
      var v := ParseInt(DropLast(cells[index]));
      if v.Failure? {
        TemperatureFailure(cells, index);
        return Failure(v.error);
      }
      if index == 0 {
        t := t.(fahrenheit := t.fahrenheit.(highest := Some(v.value)));
      } else if index == 1 {
        t := t.(celsius := t.celsius.(highest := Some(v.value)));
      } else if index == 2 {
        t := t.(fahrenheit := t.fahrenheit.(lowest := Some(v.value)));
      } else {
        t := t.(celsius := t.celsius.(lowest := Some(v.value)));
      }
    }
    assert cells[..|cells|] == cells;
    return Success(t);
  }

  // ---------------------------------------------------------------------
  // The forecast map

  /** The forecast of one row. */
  function RowForecast(row: ForecastRow): (r: Result<DayForecast>)
    ensures r.Success? <==> TemperaturesOf(row.temperatures).Success?
    ensures r.Failure? ==> r.error == ValueError
    ensures r.Success? ==> r.value.weather == row.weather && r.value.precipitation == row.precipitation
    ensures r.Success? ==>
      r.value.fahrenheit == TemperaturesOf(row.temperatures).value.fahrenheit &&
      r.value.celsius == TemperaturesOf(row.temperatures).value.celsius
  {
    var t :- TemperaturesOf(row.temperatures);
    Success(DayForecast(t.fahrenheit, t.celsius, row.weather, row.precipitation))
  }

  /** The map after the loop over `rows`: each row stored under its day. */
  function ForecastOf(rows: seq<ForecastRow>): (r: Result<map<string, DayForecast>>)
    ensures r.Failure? ==> r.error == ValueError
    decreases |rows|
  {
    if rows == [] then Success(map[])
    else
      var m :- ForecastOf(rows[..|rows| - 1]);
      var f :- RowForecast(rows[|rows| - 1]);
      Success(m[rows[|rows| - 1].day := f])
  }

  /** The rows `weather` reads: `weather_table[:7]`. */
  function UsedRows(rows: seq<ForecastRow>): (used: seq<ForecastRow>)
    ensures |used| == if |rows| < FORECAST_ROWS then |rows| else FORECAST_ROWS
    ensures used == rows[..|used|]
    ensures |rows| <= FORECAST_ROWS ==> used == rows
  {
    if |rows| <= FORECAST_ROWS then rows else rows[..FORECAST_ROWS]
  }

  /** The forecast of a page: the map over its first seven rows. */
  function Forecast(rows: seq<ForecastRow>): (r: Result<map<string, DayForecast>>)
    ensures r.Failure? ==> r.error == ValueError
  {
    ForecastOf(UsedRows(rows))
  }

  /** The days of a sequence of rows. */
  function Days(rows: seq<ForecastRow>): set<string> {
    set i | 0 <= i < |rows| :: rows[i].day
  }

  /** Row `j` is the last of `rows` whose day is `d`. */
  predicate LastWith(rows: seq<ForecastRow>, d: string, j: nat) {
    j < |rows| && rows[j].day == d && forall k :: j < k < |rows| ==> rows[k].day != d
  }

  /** The keys of the forecast are exactly the days of the rows. */
  lemma {:induction false} ForecastKeys(rows: seq<ForecastRow>)
    requires ForecastOf(rows).Success?
    ensures ForecastOf(rows).value.Keys == Days(rows)
    decreases |rows|
  {
    if rows != [] {
      var prefix := rows[..|rows| - 1];
      ForecastKeys(prefix);
      assert Days(rows) == Days(prefix) + {rows[|rows| - 1].day} by {
        assert forall i :: 0 <= i < |prefix| ==> prefix[i] == rows[i];
        forall d | d in Days(rows) ensures d in Days(prefix) + {rows[|rows| - 1].day} {
          var i :| 0 <= i < |rows| && rows[i].day == d;
          if i < |prefix| {
            assert prefix[i].day == d;
          }
        }
      }
    }
  }

  /** Each day holds the forecast of the last row with that day: a later
      row with the same day replaces an earlier one. */
  lemma {:induction false} ForecastValue(rows: seq<ForecastRow>, d: string, j: nat)
    requires ForecastOf(rows).Success?
    requires LastWith(rows, d, j)
    ensures RowForecast(rows[j]).Success?
    ensures d in ForecastOf(rows).value && ForecastOf(rows).value[d] == RowForecast(rows[j]).value
    decreases |rows|
  {
    var prefix := rows[..|rows| - 1];
    if j < |rows| - 1 {
      assert prefix[j] == rows[j];
      assert LastWith(prefix, d, j) by {
        assert forall k :: j < k < |prefix| ==> prefix[k] == rows[k];
      }
      ForecastValue(prefix, d, j);
    }
  }
  /** The loop fails exactly when some row's temperatures do not parse. */
  lemma {:induction false} ForecastFailure(rows: seq<ForecastRow>)
    ensures ForecastOf(rows).Success? <==> forall i :: 0 <= i < |rows| ==> RowForecast(rows[i]).Success?
    ensures ForecastOf(rows).Failure? ==> ForecastOf(rows).error == ValueError
    decreases |rows|
  {
    if rows != [] {
      var prefix := rows[..|rows| - 1];
      ForecastFailure(prefix);
      assert forall i :: 0 <= i < |prefix| ==> prefix[i] == rows[i];
    }
  }

  /** There are no more keys than rows, and exactly as many when the days
      of the rows are all different. */
  lemma {:induction false} ForecastSize(rows: seq<ForecastRow>)
    requires ForecastOf(rows).Success?
    ensures |ForecastOf(rows).value| <= |rows|
    ensures (forall i, j :: 0 <= i < j < |rows| ==> rows[i].day != rows[j].day) ==>
      |ForecastOf(rows).value| == |rows|
    decreases |rows|
  {
    if rows != [] {
      var prefix := rows[..|rows| - 1];
      var last := rows[|rows| - 1];
      ForecastSize(prefix);
      var m := ForecastOf(prefix).value;
      assert ForecastOf(rows).value == m[last.day := RowForecast(last).value];
      if forall i, j :: 0 <= i < j < |rows| ==> rows[i].day != rows[j].day {
        ForecastKeys(prefix);
        assert last.day !in Days(prefix) by {
          assert forall i :: 0 <= i < |prefix| ==> prefix[i] == rows[i];
        }
        assert forall i, j :: 0 <= i < j < |prefix| ==> prefix[i].day != prefix[j].day by {
          assert forall i :: 0 <= i < |prefix| ==> prefix[i] == rows[i];
        }
      }
    }
  }

  /** The forecast of a page has at most seven days, each the day of one of
      its first seven rows. */
  lemma ForecastBounded(rows: seq<ForecastRow>)
    requires Forecast(rows).Success?
    ensures |Forecast(rows).value| <= FORECAST_ROWS
    ensures Forecast(rows).value.Keys == Days(UsedRows(rows))
  {
    ForecastSize(UsedRows(rows));
    ForecastKeys(UsedRows(rows));
  }

  /** The `for row in weather_table[:7]` loop. */
  method BuildForecast(rows: seq<ForecastRow>) returns (r: Result<map<string, DayForecast>>)
    ensures r == Forecast(rows)
  {
    var used := UsedRows(rows);
    var forecast: map<string, DayForecast> := map[];
    for n := 0 to |used|
      invariant ForecastOf(used[..n]) == Success(forecast)
    {
      assert used[..n + 1][..n] == used[..n];
      var row := used[n];
      var t := ParseTemperatures(row.temperatures);
      if t.Failure? {
        assert RowForecast(row).Failure?;
        ForecastStaysFailed(used, n + 1);
        return Failure(t.error);
      }
      forecast := forecast[row.day := DayForecast(t.value.fahrenheit, t.value.celsius, row.weather, row.precipitation)];
    }
    assert used[..|used|] == used;
    return Success(forecast);
  }

  /** A row that fails fails the whole forecast with a `ValueError`. */
  lemma ForecastStaysFailed(rows: seq<ForecastRow>, n: nat)
    requires n <= |rows| && ForecastOf(rows[..n]).Failure?
    ensures ForecastOf(rows) == Failure(ValueError)
  {
    ForecastFailure(rows[..n]);
    ForecastFailure(rows);
    var i :| 0 <= i < n && RowForecast(rows[..n][i]).Failure?;
    assert rows[..n][i] == rows[i];
  }

  // ---------------------------------------------------------------------
  // The whole page

  /** Python's `int(text)` on an optional node text. */
  function ParseOptional(text: Option<string>): (r: Result<Option<int>>)
    ensures text.None? ==> r == Success(None)
    ensures r.Failure? <==> text.Some? && ParseInt(text.value).Failure?
    ensures r.Failure? ==> r.error == ValueError
    ensures r.Success? && text.Some? ==> r.value == Some(ParseInt(text.value).value)
  {
    match text
    case None => Success(None)
    case Some(s) =>
      var v :- ParseInt(s);
      Success(Some(v))
  }

  /** `weather` after the fetch: the heading values as found (temperatures
      parsed as integers), and the forecast only when the heading module is
      there. */
  method GetWeather(page: WeatherPage) returns (r: Result<WeatherInfo>)
    ensures r.Success? <==>
      ParseOptional(page.celsius).Success? && ParseOptional(page.fahrenheit).Success? &&
      (page.heading.Some? ==> Forecast(page.rows).Success?)
    ensures r.Failure? ==> r.error == ValueError
    ensures r.Success? ==>
      && r.value.location == page.location
      && r.value.country == page.country
      && r.value.time == page.time
      && r.value.celsius == ParseOptional(page.celsius).value
      && r.value.fahrenheit == ParseOptional(page.fahrenheit).value
      && r.value.weatherIcon == (if page.heading.Some? then page.heading.value.icon else None)
      && r.value.weather == (if page.heading.Some? then page.heading.value.text else None)
      && r.value.forecast == (if page.heading.Some? then Forecast(page.rows).value else map[])
  {
    var celsius := ParseOptional(page.celsius);
    if celsius.Failure? {
      return Failure(celsius.error);
    }
    var fahrenheit := ParseOptional(page.fahrenheit);
    if fahrenheit.Failure? {
      return Failure(fahrenheit.error);
    }
    var info := WeatherInfo(page.location, page.country, page.time, celsius.value, fahrenheit.value,
                            None, None, map[]);
    if page.heading.Some? {
      info := info.(weatherIcon := page.heading.value.icon, weather := page.heading.value.text);
      var forecast := BuildForecast(page.rows);
      if forecast.Failure? {
        ForecastFailure(UsedRows(page.rows));
        return Failure(forecast.error);
      }
      info := info.(forecast := forecast.value);
    }
    return Success(info);
  }
}
