/**
 * The data preparation of the temperatures page (`pages/03_temperatures_dashboard.py`):
 * the Celsius column, the basic information (cities, date range, extreme temperatures)
 * and the per-city date-window series behind the line chart and the histogram.
 * Rendering is left to the caller.
 */
module TemperaturesDashboard {
  import opened Wrappers
  import opened Seqs
  import opened Stats

  /** A calendar day as its day number: an earlier day has a smaller number. */
  type Date = int

  /** One row of the table; the temperature is the day's average in Fahrenheit. */
  datatype Reading = Reading(city: string, date: Date, fahrenheit: real)

  // ----- The Celsius column -----

  /** Degrees Celsius back to Fahrenheit, the inverse of line 45's formula. */
  function ToFahrenheit(c: real): real {
    c * 9.0 / 5.0 + 32.0
  }

  /** Line 45, `(F - 32) * 5/9`, over exact reals: converting back gives `F` again. */
  function ToCelsius(f: real): (c: real)
    ensures ToFahrenheit(c) == f
  {
    (f - 32.0) * 5.0 / 9.0
  }

  /** Water freezes at 32 °F = 0 °C and boils at 212 °F = 100 °C; -40 is the same in both. */
  lemma ToCelsiusFixedPoints()
    ensures ToCelsius(32.0) == 0.0
    ensures ToCelsius(212.0) == 100.0
    ensures ToCelsius(-40.0) == -40.0
  {
  }

  /** The conversion is strictly increasing, so it keeps the order of temperatures (both ways). */
  lemma ToCelsiusOrder(f1: real, f2: real)
    ensures f1 < f2 <==> ToCelsius(f1) < ToCelsius(f2)
    ensures f1 == f2 <==> ToCelsius(f1) == ToCelsius(f2)
  {
    assert ToFahrenheit(ToCelsius(f1)) == f1 && ToFahrenheit(ToCelsius(f2)) == f2;
  }

  /** Every row's Celsius value, in row order. */
  function CelsiusColumn(rows: seq<Reading>): (cs: seq<real>)
    ensures |cs| == |rows|
    ensures forall i :: 0 <= i < |rows| ==> cs[i] == ToCelsius(rows[i].fahrenheit)
  {
    seq(|rows|, i requires 0 <= i < |rows| => ToCelsius(rows[i].fahrenheit))
  }

  /** The Celsius column orders the rows exactly as the Fahrenheit column does. */
  lemma CelsiusColumnOrder(rows: seq<Reading>, i: int, j: int)
    requires 0 <= i < |rows| && 0 <= j < |rows|
    ensures rows[i].fahrenheit < rows[j].fahrenheit <==> CelsiusColumn(rows)[i] < CelsiusColumn(rows)[j]
  {
    ToCelsiusOrder(rows[i].fahrenheit, rows[j].fahrenheit);
  }

  /**
   * The page's `temps_df`: its rows, and the `AvgTemperatureCelsius` column once line
   * 45 has added it (empty before).
   */
  class TempsTable {
    var rows: seq<Reading>
    var celsius: seq<real>

    /** Line 35: the table as loaded, its dates already days. */
    constructor (loaded: seq<Reading>)
      ensures rows == loaded && celsius == []
    {
      rows := loaded;
      celsius := [];
    }

    /** Line 45: adds the Celsius column; the rows stay as they were. */
    method AddCelsiusColumn()
      modifies this
      ensures rows == old(rows)
      ensures celsius == CelsiusColumn(rows)
    {
      celsius := CelsiusColumn(rows);
    }
  }

  // ----- Basic information -----

  function Cities(rows: seq<Reading>): (cs: seq<string>)
    ensures |cs| == |rows|
    ensures forall i :: 0 <= i < |rows| ==> cs[i] == rows[i].city
  {
    seq(|rows|, i requires 0 <= i < |rows| => rows[i].city)
  }

  /**
   * Line 51, `City.unique().tolist()`: no city twice, exactly the cities of the
   * table, in the order each first appears.
   */
  function UniqueCities(rows: seq<Reading>): (u: seq<string>)
    ensures NoDuplicates(u)
    ensures forall k :: 0 <= k < |u| ==> exists i :: 0 <= i < |rows| && rows[i].city == u[k]
    ensures forall i :: 0 <= i < |rows| ==> rows[i].city in u
    ensures |u| <= |rows|
  {
    var cs := Cities(rows);
    var u := Distinct(cs);
    assert forall k :: 0 <= k < |u| ==> exists i :: 0 <= i < |rows| && rows[i].city == u[k] by {
      forall k | 0 <= k < |u| ensures exists i :: 0 <= i < |rows| && rows[i].city == u[k] {
        var i :| 0 <= i < |cs| && cs[i] == u[k];
      }
    }
    u
  }

  /** A city listed earlier first appears earlier in the table. */
  lemma UniqueCitiesFirstSeen(rows: seq<Reading>)
    ensures forall a, b :: 0 <= a < b < |UniqueCities(rows)| ==>
      FirstIndex(Cities(rows), UniqueCities(rows)[a]) < FirstIndex(Cities(rows), UniqueCities(rows)[b])
  {
    DistinctFirstSeenOrder(Cities(rows));
  }

  /** Two different cities are listed as they come. */
  lemma UniqueCitiesPair<T>(a: T, b: T)
    requires a != b
    ensures Distinct([a, b]) == [a, b]
  {
    DistinctSnoc([], a);
    assert [] + [a] == [a];
    DistinctSnoc([a], b);
    assert [a] + [b] == [a, b];
  }

  /** A city seen again is not listed again. */
  lemma UniqueCitiesAgain<T>(a: T, b: T)
    requires a != b
    ensures Distinct([a, b, a]) == [a, b]
  {
    UniqueCitiesPair(a, b);
    DistinctSnoc([a, b], a);
    assert [a, b] + [a] == [a, b, a];
  }

  /** Three different cities seen as `a, b, a, c` are listed as `a, b, c`. */
  lemma UniqueCitiesRepeat<T>(a: T, b: T, c: T)
    requires a != b && a != c && b != c
    ensures Distinct([a, b, a, c]) == [a, b, c]
  {
    UniqueCitiesAgain(a, b);
    DistinctSnoc([a, b, a], c);
    assert [a, b, a] + [c] == [a, b, a, c];
    assert [a, b] + [c] == [a, b, c];
  }

  /** Worked example: Paris, Tokyo, Paris, Lagos lists Paris, Tokyo, Lagos. */
  lemma UniqueCitiesExample()
    ensures Distinct(["Paris", "Tokyo", "Paris", "Lagos"]) == ["Paris", "Tokyo", "Lagos"]
  {
    assert "Tokyo"[0] != "Paris"[0] && "Lagos"[0] != "Paris"[0] && "Lagos"[0] != "Tokyo"[0];
    UniqueCitiesRepeat("Paris", "Tokyo", "Lagos");
  }

  function Dates(rows: seq<Reading>): (ds: seq<Date>)
    ensures |ds| == |rows|
    ensures forall i :: 0 <= i < |rows| ==> ds[i] == rows[i].date
  {
    seq(|rows|, i requires 0 <= i < |rows| => rows[i].date)
  }

  /** Line 54, `Date.min()`: absent for an empty table, otherwise the earliest day, attained. */
  function MinDate(rows: seq<Reading>): (r: Option<Date>)
    ensures r.None? <==> rows == []
    ensures r.Some? ==> forall i :: 0 <= i < |rows| ==> r.value <= rows[i].date
    ensures r.Some? ==> exists i :: 0 <= i < |rows| && rows[i].date == r.value
  {
    if rows == [] then None
    else
      var ds := Dates(rows);
      var m := MinInt(ds);
      assert exists i :: 0 <= i < |ds| && ds[i] == m;
      Some(m)
  }

  /** Line 55, `Date.max()`: absent for an empty table, otherwise the latest day, attained. */
  function MaxDate(rows: seq<Reading>): (r: Option<Date>)
    ensures r.None? <==> rows == []
    ensures r.Some? ==> forall i :: 0 <= i < |rows| ==> rows[i].date <= r.value
    ensures r.Some? ==> exists i :: 0 <= i < |rows| && rows[i].date == r.value
  {
    if rows == [] then None
    else
      var ds := Dates(rows);
      var m := MaxInt(ds);
      assert exists i :: 0 <= i < |ds| && ds[i] == m;
      Some(m)
  }

  /** An extreme temperature, the row `.iloc[0]` picks for it, and that row's city and day. */
  datatype Extreme = Extreme(temperature: real, row: nat, city: string, date: Date)

  /**
   * Lines 58-63: the lowest Celsius value and the first row holding it. On an empty
   * table the mask selects nothing and `.iloc[0]` raises IndexError.
   */
  function Coldest(rows: seq<Reading>, celsius: seq<real>): (r: Result<Extreme, string>)
    requires |celsius| == |rows|
    ensures r.Failure? <==> rows == []
    ensures r.Success? ==> r.value.row < |rows| && celsius[r.value.row] == r.value.temperature
    ensures r.Success? ==> forall i :: 0 <= i < |rows| ==> r.value.temperature <= celsius[i]
    ensures r.Success? ==> forall i :: 0 <= i < r.value.row ==> celsius[i] != r.value.temperature
    ensures r.Success? ==>
      r.value.city == rows[r.value.row].city && r.value.date == rows[r.value.row].date
  {
    if rows == [] then Failure("IndexError")
    else
      var m := MinReal(celsius);
      var k := FirstIndex(celsius, m);
      Success(Extreme(m, k, rows[k].city, rows[k].date))
  }

  /** Lines 59 and 65-67: the highest Celsius value and the first row holding it. */
  function Hottest(rows: seq<Reading>, celsius: seq<real>): (r: Result<Extreme, string>)
    requires |celsius| == |rows|
    ensures r.Failure? <==> rows == []
    ensures r.Success? ==> r.value.row < |rows| && celsius[r.value.row] == r.value.temperature
    ensures r.Success? ==> forall i :: 0 <= i < |rows| ==> celsius[i] <= r.value.temperature
    ensures r.Success? ==> forall i :: 0 <= i < r.value.row ==> celsius[i] != r.value.temperature
    ensures r.Success? ==>
      r.value.city == rows[r.value.row].city && r.value.date == rows[r.value.row].date
  {
    if rows == [] then Failure("IndexError")
    else
      var m := MaxReal(celsius);
      var k := FirstIndex(celsius, m);
      Success(Extreme(m, k, rows[k].city, rows[k].date))
  }

  /** The extremes never cross, and they agree exactly when every row has the same temperature. */
  lemma ExtremesOrdered(rows: seq<Reading>, celsius: seq<real>)
    requires |celsius| == |rows| && rows != []
    ensures Coldest(rows, celsius).value.temperature <= Hottest(rows, celsius).value.temperature
    ensures Coldest(rows, celsius).value.temperature == Hottest(rows, celsius).value.temperature <==>
      forall i :: 0 <= i < |rows| ==> celsius[i] == celsius[0]
  {
    var lo, hi := Coldest(rows, celsius).value, Hottest(rows, celsius).value;
    assert lo.temperature <= celsius[hi.row];
    if forall i :: 0 <= i < |rows| ==> celsius[i] == celsius[0] {
      assert lo.temperature == celsius[lo.row] == celsius[0] == celsius[hi.row];
    }
  }

  /** Ties: when the coldest value occurs twice, the row reported is the earlier one. */
  lemma ColdestFirstOfTies(rows: seq<Reading>, celsius: seq<real>, i: int, j: int)
    requires |celsius| == |rows| && 0 <= i < j < |rows|
    requires celsius[i] == celsius[j] && forall k :: 0 <= k < |rows| ==> celsius[i] <= celsius[k]
    ensures Coldest(rows, celsius).value.row <= i
  {
    var x := Coldest(rows, celsius).value;
    assert x.temperature == celsius[i];
  }

  /** What the "Basic Information" row shows (lines 76-98). */
  datatype BasicInfo = BasicInfo(
    cities: seq<string>,
    minDate: Option<Date>,
    maxDate: Option<Date>,
    coldest: Extreme,
    hottest: Extreme)

  // ----- Comparing the selected cities -----

  /**
   * Lines 124-125 and 140-141: the row is the city's, and its day lies in the chosen
   * period, both ends included.
   */
  predicate InWindow(r: Reading, city: string, start: Date, end: Date) {
    r.city == city && start <= r.date && r.date <= end
  }

  /** The positions of the rows the two masks keep, in table order. */
  function Window(rows: seq<Reading>, city: string, start: Date, end: Date): (ix: seq<int>)
    ensures StrictlyIncreasing(ix)
    ensures forall k :: 0 <= k < |ix| ==> 0 <= ix[k] < |rows| && InWindow(rows[ix[k]], city, start, end)
    ensures forall i :: 0 <= i < |rows| && InWindow(rows[i], city, start, end) ==> i in ix
    ensures |ix| <= |rows|
  {
    if rows == [] then []
    else
      var last := |rows| - 1;
      var ix := Window(rows[..last], city, start, end);
      assert forall k :: 0 <= k < |ix| ==> ix[k] < last;
      if InWindow(rows[last], city, start, end) then ix + [last] else ix
  }

  /** One plotted point: a day and its Celsius value. */
  datatype Point = Point(date: Date, celsius: real)

  /**
   * `plot(city_df_period["Date"], city_df_period["AvgTemperatureCelsius"])`: the
   * points of the kept rows, in table order.
   */
  function CitySeries(rows: seq<Reading>, celsius: seq<real>, city: string, start: Date, end: Date)
    : (ps: seq<Point>)
    requires |celsius| == |rows|
    ensures var ix := Window(rows, city, start, end);
      |ps| == |ix| && forall k :: 0 <= k < |ix| ==> ps[k] == Point(rows[ix[k]].date, celsius[ix[k]])
  {
    var ix := Window(rows, city, start, end);
    seq(|ix|, k requires 0 <= k < |ix| => Point(rows[ix[k]].date, celsius[ix[k]]))
  }

  /** `hist(city_df_period["AvgTemperatureCelsius"])`: the Celsius values of the kept rows. */
  function CityTemperatures(rows: seq<Reading>, celsius: seq<real>, city: string, start: Date, end: Date)
    : (ts: seq<real>)
    requires |celsius| == |rows|
    ensures var ix := Window(rows, city, start, end);
      |ts| == |ix| && forall k :: 0 <= k < |ix| ==> ts[k] == celsius[ix[k]]
  {
    var ix := Window(rows, city, start, end);
    seq(|ix|, k requires 0 <= k < |ix| => celsius[ix[k]])
  }

  /**
   * The series of a city is exactly its rows of the period: every point is one of them,
   * with its own Celsius value, days never go back (rows are kept in table order), and
   * both boundary days are kept.
   */
  lemma CitySeriesExact(rows: seq<Reading>, celsius: seq<real>, city: string, start: Date, end: Date)
    requires |celsius| == |rows|
    ensures forall p :: p in CitySeries(rows, celsius, city, start, end) <==>
      exists i :: 0 <= i < |rows| && InWindow(rows[i], city, start, end) && p == Point(rows[i].date, celsius[i])
    ensures forall i ::
      0 <= i < |rows| && rows[i].city == city && start <= end && (rows[i].date == start || rows[i].date == end) ==>
        Point(rows[i].date, celsius[i]) in CitySeries(rows, celsius, city, start, end)
  {
    var ix := Window(rows, city, start, end);
    var ps := CitySeries(rows, celsius, city, start, end);
    forall p ensures p in ps <==>
      exists i :: 0 <= i < |rows| && InWindow(rows[i], city, start, end) && p == Point(rows[i].date, celsius[i])
    {
      if p in ps {
        var k :| 0 <= k < |ps| && ps[k] == p;
        assert InWindow(rows[ix[k]], city, start, end) && p == Point(rows[ix[k]].date, celsius[ix[k]]);
      }
      if exists i :: 0 <= i < |rows| && InWindow(rows[i], city, start, end) && p == Point(rows[i].date, celsius[i]) {
        var i :| 0 <= i < |rows| && InWindow(rows[i], city, start, end) && p == Point(rows[i].date, celsius[i]);
        var k :| 0 <= k < |ix| && ix[k] == i;
        assert ps[k] == p;
      }
    }
  }

  /** A period that ends before it starts keeps nothing. */
  lemma EmptyWhenReversed(rows: seq<Reading>, celsius: seq<real>, city: string, start: Date, end: Date)
    requires |celsius| == |rows| && start > end
    ensures CitySeries(rows, celsius, city, start, end) == []
    ensures CityTemperatures(rows, celsius, city, start, end) == []
  {
    WindowOfNothing(rows, city, start, end);
  }

  /** No row in the window: nothing is kept. */
  lemma {:induction false} WindowOfNothing(rows: seq<Reading>, city: string, start: Date, end: Date)
    requires forall i :: 0 <= i < |rows| ==> !InWindow(rows[i], city, start, end)
    ensures Window(rows, city, start, end) == []
  {
    if rows != [] {
      WindowOfNothing(rows[..|rows| - 1], city, start, end);
    }
  }

  /** Two different cities never share a row. */
  lemma WindowsDisjoint(rows: seq<Reading>, c1: string, c2: string, start: Date, end: Date)
    requires c1 != c2
    ensures forall i :: i in Window(rows, c1, start, end) ==> i !in Window(rows, c2, start, end)
  {
    var w1, w2 := Window(rows, c1, start, end), Window(rows, c2, start, end);
    forall i | i in w1 ensures i !in w2 {
      var k :| 0 <= k < |w1| && w1[k] == i;
      assert rows[i].city == c1;
    }
  }

  /** The histogram of a city draws exactly the values of its line, point by point. */
  lemma HistogramMatchesLine(rows: seq<Reading>, celsius: seq<real>, city: string, start: Date, end: Date)
    requires |celsius| == |rows|
    ensures Temperatures(CitySeries(rows, celsius, city, start, end)) == CityTemperatures(rows, celsius, city, start, end)
  {
  }

  /** The temperatures of a series of points, in order. */
  function Temperatures(ps: seq<Point>): (ts: seq<real>)
    ensures |ts| == |ps| && forall k :: 0 <= k < |ps| ==> ts[k] == ps[k].celsius
  {
    seq(|ps|, k requires 0 <= k < |ps| => ps[k].celsius)
  }

  /** One labelled line of the first figure. */
  datatype Line = Line(city: string, points: seq<Point>)

  /** One labelled histogram of the second figure. */
  datatype Histogram = Histogram(city: string, values: seq<real>)

  /** Lines 123-126: one line per selected city, each filtered from the whole table. */
  method LineFigure(t: TempsTable, selected: seq<string>, start: Date, end: Date) returns (lines: seq<Line>)
    requires |t.celsius| == |t.rows|
    ensures |lines| == |selected|
    ensures forall j :: 0 <= j < |selected| ==>
      lines[j] == Line(selected[j], CitySeries(t.rows, t.celsius, selected[j], start, end))
  {
    lines := [];
    for j := 0 to |selected|
      invariant |lines| == j
      invariant forall k :: 0 <= k < j ==>
        lines[k] == Line(selected[k], CitySeries(t.rows, t.celsius, selected[k], start, end))
    {
      var city := selected[j];
      var period := CitySeries(t.rows, t.celsius, city, start, end);
      lines := lines + [Line(city, period)];
    }
  }

  /** Lines 139-142: one histogram per selected city, each filtered from the whole table. */
  method HistogramFigure(t: TempsTable, selected: seq<string>, start: Date, end: Date)
    returns (hists: seq<Histogram>)
    requires |t.celsius| == |t.rows|
    ensures |hists| == |selected|
    ensures forall j :: 0 <= j < |selected| ==>
      hists[j] == Histogram(selected[j], CityTemperatures(t.rows, t.celsius, selected[j], start, end))
  {
    hists := [];
    for j := 0 to |selected|
      invariant |hists| == j
      invariant forall k :: 0 <= k < j ==>
        hists[k] == Histogram(selected[k], CityTemperatures(t.rows, t.celsius, selected[k], start, end))
    {
      var city := selected[j];
      var values := CityTemperatures(t.rows, t.celsius, city, start, end);
      hists := hists + [Histogram(city, values)];
    }
  }

  /** The comparison section: nothing for an empty selection, otherwise both figures. */
  datatype Comparison = NoComparison | Comparison(lines: seq<Line>, hists: seq<Histogram>)

  /**
   * Lines 117-149: with no city selected nothing is drawn; otherwise the two figures
   * have one entry per selected city, in selection order, and each histogram holds
   * the very values of the line of the same city.
   */
  method CompareCities(t: TempsTable, selected: seq<string>, start: Date, end: Date)
    returns (cmp: Comparison)
    requires |t.celsius| == |t.rows|
    ensures cmp.NoComparison? <==> selected == []
    ensures cmp.Comparison? ==> |cmp.lines| == |cmp.hists| == |selected|
    ensures cmp.Comparison? ==> forall j :: 0 <= j < |selected| ==>
      cmp.lines[j] == Line(selected[j], CitySeries(t.rows, t.celsius, selected[j], start, end))
      && cmp.hists[j].city == selected[j]
      && cmp.hists[j].values == Temperatures(cmp.lines[j].points)
  {
    if |selected| == 0 {
      cmp := NoComparison;
    } else {
      var lines := LineFigure(t, selected, start, end);
      var hists := HistogramFigure(t, selected, start, end);
      forall j | 0 <= j < |selected|
        ensures hists[j].values == Temperatures(lines[j].points)
      {
        HistogramMatchesLine(t.rows, t.celsius, selected[j], start, end);
      }
      cmp := Comparison(lines, hists);
    }
  }

  /**
   * The data side of the whole page: the Celsius column is added, the basic
   * information computed (an empty table makes `.iloc[0]` raise, ending the page),
   * and the chosen cities compared over the chosen period.
   */
  method TemperaturesPage(loaded: seq<Reading>, selected: seq<string>, start: Date, end: Date)
    returns (page: Result<(BasicInfo, Comparison), string>)
    ensures page.Failure? <==> loaded == []
    ensures page.Success? ==> var (info, cmp) := page.value;
      && info.cities == UniqueCities(loaded)
      && info.minDate == MinDate(loaded) && info.maxDate == MaxDate(loaded)
      && Success(info.coldest) == Coldest(loaded, CelsiusColumn(loaded))
      && Success(info.hottest) == Hottest(loaded, CelsiusColumn(loaded))
      && (cmp.NoComparison? <==> selected == [])
      && (cmp.Comparison? ==> |cmp.lines| == |cmp.hists| == |selected|)
      && (cmp.Comparison? ==> forall j :: 0 <= j < |selected| ==>
            && cmp.lines[j] == Line(selected[j], CitySeries(loaded, CelsiusColumn(loaded), selected[j], start, end))
            && cmp.hists[j] == Histogram(selected[j], CityTemperatures(loaded, CelsiusColumn(loaded), selected[j], start, end)))
  {
    var t := new TempsTable(loaded);
    t.AddCelsiusColumn();
    var cities := UniqueCities(t.rows);
    var minDate, maxDate := MinDate(t.rows), MaxDate(t.rows);
    var coldest := Coldest(t.rows, t.celsius);
    var hottest := Hottest(t.rows, t.celsius);
    if coldest.Failure? || hottest.Failure? {
      page := Failure("IndexError");
    } else {
      var cmp := CompareCities(t, selected, start, end);
      forall j | cmp.Comparison? && 0 <= j < |selected|
        ensures cmp.hists[j] == Histogram(selected[j], CityTemperatures(t.rows, t.celsius, selected[j], start, end))
      {
        HistogramMatchesLine(t.rows, t.celsius, selected[j], start, end);
      }
      page := Success((BasicInfo(cities, minDate, maxDate, coldest.value, hottest.value), cmp));
    }
  }
}
