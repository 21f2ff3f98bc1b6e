/**
 * The data preparation of the catalogue page (`pages/02_netflix_data_analysis.py`):
 * the basic statistics, the per-year top-10 producer countries, and the mean movie
 * duration per release year. Rendering is left to the caller.
 */
module NetflixAnalysis {
  import opened Wrappers
  import opened PyStrings
  import opened Seqs
  import opened Stats
  import opened Ranking

  datatype Kind = Movie | TVShow

  /** One row of the catalogue; `None` is a missing (NaN) cell. */
  datatype Title = Title(
    showId: string,
    kind: Kind,
    title: string,
    director: Option<string>,
    country: Option<string>,
    releaseYear: int,
    duration: Option<string>)

  // ----- Basic information -----

  function ReleaseYears(rows: seq<Title>): (ys: seq<int>)
    ensures |ys| == |rows|
    ensures forall i :: 0 <= i < |rows| ==> ys[i] == rows[i].releaseYear
  {
    seq(|rows|, i requires 0 <= i < |rows| => rows[i].releaseYear)
  }

  /** `release_year.min()`: absent for an empty table, otherwise the least year, attained by some title. */
  function MinReleaseYear(rows: seq<Title>): (r: Option<int>)
    ensures r.None? <==> rows == []
    ensures r.Some? ==> forall i :: 0 <= i < |rows| ==> r.value <= rows[i].releaseYear
    ensures r.Some? ==> exists i :: 0 <= i < |rows| && rows[i].releaseYear == r.value
  {
    if rows == [] then None
    else
      var ys := ReleaseYears(rows);
      var m := MinInt(ys);
      assert exists i :: 0 <= i < |ys| && ys[i] == m;
      Some(m)
  }

  /** `release_year.max()`: absent for an empty table, otherwise the greatest year, attained by some title. */
  function MaxReleaseYear(rows: seq<Title>): (r: Option<int>)
    ensures r.None? <==> rows == []
    ensures r.Some? ==> forall i :: 0 <= i < |rows| ==> rows[i].releaseYear <= r.value
    ensures r.Some? ==> exists i :: 0 <= i < |rows| && rows[i].releaseYear == r.value
  {
    if rows == [] then None
    else
      var ys := ReleaseYears(rows);
      var m := MaxInt(ys);
      assert exists i :: 0 <= i < |ys| && ys[i] == m;
      Some(m)
  }

  /** `director.isna().sum()`: how many titles have no director. */
  function MissingDirectors(rows: seq<Title>): (n: nat)
    ensures n <= |rows|
    ensures n == 0 <==> forall i :: 0 <= i < |rows| ==> rows[i].director.Some?
    ensures n == |rows| <==> forall i :: 0 <= i < |rows| ==> rows[i].director.None?
  {
    if rows == [] then 0
    else (if rows[0].director.None? then 1 else 0) + MissingDirectors(rows[1..])
  }

  /** Missing directors of two stacked tables add up. */
  lemma {:induction false} MissingDirectorsAppend(a: seq<Title>, b: seq<Title>)
    ensures MissingDirectors(a + b) == MissingDirectors(a) + MissingDirectors(b)
  {
    if a != [] {
      assert (a + b)[0] == a[0] && (a + b)[1..] == a[1..] + b;
      MissingDirectorsAppend(a[1..], b);
    } else {
      assert a + b == b;
    }
  }

  const UnknownCountry := "Unknown"

  /** Every title has a country cell. */
  predicate Filled(rows: seq<Title>) {
    forall i :: 0 <= i < |rows| ==> rows[i].country.Some?
  }

  /**
   * `country.fillna("Unknown")`: afterwards no country is missing; a present country is
   * kept, a missing one becomes "Unknown", and no other column changes.
   */
  function FillUnknown(rows: seq<Title>): (r: seq<Title>)
    ensures |r| == |rows| && Filled(r)
    ensures forall i :: 0 <= i < |rows| ==> r[i] == rows[i].(country := r[i].country)
    ensures forall i :: 0 <= i < |rows| && rows[i].country.Some? ==> r[i].country == rows[i].country
    ensures forall i :: 0 <= i < |rows| && rows[i].country.None? ==> r[i].country == Some(UnknownCountry)
  {
    seq(|rows|, i requires 0 <= i < |rows| => rows[i].(country := Some(rows[i].country.GetOr(UnknownCountry))))
  }

  /** Filling twice is filling once. */
  lemma FillUnknownIdempotent(rows: seq<Title>)
    ensures FillUnknown(FillUnknown(rows)) == FillUnknown(rows)
  {
    var once := FillUnknown(rows);
    var twice := FillUnknown(once);
    forall i | 0 <= i < |rows| ensures twice[i] == once[i] {
      assert twice[i] == once[i].(country := twice[i].country);
    }
  }

  /** `country.tolist()` of a filled table. */
  function CountryColumn(rows: seq<Title>): (cs: seq<string>)
    requires Filled(rows)
    ensures |cs| == |rows|
    ensures forall i :: 0 <= i < |rows| ==> Some(cs[i]) == rows[i].country
  {
    seq(|rows|, i requires 0 <= i < |rows| => rows[i].country.value)
  }

  /**
   * `", ".join(country.tolist()).split(", ")`: names that join back to the joined
   * column, none of which contains `", "`.
   */
  function AllCountries(rows: seq<Title>): (names: seq<string>)
    requires Filled(rows)
    ensures |names| >= 1
    ensures Join(names, ", ") == Join(CountryColumn(rows), ", ")
    ensures forall k :: 0 <= k < |names| ==> !Contains(names[k], ", ")
  {
    var joined := Join(CountryColumn(rows), ", ");
    JoinSplit(joined, ", ");
    SplitPiecesFree(joined, ", ");
    Split(joined, ", ")
  }

  /**
   * `len(set(all_countries))`. It is never 0: the join of an empty column is "" and
   * splitting "" yields one (empty) name.
   */
  function CountryCount(rows: seq<Title>): (n: nat)
    requires Filled(rows)
    ensures 1 <= n <= |AllCountries(rows)|
    ensures n == |Distinct(AllCountries(rows))|
  {
    var all := AllCountries(rows);
    DistinctCardinality(all);
    |set c | c in all|
  }

  /**
   * For a non-empty table, the countries counted are exactly the distinct pieces of
   * every title's own country cell split on ", "; for an empty table the count is 1.
   */
  lemma CountryCountPerTitle(rows: seq<Title>)
    requires Filled(rows)
    ensures rows != [] ==> AllCountries(rows) == SplitEach(CountryColumn(rows), ", ")
    ensures rows != [] ==> CountryCount(rows) == |set c | c in SplitEach(CountryColumn(rows), ", ")|
    ensures rows == [] ==> AllCountries(rows) == [""] && CountryCount(rows) == 1
  {
    if rows != [] {
      SplitJoinedList(CountryColumn(rows));
    } else {
      assert CountryColumn(rows) == [];
      assert (set c | c in [""]) == {""};
    }
  }

  /** The `title_length` column: the character count of every title. */
  function TitleLengths(rows: seq<Title>): (ls: seq<int>)
    ensures |ls| == |rows|
    ensures forall i :: 0 <= i < |rows| ==> ls[i] == |rows[i].title|
  {
    seq(|rows|, i requires 0 <= i < |rows| => |rows[i].title|)
  }

  /**
   * `title_length.mean()`: absent for an empty table; otherwise the total number of
   * characters over the number of titles.
   */
  function AverageTitleLength(rows: seq<Title>): (r: Option<real>)
    ensures r.None? <==> rows == []
    ensures r.Some? ==> r.value == Sum(TitleLengths(rows)) as real / |rows| as real
  {
    Mean(TitleLengths(rows))
  }

  /** The average title length lies between the lengths of the shortest and the longest title. */
  lemma AverageTitleLengthBetween(rows: seq<Title>)
    requires rows != []
    ensures exists i :: 0 <= i < |rows| && |rows[i].title| as real <= AverageTitleLength(rows).value
    ensures exists j :: 0 <= j < |rows| && AverageTitleLength(rows).value <= |rows[j].title| as real
  {
    var ls := TitleLengths(rows);
    var m := AverageTitleLength(rows).value;
    assert MinInt(ls) as real <= m <= MaxInt(ls) as real;
    var i :| 0 <= i < |ls| && ls[i] == MinInt(ls);
    var j :| 0 <= j < |ls| && ls[j] == MaxInt(ls);
    assert |rows[i].title| as real <= m;
    assert m <= |rows[j].title| as real;
  }

  /** The five metrics of the "Basic Information" row (lines 61-65), before formatting. */
  datatype BasicInfo = BasicInfo(
    minYear: Option<int>,
    maxYear: Option<int>,
    missingDirectors: nat,
    countries: nat,
    avgTitleLength: Option<real>)

  /**
   * The page's `movies_df`: its rows, and the `title_length` column once line 51 has
   * added it (empty before).
   */
  class Catalog {
    var rows: seq<Title>
    var titleLength: seq<int>

    /** Line 29: the table as loaded, without the derived column. */
    constructor (loaded: seq<Title>)
      ensures rows == loaded && titleLength == []
    {
      rows := loaded;
      titleLength := [];
    }

    /** Line 46: missing countries become "Unknown" in place. */
    method FillMissingCountries()
      modifies this
      ensures rows == FillUnknown(old(rows)) && titleLength == old(titleLength)
    {
      rows := FillUnknown(rows);
    }

    /** Line 51: adds the `title_length` column. */
    method AddTitleLengthColumn()
      modifies this
      ensures rows == old(rows) && titleLength == TitleLengths(rows)
    {
      titleLength := TitleLengths(rows);
    }

    /**
     * Lines 39-52 in page order: the year range and the missing directors of the loaded
     * table, then the fill, the country count, the new column and its mean.
     */
    method BasicInformation() returns (info: BasicInfo)
      modifies this
      ensures rows == FillUnknown(old(rows)) && titleLength == TitleLengths(rows)
      ensures info.minYear == MinReleaseYear(old(rows)) && info.maxYear == MaxReleaseYear(old(rows))
      ensures info.missingDirectors == MissingDirectors(old(rows))
      ensures info.countries == CountryCount(rows)
      ensures info.avgTitleLength == AverageTitleLength(rows)
    {
      var minYear := MinReleaseYear(rows);
      var maxYear := MaxReleaseYear(rows);
      var missing := MissingDirectors(rows);
      FillMissingCountries();
      var n := CountryCount(rows);
      AddTitleLengthColumn();
      info := BasicInfo(minYear, maxYear, missing, n, Mean(titleLength));
    }
  }

  /** The fill leaves the year range, the directors and the titles as they were. */
  lemma FillUnknownKeepsBasics(rows: seq<Title>)
    ensures ReleaseYears(FillUnknown(rows)) == ReleaseYears(rows)
    ensures MissingDirectors(FillUnknown(rows)) == MissingDirectors(rows)
    ensures TitleLengths(FillUnknown(rows)) == TitleLengths(rows)
  {
    var f := FillUnknown(rows);
    assert forall i :: 0 <= i < |rows| ==> f[i].director == rows[i].director;
    MissingDirectorsSame(f, rows);
  }

  lemma {:induction false} MissingDirectorsSame(a: seq<Title>, b: seq<Title>)
    requires |a| == |b| && forall i :: 0 <= i < |a| ==> a[i].director == b[i].director
    ensures MissingDirectors(a) == MissingDirectors(b)
  {
    if a != [] {
      assert forall i :: 0 <= i < |a| - 1 ==> a[1..][i] == a[i + 1] && b[1..][i] == b[i + 1];
      MissingDirectorsSame(a[1..], b[1..]);
    }
  }

  // ----- Top producer countries of one year -----

  /**
   * `movies_df.loc[release_year == year, 'country']`, in table order.
   * The length bound below is only a convenience for callers; the
   * specification of this selection is `YearCountriesInOrder`.
   */
  function YearCountries(rows: seq<Title>, year: int): (cs: seq<Option<string>>)
    ensures |cs| <= |rows|
  {
    if rows == [] then []
    else (if rows[0].releaseYear == year then [rows[0].country] else []) + YearCountries(rows[1..], year)
  }

  /** Which titles are of `year`. */
  function YearMask(rows: seq<Title>, year: int): (keep: seq<bool>)
    ensures |keep| == |rows| && forall i :: 0 <= i < |rows| ==> keep[i] == (rows[i].releaseYear == year)
  {
    seq(|rows|, i requires 0 <= i < |rows| => rows[i].releaseYear == year)
  }

  /** The `country` column. */
  function CountryCells(rows: seq<Title>): (cs: seq<Option<string>>)
    ensures |cs| == |rows| && forall i :: 0 <= i < |rows| ==> cs[i] == rows[i].country
  {
    seq(|rows|, i requires 0 <= i < |rows| => rows[i].country)
  }

  /**
   * The selection holds the country cell of every title of `year` exactly once, in
   * table order, and nothing else.
   */
  lemma {:induction false} YearCountriesInOrder(rows: seq<Title>, year: int)
    ensures exists ix :: PicksValues(YearMask(rows, year), CountryCells(rows), ix, YearCountries(rows, year))
  {
    if rows == [] {
      assert YearCountries(rows, year) == [];
      assert PicksValues(YearMask(rows, year), CountryCells(rows), [], []);
    } else {
      YearCountriesInOrder(rows[1..], year);
      var ix' :| PicksValues(YearMask(rows[1..], year), CountryCells(rows[1..]), ix', YearCountries(rows[1..], year));
      assert YearMask(rows[1..], year) == YearMask(rows, year)[1..];
      assert CountryCells(rows[1..]) == CountryCells(rows)[1..];
      PicksCons(YearMask(rows, year), CountryCells(rows), ix', YearCountries(rows[1..], year));
      YearCountriesCons(rows, year);
    }
  }

  lemma YearCountriesCons(rows: seq<Title>, year: int)
    requires rows != []
    ensures YearCountries(rows, year)
      == (if YearMask(rows, year)[0] then [CountryCells(rows)[0]] else []) + YearCountries(rows[1..], year)
  {
  }

  /**
   * The countries one cell credits: its pieces split on "," and stripped, one per
   * piece; nothing for a missing cell. A present cell credits one more name than it
   * has commas, none of them holding a comma or whitespace at either end.
   */
  function CellCountries(cell: Option<string>): (ts: seq<string>)
    ensures cell.None? <==> ts == []
    ensures cell.Some? ==> |ts| == multiset(cell.value)[','] + 1
    ensures forall k :: 0 <= k < |ts| ==> ',' !in ts[k] && Trimmed(ts[k])
  {
    match cell
    case None => []
    case Some(s) =>
      SplitCountChar(s, ',');
      SplitPiecesFreeChar(s, ',');
      StripEachClean(Split(s, ","), ',');
      StripEach(Split(s, ","))
  }

  /**
   * The names of a present cell are its comma-free pieces, in order, each stripped of
   * its surrounding whitespace only; the pieces joined with "," give the cell back.
   */
  lemma CellCountriesPieces(cell: Option<string>)
    ensures cell.Some? ==> exists pieces :: Join(pieces, ",") == cell.value && StrippedPieces(pieces, CellCountries(cell))
  {
    if cell.Some? {
      var pieces := Split(cell.value, ",");
      var ts := CellCountries(cell);
      assert ts == StripEach(pieces);
      JoinSplit(cell.value, ",");
      SplitPiecesFreeChar(cell.value, ',');
      forall k | 0 <= k < |pieces|
        ensures exists lo :: Padded(pieces[k], ts[k], lo)
      {
        StripSpec(pieces[k]);
      }
      assert StrippedPieces(pieces, ts);
    }
  }

  /** Each `ts[k]` is the comma-free `pieces[k]` without its surrounding whitespace. */
  ghost predicate StrippedPieces(pieces: seq<string>, ts: seq<string>) {
    |pieces| == |ts|
    && forall k :: 0 <= k < |pieces| ==> ',' !in pieces[k] && exists lo :: Padded(pieces[k], ts[k], lo)
  }

  /** The countries credited by a sequence of cells, cell after cell. */
  function Credited(cells: seq<Option<string>>): (ts: seq<string>)
    ensures forall k :: 0 <= k < |ts| ==> ',' !in ts[k] && Trimmed(ts[k])
  {
    if cells == [] then [] else CellCountries(cells[0]) + Credited(cells[1..])
  }

  lemma {:induction false} CreditedAppend(a: seq<Option<string>>, b: seq<Option<string>>)
    ensures Credited(a + b) == Credited(a) + Credited(b)
  {
    if a != [] {
      assert (a + b)[0] == a[0] && (a + b)[1..] == a[1..] + b;
      CreditedAppend(a[1..], b);
    } else {
      assert a + b == b;
    }
  }

  lemma CreditedStep(cells: seq<Option<string>>, i: nat)
    requires i < |cells|
    ensures Credited(cells[..i + 1]) == Credited(cells[..i]) + CellCountries(cells[i])
  {
    assert cells[..i + 1] == cells[..i] + [cells[i]];
    CreditedAppend(cells[..i], [cells[i]]);
    CreditedSingle(cells[i]);
  }

  lemma CreditedSingle(cell: Option<string>)
    ensures Credited([cell]) == CellCountries(cell)
  {
    assert [cell][1..] == [];
    assert CellCountries(cell) + [] == CellCountries(cell);
  }

  /**
   * The `country_list` built for `year`: country names without commas or surrounding
   * whitespace.
   */
  function YearTokens(rows: seq<Title>, year: int): (ts: seq<string>)
    ensures forall k :: 0 <= k < |ts| ==> ',' !in ts[k] && Trimmed(ts[k])
  {
    Credited(YearCountries(rows, year))
  }

  /** Only titles of the chosen year contribute, each exactly the countries of its own cell. */
  lemma {:induction false} YearTokensPerTitle(rows: seq<Title>, year: int)
    ensures rows != [] ==>
      YearTokens(rows, year) ==
        (if rows[0].releaseYear == year then CellCountries(rows[0].country) else [])
        + YearTokens(rows[1..], year)
  {
    if rows != [] {
      var head := if rows[0].releaseYear == year then [rows[0].country] else [];
      CreditedAppend(head, YearCountries(rows[1..], year));
      assert Credited(head) == if rows[0].releaseYear == year then CellCountries(rows[0].country) else [] by {
        if rows[0].releaseYear == year {
          assert head[1..] == [];
        }
      }
    }
  }

  lemma {:induction false} YearCountriesAppend(a: seq<Title>, b: seq<Title>, year: int)
    ensures YearCountries(a + b, year) == YearCountries(a, year) + YearCountries(b, year)
  {
    if a != [] {
      assert (a + b)[0] == a[0] && (a + b)[1..] == a[1..] + b;
      YearCountriesAppend(a[1..], b, year);
    } else {
      assert a + b == b;
    }
  }

  /** Stacking two tables stacks their country lists. */
  lemma YearTokensAppend(a: seq<Title>, b: seq<Title>, year: int)
    ensures YearTokens(a + b, year) == YearTokens(a, year) + YearTokens(b, year)
  {
    YearCountriesAppend(a, b, year);
    CreditedAppend(YearCountries(a, year), YearCountries(b, year));
  }

  /** A single title contributes its own cell's countries when it is of the chosen year. */
  lemma YearTokensSingle(r: Title, year: int)
    ensures YearTokens([r], year) == if r.releaseYear == year then CellCountries(r.country) else []
  {
    YearTokensPerTitle([r], year);
    assert [r][1..] == [];
  }

  /** The country list is empty exactly when no title of that year has a country cell. */
  lemma {:induction false} YearTokensEmpty(rows: seq<Title>, year: int)
    ensures YearTokens(rows, year) == [] <==>
      forall i :: 0 <= i < |rows| && rows[i].releaseYear == year ==> rows[i].country.None?
  {
    if rows != [] {
      YearTokensPerTitle(rows, year);
      YearTokensEmpty(rows[1..], year);
      assert forall i :: 1 <= i < |rows| ==> rows[i] == rows[1..][i - 1];
    }
  }

  /** Lines 80-85: the loop that extends `country_list` cell by cell. */
  method CountryList(rows: seq<Title>, year: int) returns (countryList: seq<string>)
    ensures countryList == YearTokens(rows, year)
  {
    var yearData := YearCountries(rows, year);
    countryList := [];
    for i := 0 to |yearData|
      invariant countryList == Credited(yearData[..i])
    {
      var countries := yearData[i];
      if countries.Some? {
        var splitCountries := StripEach(Split(countries.value, ","));
        countryList := countryList + splitCountries;
      }
      CreditedStep(yearData, i);
    }
    assert yearData[..|yearData|] == yearData;
  }

  /**
   * `value_counts().head(10).sort_values(ascending=False)` of a country list: at most
   * ten countries, none twice, in non-increasing order of their true tallies; a
   * country left out was never counted more often than the last one kept; sorting
   * again changes nothing; empty exactly when the list is.
   */
  function TopTen(countryList: seq<string>): (r: seq<Entry>)
    ensures |r| == if |Distinct(countryList)| < 10 then |Distinct(countryList)| else 10
    ensures NonIncreasing(r) && DistinctNames(r)
    ensures forall k :: 0 <= k < |r| ==> r[k].count == multiset(countryList)[r[k].name] > 0
    ensures forall v :: v in countryList && !HasName(r, v) ==> multiset(countryList)[v] <= r[|r| - 1].count
    ensures SortDescending(r) == r
    ensures r == [] <==> countryList == []
  {
    var counts := ValueCounts(countryList);
    var head := Head(counts, 10);
    TopTenFacts(countryList, counts, head);
    SortDescendingOfSorted(head);
    SortDescending(head)
  }

  lemma TopTenFacts(xs: seq<string>, counts: seq<Entry>, head: seq<Entry>)
    requires counts == ValueCounts(xs) && head == Head(counts, 10)
    ensures NonIncreasing(head) && DistinctNames(head)
    ensures forall v :: v in xs && !HasName(head, v) ==> multiset(xs)[v] <= head[|head| - 1].count
    ensures head == [] <==> xs == []
  {
    HeadKeepsOrder(counts, 10);
    forall v | v in xs && !HasName(head, v) ensures multiset(xs)[v] <= head[|head| - 1].count {
      assert HasName(counts, v);
      var k :| 0 <= k < |counts| && counts[k].name == v;
      HeadOmitted(counts, 10, k);
      assert counts[k].count == multiset(xs)[v];
    }
    if xs != [] {
      assert HasName(counts, xs[0]);
    }
  }

  /** The final `sort_values` leaves the `value_counts` order, ties included, as it was. */
  lemma TopTenKeepsOrder(countryList: seq<string>)
    ensures TopTen(countryList) == Head(ValueCounts(countryList), 10)
  {
    var counts := ValueCounts(countryList);
    HeadKeepsOrder(counts, 10);
    SortDescendingOfSorted(Head(counts, 10));
  }

  /** What the pie-chart section shows: the top countries, or the no-data message. */
  datatype PieChart = NoDataForYear | Pie(slices: seq<Entry>)

  /** Lines 77-109 for the chosen year. */
  method TopCountriesSection(rows: seq<Title>, year: int) returns (chart: PieChart)
    ensures chart.NoDataForYear? <==>
      forall i :: 0 <= i < |rows| && rows[i].releaseYear == year ==> rows[i].country.None?
    ensures chart.Pie? ==> chart.slices == TopTen(YearTokens(rows, year))
  {
    var countryList := CountryList(rows, year);
    var top := TopTen(countryList);
    YearTokensEmpty(rows, year);
    if |top| > 0 {
      chart := Pie(top);
    } else {
      chart := NoDataForYear;
    }
  }

  lemma SplitExample()
    ensures Split("A, B", ",") == ["A", " B"]
    ensures Split("A", ",") == ["A"]
  {
    assert "," == [','];
    SplitOnChar("", ',');
    SplitOnChar("B", ',');
    assert "B"[1..] == "";
    assert [""][1..] == [] && ['B'] + "" == "B";
    assert PrependToFirst('B', [""]) == ["B"];
    SplitOnChar(" B", ',');
    assert " B"[1..] == "B";
    assert [' '] + "B" == " B";
    assert PrependToFirst(' ', ["B"]) == [" B"];
    SplitOnChar(", B", ',');
    assert ", B"[1..] == " B";
    SplitOnChar("A, B", ',');
    assert "A, B"[1..] == ", B";
    assert ['A'] + "" == "A" && ["", " B"][1..] == [" B"];
    assert PrependToFirst('A', ["", " B"]) == ["A", " B"];
    SplitOnChar("A", ',');
    assert "A"[1..] == "";
    assert PrependToFirst('A', [""]) == ["A"];
  }

  lemma StripExample()
    ensures StripEach(["A", " B"]) == ["A", "B"]
    ensures StripEach(["A"]) == ["A"]
  {
    StripLeftExample();
    StripRightExample();
    assert Strip(" B") == "B";
    assert Strip("A") == "A";
    StripEachPair("A", " B");
  }

  /** The cells of the worked example: "A, B" credits A and B, "A" credits A. */
  lemma CellCountriesExample()
    ensures CellCountries(Some("A, B")) == ["A", "B"]
    ensures CellCountries(Some("A")) == ["A"]
  {
    SplitExample();
    StripExample();
  }

  /** Tallying `a, b` for two different names: each once, in that order. */
  lemma TallyAB(a: string, b: string)
    requires a != b
    ensures Tally([a, b]) == [Entry(a, 1), Entry(b, 1)]
  {
    var t1 := [Entry(a, 1)];
    TallySnoc([], a);
    assert [] + [a] == [a];
    assert Tally([a]) == t1;
    TallySnoc([a], b);
    assert [a] + [b] == [a, b];
    assert t1[1..] == [];
    ListOfTwo(Bump(t1, b), Entry(a, 1), Entry(b, 1));
  }

  /** Tallying `a, b, a` for two different names: `a` twice, then `b` once. */
  lemma TallyABA(a: string, b: string)
    requires a != b
    ensures Tally([a, b, a]) == [Entry(a, 2), Entry(b, 1)]
  {
    var t2 := [Entry(a, 1), Entry(b, 1)];
    TallyAB(a, b);
    TallySnoc([a, b], a);
    assert [a, b] + [a] == [a, b, a];
    assert t2[1..] == [Entry(b, 1)];
    ListOfTwo(Bump(t2, a), Entry(a, 2), Entry(b, 1));
  }

  /** The top ten of `a, b, a`: `a` first with 2, then `b` with 1. */
  lemma TopTenABA(a: string, b: string)
    requires a != b
    ensures TopTen([a, b, a]) == [Entry(a, 2), Entry(b, 1)]
  {
    var t := [Entry(a, 2), Entry(b, 1)];
    ValueCountsABA(a, b);
    TopTenKeepsOrder([a, b, a]);
    assert Head(t, 10) == t;
  }

  /** `value_counts` of `a, b, a`: the tally is already in descending order. */
  lemma ValueCountsABA(a: string, b: string)
    requires a != b
    ensures ValueCounts([a, b, a]) == [Entry(a, 2), Entry(b, 1)]
  {
    var t := [Entry(a, 2), Entry(b, 1)];
    assert NonIncreasing(t);
    TallyABA(a, b);
    ValueCountsOfSortedTally([a, b, a], t);
  }

  /** The count of the worked example: A comes first with 2, then B with 1. */
  lemma TopTenExampleCounts()
    ensures TopTen(["A", "B", "A"]) == [Entry("A", 2), Entry("B", 1)]
  {
    assert "A"[0] != "B"[0];
    TopTenABA("A", "B");
  }

  /** The titles of the worked example: 2020 "A, B", 2020 "A", 2019 "C". */
  function ExampleRows(): seq<Title> {
    [Title("s1", Movie, "One", None, Some("A, B"), 2020, None)]
    + [Title("s2", Movie, "Two", None, Some("A"), 2020, None)]
    + [Title("s3", Movie, "Three", None, Some("C"), 2019, None)]
  }

  lemma ExampleTokensEach()
    ensures YearTokens([Title("s1", Movie, "One", None, Some("A, B"), 2020, None)], 2020) == ["A", "B"]
    ensures YearTokens([Title("s2", Movie, "Two", None, Some("A"), 2020, None)], 2020) == ["A"]
    ensures YearTokens([Title("s3", Movie, "Three", None, Some("C"), 2019, None)], 2020) == []
  {
    CellCountriesExample();
    YearTokensSingle(Title("s1", Movie, "One", None, Some("A, B"), 2020, None), 2020);
    YearTokensSingle(Title("s2", Movie, "Two", None, Some("A"), 2020, None), 2020);
    YearTokensSingle(Title("s3", Movie, "Three", None, Some("C"), 2019, None), 2020);
  }

  lemma YearTokensExample()
    ensures YearTokens(ExampleRows(), 2020) == ["A", "B", "A"]
  {
    var r0 := Title("s1", Movie, "One", None, Some("A, B"), 2020, None);
    var r1 := Title("s2", Movie, "Two", None, Some("A"), 2020, None);
    var r2 := Title("s3", Movie, "Three", None, Some("C"), 2019, None);
    assert ExampleRows() == [r0] + [r1] + [r2];
    YearTokensAppend([r0] + [r1], [r2], 2020);
    YearTokensAppend([r0], [r1], 2020);
    ExampleTokensEach();
  }

  lemma TallyExample()
    ensures TopTen(YearTokens(ExampleRows(), 2020)) == [Entry("A", 2), Entry("B", 1)]
  {
    YearTokensExample();
    TopTenExampleCounts();
  }

  // ----- Mean movie duration per release year -----

  /** The outcome of line 123 for one duration cell. */
  datatype Minutes =
    | NoMinutes           // missing, or no "min" in it: None
    | Minutes(n: nat)     // the leading integer
    | NotAnInteger        // `int()` raises ValueError
  {
    function GetOrZero(): nat {
      if Minutes? then n else 0
    }
  }

  /**
   * `int(x.split()[0]) if pd.notna(x) and 'min' in x else None`, with `int()` taking
   * decimal digit strings only.
   */
  function ParseDuration(d: Option<string>): (m: Minutes)
    ensures m.NoMinutes? <==> d.None? || !Contains(d.value, "min")
    ensures m.Minutes? ==> IsDigits(FirstWord(d.value)) && m.n == DigitsValue(FirstWord(d.value))
    ensures m.NotAnInteger? ==> Contains(d.value, "min") && !IsDigits(FirstWord(d.value))
  {
    match d
    case None => NoMinutes
    case Some(s) =>
      if !Contains(s, "min") then NoMinutes
      else
        var w := FirstWord(s);
        if IsDigits(w) then Minutes(DigitsValue(w)) else NotAnInteger
  }

  lemma {:induction false} TakeWordDigits(w: string, rest: string)
    requires IsDigits(w) && rest != [] && IsSpace(rest[0])
    ensures TakeWord(w + rest) == w
    decreases |w|
  {
    var s := w + rest;
    assert s[0] == w[0] && !IsSpace(w[0]);
    if |w| == 1 {
      assert s[1..] == rest;
    } else {
      assert s[1..] == w[1..] + rest;
      TakeWordDigits(w[1..], rest);
    }
  }

  lemma {:induction false} ContainsAfter(a: string, b: string, sub: string)
    requires Contains(b, sub)
    ensures Contains(a + b, sub)
  {
    var i :| OccursAt(b, sub, i);
    assert (a + b)[|a| + i..|a| + i + |sub|] == b[i..i + |sub|];
    assert OccursAt(a + b, sub, |a| + i);
  }

  /** A cell "<n> min" (more generally: n, whitespace, text with "min") parses to n. */
  lemma ParseDurationOfMinutes(n: nat, rest: string)
    requires rest != [] && IsSpace(rest[0]) && Contains(rest, "min")
    ensures ParseDuration(Some(ShowNat(n) + rest)) == Minutes(n)
  {
    var s := ShowNat(n) + rest;
    ContainsAfter(ShowNat(n), rest, "min");
    assert !IsSpace(s[0]);
    assert StripLeft(s) == s;
    TakeWordDigits(ShowNat(n), rest);
    DigitsValueShowNat(n);
  }

  /** The text " min" holds "min". */
  lemma ContainsMin()
    ensures Contains(" min", "min")
  {
    assert " min"[1..4] == "min";
    assert OccursAt(" min", "min", 1);
  }

  /** "90 min" gives 90. */
  lemma ParseNinetyMinutes()
    ensures ParseDuration(Some("90 min")) == Minutes(90)
  {
    assert ShowNat(9) == "9";
    assert ShowNat(90) == "90";
    assert "90 min" == ShowNat(90) + " min";
    ContainsMin();
    ParseDurationOfMinutes(90, " min");
  }

  /** "110 min" gives 110. */
  lemma ParseHundredTenMinutes()
    ensures ParseDuration(Some("110 min")) == Minutes(110)
  {
    assert ShowNat(1) == "1";
    assert ShowNat(11) == "11";
    assert ShowNat(110) == "110";
    assert "110 min" == ShowNat(110) + " min";
    ContainsMin();
    ParseDurationOfMinutes(110, " min");
  }

  /** A missing cell, an empty one, "3 Seasons" and "bad" have no minutes. */
  lemma ParseNoMinutes()
    ensures ParseDuration(None) == NoMinutes
    ensures ParseDuration(Some("")) == NoMinutes
    ensures ParseDuration(Some("3 Seasons")) == NoMinutes
    ensures ParseDuration(Some("bad")) == NoMinutes
  {
    assert !Contains("3 Seasons", "min") by {
      var s := "3 Seasons";
      forall i | 0 <= i <= |s| - 3 ensures !OccursAt(s, "min", i) {
        assert s[i..i + 3][0] == s[i] && s[i..i + 3][1] == s[i + 1];
      }
    }
    assert !Contains("bad", "min") by {
      assert "bad"[0..3][0] == 'b';
    }
  }

  /** "long min" mentions minutes but its first word is not an integer: `int()` fails. */
  lemma ParseNotAnInteger()
    ensures ParseDuration(Some("long min")) == NotAnInteger
  {
    var s := "long min";
    assert s[5..8] == "min";
    assert OccursAt(s, "min", 5);
    assert !IsSpace('l');
    assert StripLeft(s) == s;
    assert !IsDigit('l');
  }

  /** The mean duration of the movies of one release year; `None` where pandas has NaN. */
  datatype YearMean = YearMean(year: int, mean: Option<real>)

  /** `movies_df[type == 'Movie']`, in table order. */
  function Movies(rows: seq<Title>): (ms: seq<Title>)
    ensures forall i :: 0 <= i < |ms| ==> ms[i].kind == Movie && ms[i] in rows
    ensures forall i :: 0 <= i < |rows| && rows[i].kind == Movie ==> rows[i] in ms
  {
    if rows == [] then []
    else (if rows[0].kind == Movie then [rows[0]] else []) + Movies(rows[1..])
  }

  /** The parsed minutes of the titles of `year` that have them, in table order. */
  function MinutesOfYear(ms: seq<Title>, year: int): (r: seq<nat>)
    ensures |r| <= |ms|
  {
    if ms == [] then []
    else
      var m := ParseDuration(ms[0].duration);
      (if ms[0].releaseYear == year && m.Minutes? then [m.n] else []) + MinutesOfYear(ms[1..], year)
  }

  /** A year has no minutes to average exactly when none of its titles' durations parses. */
  lemma {:induction false} MinutesOfYearEmpty(ms: seq<Title>, year: int)
    ensures MinutesOfYear(ms, year) == [] <==>
      forall i :: 0 <= i < |ms| && ms[i].releaseYear == year ==> !ParseDuration(ms[i].duration).Minutes?
  {
    if ms != [] {
      MinutesOfYearEmpty(ms[1..], year);
      assert forall i :: 1 <= i < |ms| ==> ms[i] == ms[1..][i - 1];
    }
  }

  /** Which titles are movies. */
  function MovieMask(rows: seq<Title>): (keep: seq<bool>)
    ensures |keep| == |rows| && forall i :: 0 <= i < |rows| ==> keep[i] == (rows[i].kind == Movie)
  {
    seq(|rows|, i requires 0 <= i < |rows| => rows[i].kind == Movie)
  }

  /** The filter keeps every movie exactly once, in table order, and nothing else. */
  lemma {:induction false} MoviesInOrder(rows: seq<Title>)
    ensures exists ix :: PicksValues(MovieMask(rows), rows, ix, Movies(rows))
  {
    if rows == [] {
      assert Movies(rows) == [];
      assert PicksValues(MovieMask(rows), rows, [], []);
    } else {
      MoviesInOrder(rows[1..]);
      var ix' :| PicksValues(MovieMask(rows[1..]), rows[1..], ix', Movies(rows[1..]));
      assert MovieMask(rows[1..]) == MovieMask(rows)[1..];
      PicksCons(MovieMask(rows), rows, ix', Movies(rows[1..]));
      MoviesCons(rows);
    }
  }

  lemma MoviesCons(rows: seq<Title>)
    requires rows != []
    ensures Movies(rows) == (if MovieMask(rows)[0] then [rows[0]] else []) + Movies(rows[1..])
  {
  }

  /** The title is of `year` and its duration parses. */
  predicate Timed(t: Title, year: int) {
    t.releaseYear == year && ParseDuration(t.duration).Minutes?
  }

  /** Which titles are timed titles of `year`. */
  function TimedMask(ms: seq<Title>, year: int): (keep: seq<bool>)
    ensures |keep| == |ms| && forall i :: 0 <= i < |ms| ==> keep[i] == Timed(ms[i], year)
  {
    seq(|ms|, i requires 0 <= i < |ms| => Timed(ms[i], year))
  }

  /** The parsed minutes of every title, 0 where the duration does not parse. */
  function MinutesCells(ms: seq<Title>): (ns: seq<nat>)
    ensures |ns| == |ms|
    ensures forall i :: 0 <= i < |ms| && ParseDuration(ms[i].duration).Minutes? ==>
      ParseDuration(ms[i].duration) == Minutes(ns[i])
  {
    seq(|ms|, i requires 0 <= i < |ms| => ParseDuration(ms[i].duration).GetOrZero())
  }

  /**
   * The minutes averaged for `year` are those of its titles whose duration parses,
   * each exactly once and in table order.
   */
  lemma {:induction false} MinutesOfYearInOrder(ms: seq<Title>, year: int)
    ensures exists ix :: PicksValues(TimedMask(ms, year), MinutesCells(ms), ix, MinutesOfYear(ms, year))
  {
    if ms == [] {
      assert MinutesOfYear(ms, year) == [];
      assert PicksValues(TimedMask(ms, year), MinutesCells(ms), [], []);
    } else {
      MinutesOfYearInOrder(ms[1..], year);
      var r' := MinutesOfYear(ms[1..], year);
      var ix' :| PicksValues(TimedMask(ms[1..], year), MinutesCells(ms[1..]), ix', r');
      assert TimedMask(ms[1..], year) == TimedMask(ms, year)[1..];
      assert MinutesCells(ms[1..]) == MinutesCells(ms)[1..];
      PicksCons(TimedMask(ms, year), MinutesCells(ms), ix', r');
      MinutesOfYearCons(ms, year);
    }
  }

  lemma MinutesOfYearCons(ms: seq<Title>, year: int)
    requires ms != []
    ensures MinutesOfYear(ms, year)
      == (if TimedMask(ms, year)[0] then [MinutesCells(ms)[0]] else []) + MinutesOfYear(ms[1..], year)
  {
  }

  predicate AscendingYears(r: seq<YearMean>) {
    forall i, j :: 0 <= i < j < |r| ==> r[i].year < r[j].year
  }

  /** Some movie of the table was released in `year`. */
  predicate MovieOfYear(rows: seq<Title>, year: int) {
    exists i :: 0 <= i < |rows| && rows[i].kind == Movie && rows[i].releaseYear == year
  }

  /** Some point of the chart is for `year`. */
  predicate HasYear(r: seq<YearMean>, year: int) {
    exists k :: 0 <= k < |r| && r[k].year == year
  }

  /** Some movie's duration mentions minutes but does not start with an integer. */
  predicate BadMovieDuration(rows: seq<Title>) {
    exists i :: 0 <= i < |rows| && rows[i].kind == Movie && ParseDuration(rows[i].duration).NotAnInteger?
  }

  /** The release years of the movies, in table order. */
  function MovieYears(rows: seq<Title>): (ys: seq<int>)
    ensures forall y :: y in ys <==> MovieOfYear(rows, y)
  {
    if rows == [] then []
    else
      var rest := MovieYears(rows[1..]);
      assert forall y :: MovieOfYear(rows, y) <==>
        (rows[0].kind == Movie && rows[0].releaseYear == y) || MovieOfYear(rows[1..], y) by {
        forall y ensures MovieOfYear(rows, y) ==>
          (rows[0].kind == Movie && rows[0].releaseYear == y) || MovieOfYear(rows[1..], y) {
          if MovieOfYear(rows, y) {
            var i :| 0 <= i < |rows| && rows[i].kind == Movie && rows[i].releaseYear == y;
            if i > 0 { assert rows[1..][i - 1] == rows[i]; }
          }
        }
        forall y ensures MovieOfYear(rows[1..], y) ==> MovieOfYear(rows, y) {
          if MovieOfYear(rows[1..], y) {
            var i :| 0 <= i < |rows[1..]| && rows[1..][i].kind == Movie && rows[1..][i].releaseYear == y;
            assert rows[i + 1] == rows[1..][i];
          }
        }
      }
      (if rows[0].kind == Movie then [rows[0].releaseYear] else []) + rest
  }

  /** `groupby(...).mean()` over the given group keys, in their order. */
  function YearMeans(years: seq<int>, ms: seq<Title>): (r: seq<YearMean>)
    ensures |r| == |years|
    ensures forall k :: 0 <= k < |years| ==> r[k] == YearMean(years[k], Mean(MinutesOfYear(ms, years[k])))
  {
    if years == [] then []
    else [YearMean(years[0], Mean(MinutesOfYear(ms, years[0])))] + YearMeans(years[1..], ms)
  }

  /**
   * Lines 119-127: movies only, durations parsed (where `int()` would raise, the whole
   * computation fails), grouped by release year in ascending order, and each year's
   * parsed minutes averaged; a year none of whose movies parse keeps an absent mean.
   */
  function MeanDurationPerYear(rows: seq<Title>): (r: Result<seq<YearMean>, string>)
    ensures r.Failure? <==> BadMovieDuration(rows)
    ensures r.Success? ==> AscendingYears(r.value)
    ensures r.Success? ==> forall y :: HasYear(r.value, y) <==> MovieOfYear(rows, y)
    ensures r.Success? ==> forall k :: 0 <= k < |r.value| ==>
      r.value[k].mean == Mean(MinutesOfYear(Movies(rows), r.value[k].year))
  {
    if BadMovieDuration(rows) then Failure("ValueError")
    else
      var years := SortedKeys(MovieYears(rows));
      var means := YearMeans(years, Movies(rows));
      YearMeansYears(years, Movies(rows));
      Success(means)
  }

  /** The means are for exactly the given years, in their order. */
  lemma YearMeansYears(years: seq<int>, ms: seq<Title>)
    ensures forall y :: HasYear(YearMeans(years, ms), y) <==> y in years
    ensures StrictlyIncreasing(years) ==> AscendingYears(YearMeans(years, ms))
  {
    var means := YearMeans(years, ms);
    forall y ensures HasYear(means, y) <==> y in years {
      if y in years {
        var k :| 0 <= k < |years| && years[k] == y;
        assert means[k].year == y;
      }
    }
  }

  /** What the line-chart section shows: the per-year points, or the placeholder. */
  datatype DurationChart = NoDurationData | Line(points: seq<YearMean>)

  /** Line 129: a chart is drawn whenever there is at least one movie year. */
  function DurationSection(rows: seq<Title>): (c: Result<DurationChart, string>)
    ensures c.Failure? <==> BadMovieDuration(rows)
    ensures c == Success(NoDurationData) <==>
      !BadMovieDuration(rows) && forall i :: 0 <= i < |rows| ==> rows[i].kind != Movie
    ensures c.Success? && c.value.Line? ==> c.value.points == MeanDurationPerYear(rows).value
  {
    match MeanDurationPerYear(rows)
    case Failure(e) => Failure(e)
    case Success(points) =>
      if |points| > 0 then
        assert HasYear(points, points[0].year);
        Success(Line(points))
      else
        assert forall i :: 0 <= i < |rows| ==> rows[i].kind != Movie by {
          forall i | 0 <= i < |rows| ensures rows[i].kind != Movie {
            assert !HasYear(points, rows[i].releaseYear);
            assert !MovieOfYear(rows, rows[i].releaseYear);
          }
        }
        Success(NoDurationData)
  }

  /** A movie title of `year` with the given duration cell, for the worked example. */
  function ExampleMovie(id: string, year: int, duration: string): Title {
    Title(id, Movie, "T", None, None, year, Some(duration))
  }

  lemma MovieStep(t: Title, rest: seq<Title>)
    requires t.kind == Movie
    ensures MovieYears([t] + rest) == [t.releaseYear] + MovieYears(rest)
    ensures Movies([t] + rest) == [t] + Movies(rest)
  {
    assert ([t] + rest)[0] == t && ([t] + rest)[1..] == rest;
  }

  lemma MinutesStep(t: Title, rest: seq<Title>, year: int, m: Minutes)
    requires ParseDuration(t.duration) == m
    ensures MinutesOfYear([t] + rest, year) ==
      (if t.releaseYear == year && m.Minutes? then [m.n] else []) + MinutesOfYear(rest, year)
  {
    assert ([t] + rest)[0] == t && ([t] + rest)[1..] == rest;
  }

  /** Three movies, two of 2020 that parse to 90 and 110 minutes and one of 2021 without minutes. */
  predicate DurationCase(m1: Title, m2: Title, m3: Title) {
    && m1.kind == Movie && m2.kind == Movie && m3.kind == Movie
    && m1.releaseYear == 2020 && m2.releaseYear == 2020 && m3.releaseYear == 2021
    && ParseDuration(m1.duration) == Minutes(90)
    && ParseDuration(m2.duration) == Minutes(110)
    && ParseDuration(m3.duration) == NoMinutes
  }

  lemma DurationCaseYears(m1: Title, m2: Title, m3: Title)
    requires DurationCase(m1, m2, m3)
    ensures MovieYears([m1, m2, m3]) == [2020, 2020, 2021]
    ensures Movies([m1, m2, m3]) == [m1, m2, m3]
  {
    ThreeMovies(m1, m2, m3);
  }

  /** A table of three movies is its own movie table, and lists their years in order. */
  lemma ThreeMovies(m1: Title, m2: Title, m3: Title)
    requires m1.kind == Movie && m2.kind == Movie && m3.kind == Movie
    ensures MovieYears([m1, m2, m3]) == [m1.releaseYear, m2.releaseYear, m3.releaseYear]
    ensures Movies([m1, m2, m3]) == [m1, m2, m3]
  {
    TwoMovies(m2, m3);
    MovieStep(m1, [m2, m3]);
    assert [m1] + [m2, m3] == [m1, m2, m3];
    assert [m1.releaseYear] + [m2.releaseYear, m3.releaseYear] == [m1.releaseYear, m2.releaseYear, m3.releaseYear];
  }

  lemma TwoMovies(m2: Title, m3: Title)
    requires m2.kind == Movie && m3.kind == Movie
    ensures MovieYears([m2, m3]) == [m2.releaseYear, m3.releaseYear]
    ensures Movies([m2, m3]) == [m2, m3]
  {
    MovieStep(m3, []);
    assert [m3] + [] == [m3];
    MovieStep(m2, [m3]);
    assert [m2] + [m3] == [m2, m3];
  }

  lemma DurationCaseMinutes(m1: Title, m2: Title, m3: Title, year: int)
    requires DurationCase(m1, m2, m3)
    ensures MinutesOfYear([m1, m2, m3], year) == if year == 2020 then [90, 110] else []
  {
    assert [m1, m2, m3] == [m1] + [m2, m3];
    MinutesOfLastTwo(m2, m3, year);
    MinutesStep(m1, [m2, m3], year, Minutes(90));
    if year == 2020 {
      assert [90] + [110] == [90, 110];
    }
  }

  /** The two later titles of the case give 110 minutes for 2020 and nothing else. */
  lemma MinutesOfLastTwo(m2: Title, m3: Title, year: int)
    requires m2.releaseYear == 2020 && ParseDuration(m2.duration) == Minutes(110)
    requires ParseDuration(m3.duration) == NoMinutes
    ensures MinutesOfYear([m2, m3], year) == if year == 2020 then [110] else []
  {
    assert [m2, m3] == [m2] + [m3] && [m3] == [m3] + [];
    MinutesStep(m3, [], year, NoMinutes);
    MinutesStep(m2, [m3], year, Minutes(110));
  }

  lemma SortedYearsExample()
    ensures SortedKeys([2020, 2020, 2021]) == [2020, 2021]
  {
    var ys := [2020, 2020, 2021];
    assert ys[1..] == [2020, 2021] && ys[1..][1..] == [2021] && ys[1..][1..][1..] == [];
    assert InsertKey(2021, []) == [2021];
    assert InsertKey(2020, [2021]) == [2020, 2021];
    assert InsertKey(2020, [2020, 2021]) == [2020, 2021];
  }

  lemma MeanExample()
    ensures Mean([90, 110]) == Some(100.0)
  {
    assert [90, 110][1..] == [110] && [110][1..] == [];
    assert Sum([90, 110]) == 200;
  }

  lemma DurationCaseParses(m1: Title, m2: Title, m3: Title)
    requires DurationCase(m1, m2, m3)
    ensures !BadMovieDuration([m1, m2, m3])
  {
    var rows := [m1, m2, m3];
    forall i | 0 <= i < 3 ensures !ParseDuration(rows[i].duration).NotAnInteger? {
      if i == 0 {
        assert rows[i] == m1;
      } else if i == 1 {
        assert rows[i] == m2;
      } else {
        assert rows[i] == m3;
      }
    }
  }

  /** The chart of a table whose movie years are 2020 and 2021, with these two means. */
  lemma MeanDurationOfTwoYears(rows: seq<Title>, mean2020: Option<real>, mean2021: Option<real>)
    requires !BadMovieDuration(rows)
    requires SortedKeys(MovieYears(rows)) == [2020, 2021]
    requires Mean(MinutesOfYear(Movies(rows), 2020)) == mean2020
    requires Mean(MinutesOfYear(Movies(rows), 2021)) == mean2021
    ensures MeanDurationPerYear(rows) == Success([YearMean(2020, mean2020), YearMean(2021, mean2021)])
  {
    assert MeanDurationPerYear(rows).value == YearMeans([2020, 2021], Movies(rows));
    YearMeansOfTwo(2020, 2021, Movies(rows));
  }

  lemma YearMeansOfTwo(a: int, b: int, ms: seq<Title>)
    ensures YearMeans([a, b], ms) == [YearMean(a, Mean(MinutesOfYear(ms, a))), YearMean(b, Mean(MinutesOfYear(ms, b)))]
  {
    assert [a, b][1..] == [b] && [b][1..] == [];
  }

  /** Any such three movies: 2020 has a mean of 100 and 2021 is kept with no mean. */
  lemma DurationCaseMean(m1: Title, m2: Title, m3: Title)
    requires DurationCase(m1, m2, m3)
    ensures MeanDurationPerYear([m1, m2, m3]) == Success([YearMean(2020, Some(100.0)), YearMean(2021, None)])
  {
    DurationCaseParses(m1, m2, m3);
    DurationCaseYears(m1, m2, m3);
    DurationCaseMinutes(m1, m2, m3, 2020);
    DurationCaseMinutes(m1, m2, m3, 2021);
    SortedYearsExample();
    MeanExample();
    MeanDurationOfTwoYears([m1, m2, m3], Some(100.0), None);
  }

  /**
   * Worked example: 2020 movies of "90 min" and "110 min" and a 2021 movie of "bad" give
   * 2020 a mean of 100 and keep 2021 with no mean.
   */
  lemma MeanDurationExample()
    ensures MeanDurationPerYear([ExampleMovie("m1", 2020, "90 min"), ExampleMovie("m2", 2020, "110 min"),
                                 ExampleMovie("m3", 2021, "bad")])
            == Success([YearMean(2020, Some(100.0)), YearMean(2021, None)])
  {
    ParseNinetyMinutes();
    ParseHundredTenMinutes();
    ParseNoMinutes();
    DurationCaseMean(ExampleMovie("m1", 2020, "90 min"), ExampleMovie("m2", 2020, "110 min"),
                     ExampleMovie("m3", 2021, "bad"));
  }

  /** Two tables that differ at most in their country cells. */
  predicate SameButCountry(a: seq<Title>, b: seq<Title>) {
    |a| == |b| && forall i :: 0 <= i < |a| ==> a[i] == b[i].(country := a[i].country)
  }

  lemma {:induction false} SameButCountryMovies(a: seq<Title>, b: seq<Title>)
    requires SameButCountry(a, b)
    ensures SameButCountry(Movies(a), Movies(b))
    ensures MovieYears(a) == MovieYears(b)
  {
    if a != [] {
      SameButCountryTail(a, b);
      SameButCountryMovies(a[1..], b[1..]);
      var ha: seq<Title> := if a[0].kind == Movie then [a[0]] else [];
      var hb: seq<Title> := if b[0].kind == Movie then [b[0]] else [];
      assert SameButCountry(ha, hb);
      SameButCountryAppend(ha, hb, Movies(a[1..]), Movies(b[1..]));
    }
  }

  /** Dropping the first row keeps two tables the same but for their countries. */
  lemma SameButCountryTail(a: seq<Title>, b: seq<Title>)
    requires SameButCountry(a, b) && a != []
    ensures a[0] == b[0].(country := a[0].country)
    ensures SameButCountry(a[1..], b[1..])
  {
    assert forall i :: 0 <= i < |a| - 1 ==> a[1..][i] == a[i + 1] && b[1..][i] == b[i + 1];
  }

  /** Concatenation keeps two pairs of tables the same but for their countries. */
  lemma SameButCountryAppend(a1: seq<Title>, b1: seq<Title>, a2: seq<Title>, b2: seq<Title>)
    requires SameButCountry(a1, b1) && SameButCountry(a2, b2)
    ensures SameButCountry(a1 + a2, b1 + b2)
  {
    forall i | 0 <= i < |a1 + a2| ensures (a1 + a2)[i] == (b1 + b2)[i].(country := (a1 + a2)[i].country) {
      if i >= |a1| {
        assert (a1 + a2)[i] == a2[i - |a1|] && (b1 + b2)[i] == b2[i - |a1|];
      }
    }
  }

  lemma {:induction false} SameButCountryMinutes(a: seq<Title>, b: seq<Title>, year: int)
    requires SameButCountry(a, b)
    ensures MinutesOfYear(a, year) == MinutesOfYear(b, year)
  {
    if a != [] {
      SameButCountryTail(a, b);
      SameButCountryMinutes(a[1..], b[1..], year);
    }
  }

  /** The duration chart does not look at the country column, so the fill cannot change it. */
  lemma DurationSectionIgnoresCountry(rows: seq<Title>)
    ensures DurationSection(FillUnknown(rows)) == DurationSection(rows)
  {
    var f := FillUnknown(rows);
    assert SameButCountry(f, rows);
    assert BadMovieDuration(f) <==> BadMovieDuration(rows) by {
      assert forall i :: 0 <= i < |rows| ==> f[i].kind == rows[i].kind && f[i].duration == rows[i].duration;
    }
    SameButCountryMovies(f, rows);
    forall y ensures MinutesOfYear(Movies(f), y) == MinutesOfYear(Movies(rows), y) {
      SameButCountryMinutes(Movies(f), Movies(rows), y);
    }
    if !BadMovieDuration(rows) {
      var mf, mr := MeanDurationPerYear(f).value, MeanDurationPerYear(rows).value;
      assert |mf| == |mr|;
      forall k | 0 <= k < |mf| ensures mf[k] == mr[k] {
        assert mf[k].year == SortedKeys(MovieYears(rows))[k] == mr[k].year;
      }
      assert mf == mr;
    }
  }

  /**
   * The data side of the whole page for the chosen year: the metrics, the pie, drawn
   * from the filled table (so "Unknown" competes like any other country), and the
   * duration chart.
   */
  method CataloguePage(loaded: seq<Title>, year: int)
    returns (info: BasicInfo, pie: PieChart, durations: Result<DurationChart, string>)
    ensures info == BasicInfo(MinReleaseYear(loaded), MaxReleaseYear(loaded), MissingDirectors(loaded),
                              CountryCount(FillUnknown(loaded)), AverageTitleLength(loaded))
    ensures pie.NoDataForYear? <==> forall i :: 0 <= i < |loaded| ==> loaded[i].releaseYear != year
    ensures pie.Pie? ==> pie.slices == TopTen(YearTokens(FillUnknown(loaded), year))
    ensures durations == DurationSection(loaded)
  {
    var catalog := new Catalog(loaded);
    info := catalog.BasicInformation();
    FillUnknownKeepsBasics(loaded);
    assert AverageTitleLength(catalog.rows) == AverageTitleLength(loaded);
    pie := TopCountriesSection(catalog.rows, year);
    FilledYearGate(loaded, year);
    durations := DurationSection(catalog.rows);
    DurationSectionIgnoresCountry(loaded);
  }

  /**
   * After the fill every title has a country, so a year lacks country cells exactly
   * when it has no title at all.
   */
  lemma FilledYearGate(rows: seq<Title>, year: int)
    ensures var f := FillUnknown(rows);
      (forall i :: 0 <= i < |f| && f[i].releaseYear == year ==> f[i].country.None?) <==>
      (forall i :: 0 <= i < |rows| ==> rows[i].releaseYear != year)
  {
    var f := FillUnknown(rows);
    assert forall i :: 0 <= i < |rows| ==> f[i].releaseYear == rows[i].releaseYear && f[i].country.Some?;
  }
}
