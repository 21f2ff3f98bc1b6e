# Catalogue and temperature dashboards: the data preparation, verified

Two Streamlit pages. Each loads one table and computes a few figures from it before drawing any chart:

- The catalogue page (`pages/02_netflix_data_analysis.py`) works on a table of titles. It computes:
  - the release-year range and the number of missing directors;
  - the number of different countries, after missing countries are filled with "Unknown";
  - the average title length;
  - for a chosen year, the ten countries credited most often, for a pie chart;
  - for each release year, the mean movie duration, for a line chart.
- The temperatures page (`pages/03_temperatures_dashboard.py`) works on a table of daily city temperatures. It computes:
  - a Celsius column;
  - the list of cities;
  - the date range;
  - the coldest and the hottest reading, each with its city and day;
  - for every selected city, the readings inside an inclusive date window, which feed a line chart and a histogram.

The model describes each table as a sequence of records:

- a missing cell is `None`;
- a day is an integer day number;
- temperatures and averages are exact reals.

Each page's DataFrame, whose columns the page writes in place, is a class with `modifies` clauses: `Catalog` and `TempsTable`. The three `for` loops are methods with loop invariants:

- the loop that builds the country list (`pages/02_netflix_data_analysis.py`, lines 81-85);
- the two loops over the selected cities (`pages/03_temperatures_dashboard.py`, lines 123-126 and 139-142).

The pandas and `str` operations the pages rely on are functions with contracts, in small modules:

- `PyStrings`: `split`, `join`, `strip`, `split()[0]`, `in`, and `int()` on digit strings;
- `Seqs`: `unique`, and the sorted group keys;
- `Stats`: `min`, `max`, `sum` and `mean`;
- `Ranking`: `value_counts`, `head` and `sort_values`.

Files:

- `wrappers.dfy`: `Option` and `Result`.
- `pystrings.dfy`, `seqs.dfy`, `stats.dfy`, `ranking.dfy`: the library operations the pages call.
- `netflix.dfy`: module `NetflixAnalysis`, the catalogue page.
- `temperatures.dfy`: module `TemperaturesDashboard`, the temperatures page.

Behaviour of the code worth knowing:

- **Years without a parseable duration.** `groupby('release_year').mean()` keeps a release year whose movies all lack a parseable duration, with a NaN mean. The model keeps that year with mean `None` (`NetflixAnalysis.MeanDurationExample`).
- **Line-chart gate.** Line 129 draws the chart whenever there is at least one movie, even if no duration parsed.
- **Durations that fail to parse.** A duration that mentions "min" but does not start with an integer makes `int()` raise ValueError. This stops the page; the duration is not skipped.
- **Empty temperature table.** On an empty table, `.iloc[0]` at line 61 raises IndexError, so the page ends there.
- **Order of a city's series.** Each city's series is in table order. The code does not sort it by date.
- **Country count of an empty catalogue.** An empty catalogue counts one country: joining an empty column gives "", and splitting "" gives one empty name.

## Model

| member | source | states |
|---|---|---|
| NetflixAnalysis.MinReleaseYear | pages/02_netflix_data_analysis.py:39 | absent exactly for an empty table; otherwise no title is older and some title has that year |
| NetflixAnalysis.MaxReleaseYear | pages/02_netflix_data_analysis.py:40 | absent exactly for an empty table; otherwise no title is newer and some title has that year |
| NetflixAnalysis.MissingDirectors | pages/02_netflix_data_analysis.py:43 | at most the number of titles; 0 exactly when every title has a director; the number of titles exactly when none has one |
| NetflixAnalysis.MissingDirectorsAppend | pages/02_netflix_data_analysis.py:43 | stacking two tables adds their missing-director counts |
| NetflixAnalysis.FillUnknown | pages/02_netflix_data_analysis.py:46 | afterwards every country is present; a present country is kept, a missing one becomes "Unknown", and no other column changes |
| NetflixAnalysis.FillUnknownIdempotent | pages/02_netflix_data_analysis.py:46 | filling twice is the same as filling once |
| NetflixAnalysis.FillUnknownKeepsBasics | pages/02_netflix_data_analysis.py:39-51 | the fill changes neither the release years, nor the missing-director count, nor the title lengths |
| NetflixAnalysis.CountryColumn | pages/02_netflix_data_analysis.py:47 | the filled country column, cell for cell |
| NetflixAnalysis.CountryCount | pages/02_netflix_data_analysis.py:47-48 | the size of the set of names from the join and split; at least 1 and at most the number of names; equal to the number of distinct names |
| NetflixAnalysis.CountryCountPerTitle | pages/02_netflix_data_analysis.py:47-48 | for a non-empty table, join-then-split gives each title's own pieces in order; an empty table yields [""] and a count of 1 |
| NetflixAnalysis.TitleLengths | pages/02_netflix_data_analysis.py:51 | one entry per title, equal to its character count |
| NetflixAnalysis.AverageTitleLength | pages/02_netflix_data_analysis.py:52 | absent exactly for an empty table; otherwise the total number of characters divided by the number of titles |
| NetflixAnalysis.AverageTitleLengthBetween | pages/02_netflix_data_analysis.py:52 | the average lies between the shortest and the longest title length, and both are attained by titles |
| NetflixAnalysis.Catalog.constructor | pages/02_netflix_data_analysis.py:29 | the table as loaded, without the `title_length` column |
| NetflixAnalysis.Catalog.FillMissingCountries | pages/02_netflix_data_analysis.py:46 | the rows become their filled version in place; the length column is untouched |
| NetflixAnalysis.Catalog.AddTitleLengthColumn | pages/02_netflix_data_analysis.py:51 | the rows stay as they are; the new column holds every title's length |
| NetflixAnalysis.Catalog.BasicInformation | pages/02_netflix_data_analysis.py:39-52 | the five metrics in page order: year range and missing directors of the loaded table, then the fill, the country count of the filled table, the new column and the average title length |
| NetflixAnalysis.AllCountries | pages/02_netflix_data_analysis.py:47 | at least one name; the names joined with ", " give back the joined column; no name contains ", " |
| NetflixAnalysis.YearCountriesInOrder | pages/02_netflix_data_analysis.py:77 | the selection is the country cell of every title of the chosen year, each exactly once, in table order, and nothing else |
| NetflixAnalysis.CellCountries | pages/02_netflix_data_analysis.py:82-84 | nothing exactly for a missing cell; a present cell credits one more name than it has commas; no name holds a comma or starts or ends with whitespace |
| NetflixAnalysis.CellCountriesPieces | pages/02_netflix_data_analysis.py:82-84 | the names of a present cell are, in order, its comma-free pieces, which joined with "," give the cell back, each with exactly its surrounding whitespace removed |
| NetflixAnalysis.YearTokens | pages/02_netflix_data_analysis.py:80-85 | every name of the country list is free of commas and of whitespace at either end |
| NetflixAnalysis.CreditedAppend | pages/02_netflix_data_analysis.py:81-85 | the credits of two runs of cells are the credits of each run, concatenated |
| NetflixAnalysis.YearTokensPerTitle | pages/02_netflix_data_analysis.py:77-85 | only titles of the chosen year contribute, each exactly the countries of its own cell, in table order |
| NetflixAnalysis.YearTokensAppend | pages/02_netflix_data_analysis.py:77-85 | the country list of two stacked tables is the two lists concatenated |
| NetflixAnalysis.YearTokensEmpty | pages/02_netflix_data_analysis.py:77-85 | the country list is empty exactly when no title of that year has a country cell |
| NetflixAnalysis.CountryList | pages/02_netflix_data_analysis.py:80-85 | the `extend` loop produces exactly the country list of the chosen year (invariant: the credits of the cells already visited) |
| NetflixAnalysis.TopTen | pages/02_netflix_data_analysis.py:88-91 | at most ten countries, none twice, in non-increasing order of their true tallies; a country left out never has more credits than the last one kept; sorting again changes nothing; empty exactly when the list is |
| NetflixAnalysis.TopTenKeepsOrder | pages/02_netflix_data_analysis.py:88-91 | the final sort gives back the first ten rows of `value_counts` unchanged, so countries with equal counts keep the order they were first met in |
| NetflixAnalysis.TopCountriesSection | pages/02_netflix_data_analysis.py:77-109 | "no data" exactly when no title of that year has a country; otherwise the pie shows the top ten of that year |
| NetflixAnalysis.TallyExample | pages/02_netflix_data_analysis.py:77-91 | in 2020, cells "A, B" and "A" give A:2 then B:1, and a 2019 title does not count |
| NetflixAnalysis.TopTenABA | pages/02_netflix_data_analysis.py:88-91 | for two different countries met as a, b, a, the top ten is a with 2, then b with 1 |
| NetflixAnalysis.CellCountriesExample | pages/02_netflix_data_analysis.py:82-84 | the cell "A, B" credits A and B (the blank after the comma is stripped), and "A" credits A |
| NetflixAnalysis.ParseDuration | pages/02_netflix_data_analysis.py:122-124 | no minutes exactly when the cell is missing or lacks "min"; minutes are the value of the first word when it is a digit string; otherwise `int()` fails |
| NetflixAnalysis.ParseDurationOfMinutes | pages/02_netflix_data_analysis.py:122-124 | a cell made of n's digits, whitespace, then text containing "min" parses to n |
| NetflixAnalysis.ParseNinetyMinutes | pages/02_netflix_data_analysis.py:122-124 | "90 min" gives 90 |
| NetflixAnalysis.ParseNoMinutes | pages/02_netflix_data_analysis.py:122-124 | a missing cell, "", "3 Seasons" and "bad" give no minutes |
| NetflixAnalysis.ParseNotAnInteger | pages/02_netflix_data_analysis.py:122-124 | "long min" reaches `int()` and fails |
| NetflixAnalysis.MoviesInOrder | pages/02_netflix_data_analysis.py:119 | the filter keeps every movie exactly once, in table order, and nothing else |
| NetflixAnalysis.MinutesOfYearInOrder | pages/02_netflix_data_analysis.py:122-127 | the minutes of a year are those of its titles whose duration parses, each exactly once, in table order, and nothing else |
| NetflixAnalysis.MinutesOfYearEmpty | pages/02_netflix_data_analysis.py:122-127 | the minutes of a year are empty exactly when none of its titles has a parseable duration |
| NetflixAnalysis.MovieYears | pages/02_netflix_data_analysis.py:127 | holds exactly the years that have a movie |
| NetflixAnalysis.YearMeans | pages/02_netflix_data_analysis.py:127 | one point per group key, in key order, each with the mean of that year's parsed minutes |
| NetflixAnalysis.YearMeansYears | pages/02_netflix_data_analysis.py:127 | the grouped means are for exactly the group keys, and ascending keys give ascending years |
| NetflixAnalysis.MeanDurationPerYear | pages/02_netflix_data_analysis.py:119-127 | fails exactly when some movie's duration reaches `int()` and fails to parse; otherwise ascending years, exactly the years that have a movie, each with the mean of its parsed minutes |
| NetflixAnalysis.MeanDurationExample | pages/02_netflix_data_analysis.py:119-127 | 2020 movies "90 min" and "110 min" with a 2021 movie "bad" give 2020 → 100.0 and keep 2021 with no mean |
| NetflixAnalysis.DurationSection | pages/02_netflix_data_analysis.py:127-146 | fails as the computation does; the placeholder exactly when there is no movie at all; otherwise the line shows the per-year means |
| NetflixAnalysis.DurationSectionIgnoresCountry | pages/02_netflix_data_analysis.py:46 | filling the countries does not change the duration chart |
| NetflixAnalysis.CataloguePage | pages/02_netflix_data_analysis.py:29-146 | the metrics of the loaded table; exactly when the chosen year has no title at all, the no-data message (after the fill, every title has a country); the duration chart of the loaded table |
| NetflixAnalysis.FilledYearGate | pages/02_netflix_data_analysis.py:46-81 | after the fill, the chosen year has no country cell exactly when it has no title at all |
| NetflixAnalysis.SameButCountryMovies | pages/02_netflix_data_analysis.py:119-127 | two tables that differ only in their country cells have the same movies, up to those cells, and the same movie years |
| PyStrings.StripLeft | pages/02_netflix_data_analysis.py:84 | drops leading whitespace only: the result is a suffix, what was dropped is whitespace, and the result does not start with whitespace |
| PyStrings.StripRight | pages/02_netflix_data_analysis.py:84 | drops trailing whitespace only: the result is a prefix, what was dropped is whitespace, and the result does not end with whitespace |
| PyStrings.Strip | pages/02_netflix_data_analysis.py:84 | never longer than the input, and neither starts nor ends with whitespace |
| PyStrings.StripSpec | pages/02_netflix_data_analysis.py:84 | the result is a slice of the input with only whitespace around it |
| PyStrings.StripAbsent | pages/02_netflix_data_analysis.py:84 | stripping introduces no character the input lacks |
| PyStrings.StripEach | pages/02_netflix_data_analysis.py:84 | strips every piece, keeping their number and order |
| PyStrings.SplitPiecesFree | pages/02_netflix_data_analysis.py:47 | no piece of a split contains the separator |
| PyStrings.SplitPiecesFreeChar | pages/02_netflix_data_analysis.py:84 | no piece of a split on one character contains that character |
| PyStrings.SplitCountChar | pages/02_netflix_data_analysis.py:84 | a split on one character has one piece more than the string has occurrences of it |
| PyStrings.SplitFirstPrefix | pages/02_netflix_data_analysis.py:84 | the first piece of a split is a prefix of the string |
| PyStrings.Join | pages/02_netflix_data_analysis.py:47 | "" for no parts; otherwise starts with the first part and is as long as the parts plus one separator between each two |
| PyStrings.JoinSplit | pages/02_netflix_data_analysis.py:47 | joining the pieces of a split with the separator gives the string back |
| PyStrings.SplitAroundSeparator | pages/02_netflix_data_analysis.py:47 | splitting `a + ", " + b` is splitting `a`, then splitting `b` |
| PyStrings.SplitJoinedList | pages/02_netflix_data_analysis.py:47 | splitting the join of a non-empty list gives every element's own pieces, in order |
| PyStrings.Contains | pages/02_netflix_data_analysis.py:123 | true exactly when `sub` occurs at some position of `s` |
| PyStrings.TakeWord | pages/02_netflix_data_analysis.py:123 | a prefix with no whitespace, followed by whitespace or the end |
| PyStrings.FirstWordSpec | pages/02_netflix_data_analysis.py:123 | `split()[0]` has no whitespace, is empty exactly for an all-whitespace string, follows only whitespace and is followed by whitespace or the end |
| PyStrings.DigitsValueBounds | pages/02_netflix_data_analysis.py:123 | a digit string is worth less than 10 to the power of its length, and at least 10 to one less when it does not start with 0 |
| PyStrings.ShowNatDigitsValue | pages/02_netflix_data_analysis.py:123 | `str(int(s)) == s` for a digit string without a leading zero |
| PyStrings.ShowNat | pages/02_netflix_data_analysis.py:123 | a decimal rendering is a digit string |
| PyStrings.DigitsValueShowNat | pages/02_netflix_data_analysis.py:123 | `int(str(n)) == n` |
| Seqs.FirstIndex | pages/03_temperatures_dashboard.py:61 | the position of the first occurrence: it holds the value and no earlier position does |
| Seqs.Distinct | pages/03_temperatures_dashboard.py:51 | no duplicates, no new values, every value kept, no longer than the input |
| Seqs.DistinctSnoc | pages/03_temperatures_dashboard.py:51 | one more value is appended to the distinct list when it is new and is dropped otherwise |
| Seqs.DistinctFirstSeenOrder | pages/03_temperatures_dashboard.py:51 | values are listed in the order of their first occurrence |
| Seqs.DistinctCardinality | pages/02_netflix_data_analysis.py:48 | `len(set(xs))` is the length of the distinct list |
| Seqs.SortedKeys | pages/02_netflix_data_analysis.py:127 | strictly ascending and holding exactly the keys of the input |
| Stats.MinInt | pages/02_netflix_data_analysis.py:39 | an element of the column, no larger than any other |
| Stats.MaxInt | pages/02_netflix_data_analysis.py:40 | an element of the column, no smaller than any other |
| Stats.MinReal | pages/03_temperatures_dashboard.py:58 | an element of the column, no larger than any other |
| Stats.MaxReal | pages/03_temperatures_dashboard.py:59 | an element of the column, no smaller than any other |
| Stats.SumBounds | pages/02_netflix_data_analysis.py:52 | the sum of n values between lo and hi lies between n·lo and n·hi |
| Stats.Mean | pages/02_netflix_data_analysis.py:52 | absent exactly for an empty column; otherwise sum over count, between the column's minimum and maximum |
| Ranking.Tally | pages/02_netflix_data_analysis.py:88 | one entry per distinct value in first-seen order, each with its number of occurrences, the counts adding up to the length |
| Ranking.Bump | pages/02_netflix_data_analysis.py:88 | counting one more value adds one to its count only, appends it as a new entry when it is new, and adds one to the total |
| Ranking.SortDescending | pages/02_netflix_data_analysis.py:91 | a permutation of its input |
| Ranking.InsertNonIncreasing | pages/02_netflix_data_analysis.py:91 | inserting an entry into a list in non-increasing count order keeps that order |
| Ranking.SortDescendingNonIncreasing | pages/02_netflix_data_analysis.py:91 | the result is in non-increasing count order |
| Ranking.SortDescendingOfSorted | pages/02_netflix_data_analysis.py:91 | an already ordered list is left unchanged |
| Ranking.SortDescendingStable | pages/02_netflix_data_analysis.py:91 | entries with equal counts keep their relative order |
| Ranking.ValueCounts | pages/02_netflix_data_analysis.py:88 | non-increasing counts, each value once, exactly the values of the input, each count its number of occurrences |
| Ranking.ValueCountsTiesFirstSeen | pages/02_netflix_data_analysis.py:88 | values with equal counts are in first-seen order |
| Ranking.Head | pages/02_netflix_data_analysis.py:91 | the first n entries, or all of them when there are fewer |
| Ranking.HeadKeepsOrder | pages/02_netflix_data_analysis.py:91 | `head(n)` keeps the order and distinctness of its input |
| Ranking.HeadOmitted | pages/02_netflix_data_analysis.py:91 | an entry cut off by `head(n)` has no more than the last entry kept |
| TemperaturesDashboard.CelsiusColumn | pages/03_temperatures_dashboard.py:45 | one Celsius value per row, the conversion of that row's Fahrenheit value |
| TemperaturesDashboard.ToCelsius | pages/03_temperatures_dashboard.py:45 | converting back to Fahrenheit gives the input |
| TemperaturesDashboard.ToCelsiusFixedPoints | pages/03_temperatures_dashboard.py:45 | 32 °F is 0 °C, 212 °F is 100 °C, and -40 is the same on both scales |
| TemperaturesDashboard.ToCelsiusOrder | pages/03_temperatures_dashboard.py:45 | the conversion is strictly increasing and one-to-one, in both directions |
| TemperaturesDashboard.CelsiusColumnOrder | pages/03_temperatures_dashboard.py:45 | the Celsius column orders rows exactly as the Fahrenheit column does |
| TemperaturesDashboard.TempsTable.constructor | pages/03_temperatures_dashboard.py:35 | the table as loaded, without the Celsius column |
| TemperaturesDashboard.TempsTable.AddCelsiusColumn | pages/03_temperatures_dashboard.py:45 | the rows stay as they are; the new column holds every row's converted temperature |
| TemperaturesDashboard.UniqueCities | pages/03_temperatures_dashboard.py:51 | no city twice, only cities of the table, every city of the table, no longer than the table |
| TemperaturesDashboard.UniqueCitiesFirstSeen | pages/03_temperatures_dashboard.py:51 | a city listed earlier first appears earlier in the table |
| TemperaturesDashboard.UniqueCitiesExample | pages/03_temperatures_dashboard.py:51 | Paris, Tokyo, Paris, Lagos gives Paris, Tokyo, Lagos |
| TemperaturesDashboard.MinDate | pages/03_temperatures_dashboard.py:54 | absent exactly for an empty table; otherwise no reading is earlier and some reading has that day |
| TemperaturesDashboard.MaxDate | pages/03_temperatures_dashboard.py:55 | absent exactly for an empty table; otherwise no reading is later and some reading has that day |
| TemperaturesDashboard.Coldest | pages/03_temperatures_dashboard.py:58-63 | IndexError exactly for an empty table; otherwise the lowest value, held by the reported row, which is the first row holding it; city and day are that row's |
| TemperaturesDashboard.Hottest | pages/03_temperatures_dashboard.py:59-67 | IndexError exactly for an empty table; otherwise the highest value, held by the reported row, which is the first row holding it; city and day are that row's |
| TemperaturesDashboard.ExtremesOrdered | pages/03_temperatures_dashboard.py:58-67 | the minimum never exceeds the maximum, and they are equal exactly when all rows have one temperature |
| TemperaturesDashboard.ColdestFirstOfTies | pages/03_temperatures_dashboard.py:61 | of two rows sharing the minimum, the one reported is never the later one |
| TemperaturesDashboard.Window | pages/03_temperatures_dashboard.py:124-125 | increasing row positions, each of the city and inside the window at both ends included, and every such row |
| TemperaturesDashboard.CitySeries | pages/03_temperatures_dashboard.py:126 | one point per kept row, in order, with that row's day and Celsius value |
| TemperaturesDashboard.CityTemperatures | pages/03_temperatures_dashboard.py:142 | one value per kept row, in order, the row's Celsius value |
| TemperaturesDashboard.CitySeriesExact | pages/03_temperatures_dashboard.py:124-126 | a point is in the series exactly when the table has a row of that city in the window with that day and value; readings on the first and the last day are kept |
| TemperaturesDashboard.EmptyWhenReversed | pages/03_temperatures_dashboard.py:125 | a start after the end keeps nothing, for both charts |
| TemperaturesDashboard.WindowOfNothing | pages/03_temperatures_dashboard.py:124-125 | when no row is in the window, nothing is kept |
| TemperaturesDashboard.WindowsDisjoint | pages/03_temperatures_dashboard.py:124 | two different cities never share a row |
| TemperaturesDashboard.HistogramMatchesLine | pages/03_temperatures_dashboard.py:139-142 | a city's histogram values are the temperatures of its line, point by point |
| TemperaturesDashboard.LineFigure | pages/03_temperatures_dashboard.py:123-126 | one line per selected city, in selection order, each filtered from the whole table |
| TemperaturesDashboard.HistogramFigure | pages/03_temperatures_dashboard.py:139-142 | one histogram per selected city, in selection order, each filtered from the whole table |
| TemperaturesDashboard.CompareCities | pages/03_temperatures_dashboard.py:117-149 | nothing exactly for an empty selection; otherwise both figures have one entry per city, and each histogram holds exactly the values of its city's line |
| TemperaturesDashboard.TemperaturesPage | pages/03_temperatures_dashboard.py:35-149 | fails exactly on an empty table; otherwise the cities, the date range, the extremes of the converted column, and for a non-empty selection one line and one histogram per selected city, each filtered from the whole converted table |

## Left out

- Streamlit presentation is not modelled: the sidebar, titles, expanders, metrics layout, `number_input`, `multiselect` (with its default and `max_selections=4`), `date_input` and `st.pyplot`. The chosen year, the selected cities and the dates are plain parameters, and they are not constrained to what the widgets would offer.
- Matplotlib is not modelled: pie styling, the red palette, line and marker styles, and the 20 histogram bins. The model stops at the series handed to the plots.
- CSV loading and the conversion of dates at line 31 are not modelled. The tables are given as sequences of records, with dates as day numbers.
- The `@st.cache_data` memoisation is not modelled.
- Floating point is not modelled. Temperatures and means are exact reals, so the rounding of `round(..., 2)` and `:.1f` is left out. A NaN is modelled only as an absent value. The equality test at lines 61 and 65 of `pages/03_temperatures_dashboard.py` is exact.
- ParseDuration: `int()` is modelled on plain decimal digit strings only. Signs, underscores and non-ASCII digits, which Python also accepts, are left out.
- MinReleaseYear, MaxReleaseYear, MinDate, MaxDate: on an empty table pandas returns NaN. The model returns `None`.
- The `None` tests of `pages/03_temperatures_dashboard.py` at lines 76, 81, 106 and 117 are not modelled. The values they test are never `None` in the code, so only the empty-selection test at line 117 has an effect.
- The `is not None` tests of `pages/02_netflix_data_analysis.py` at lines 65, 97 and 129 are not modelled for the same reason. At line 65 an empty table gives NaN; at lines 97 and 129 the values are Series, possibly empty. None of them is ever `None`, so only the length tests at lines 97 and 129 have an effect, and those are modelled.
- The object-typed column pandas builds when no movie has a parseable duration is not modelled. The model treats that case like any other: every year it keeps has no mean.
