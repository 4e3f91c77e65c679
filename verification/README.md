# Nobel prize analysis, modelled in Dafny

The script `main.py` loads the Nobel prize table (one row per award to one
laureate) into a pandas frame, checks it for duplicate rows and missing
cells, derives a `share_pct` column from the `prize_share` fraction and a
`winning_age` column from the award year and birth date, and aggregates it:
prizes per category and sex, per year with a five-year rolling mean, the
average share per year and its rolling mean, the top-20 birth countries,
organisations, organisation cities and birth cities, per-country
per-category counts joined to the top-20 countries, and the cumulative
prize count of each country over the years.

This project states those steps over a plain table, a `seq<Record>`
whose every cell is an `Option` (pandas' NaN is `None`), and proves what
they compute:

- `keys.dfy`: group keys (integers, strings, tuples) and the order in which
  `groupby(sort=True)` lists groups, proved to be a strict total order.
- `table.dfy`: the record, its columns, and the key a row has for a set of
  group-by columns (none when a key cell is missing).
- `quality.dfy`: `duplicated().any()`, `isna().sum()`, `isna().any()` and
  the multi-winner mask `duplicated(subset=["full_name"], keep=False)`.
- `numbers.dfy`: float values kept exact (`Fin(real)`, `PosInf`, `NaN`),
  the window mean and the skip-NaN mean.
- `share.dfy`: `str.split("/", expand=True)`, `pd.to_numeric` and the
  float division producing `share_pct`, including the exceptions the two
  pandas calls raise.
- `groupby.dfy`: the counting group-by `agg({"prize": pd.Series.count})`.
- `ranking.dfy`: `sort_values` and the `[-20:]` slice.
- `reports.dfy`: the named group-by reports.
- `merge.dfy`: the inner merge of per-country-and-category counts with the
  top-20 countries.
- `rolling.dfy`: prizes per year, mean share per year and their
  `rolling(window=5).mean()`.
- `cumulative.dfy`: per-country cumulative prize counts.
- `ages.dfy`: `winning_age`, `nlargest(n=1)` and `nsmallest(n=1)`.
- `frame.dfy`: the table object the script enriches in place with the two
  derived columns.

Shares and means are exact rationals. A zero denominator yields `PosInf`,
or `NaN` for `0/0`, as float division does.

## Model

| member | source | states |
|---|---|---|
| Keys.LessTotal | main.py:86 | any two distinct group keys are ordered one way or the other, so the group order pandas sorts by is total |
| Keys.LessTransitive | main.py:86 | the group order is transitive (with `LessIrreflexive`, a strict order) |
| Keys.AscendingIndexOrder | main.py:86 | in a group list sorted by key, position order and key order agree and no key repeats |
| Quality.HasDuplicates | main.py:16 | the duplicates flag is true iff two distinct positions hold records equal in every column, missing cells included |
| Quality.MissingCount | main.py:24 | a column's missing count never exceeds the row count; it is 0 iff every cell of the column is present and equals the row count iff every cell is missing |
| Quality.MissingCountAppend | main.py:24 | the missing count of a table is the sum of the counts of any split of it, so it counts rows one by one |
| Quality.MissingCounts | main.py:24 | `isna().sum()` has an entry for every column, each at most the row count |
| Quality.AnyMissingIffSomeCount | main.py:20-24 | the "NAN values exist" flag is true iff some column's missing count is positive |
| Quality.DuplicatedKeepNoneAt | main.py:62 | with keep=False a position is flagged iff another position holds the same value |
| Quality.Positions | main.py:64 | a boolean mask selects exactly its true positions, in increasing order |
| Quality.MultiWinnersExact | main.py:62-64 | the multi-winner table holds exactly the rows whose full name occurs at another position too, each once, in table order |
| Quality.MultiWinnersRepeat | main.py:62-64 | every row of the multi-winner table has its name at two distinct positions of the table; no single winner survives |
| Quality.MultiWinners | main.py:62-64 | every row of the multi-winner table is a row of the table whose name occurs at least twice in the name column |
| Share.Split | main.py:40 | splitting on "/" yields at least one part and no part holds a "/" |
| Share.JoinSplit | main.py:40 | joining the split parts with "/" gives the original text back, so the split loses nothing |
| Share.SplitPair | main.py:40 | "a/b" with no "/" in a or b splits into exactly a and b |
| Share.ParseNumber | main.py:41 | a cell converts to a number iff it is a non-empty string of decimal digits |
| Share.ToNum | main.py:41 | a missing or empty part converts to NaN, any other accepted part to its number |
| Share.ParseShowNat | main.py:41 | converting the decimal numeral of a count gives that count back |
| Share.ShareColumn | main.py:40-41 | the column is computed iff every part converts and some row has a "/"; it fails with the missing-column error iff every numerator converts and no row has a "/"; on success each row's value is its numerator over its denominator |
| Share.FractionShare | main.py:40-41 | a well-formed "n/d" with d > 0 gives exactly n/d, and with 0 < n <= d a value in (0, 1] |
| Share.OneQuarter | main.py:40-41 | "1/4" gives exactly 0.25 |
| Share.ZeroDenominator | main.py:41 | "n/0" gives infinity, and "0/0" gives NaN, instead of failing |
| Share.WrongSeparator | main.py:40-41 | a share written "1-4" makes `to_numeric` fail for the whole column |
| Share.EmptySide | main.py:40-41 | "n/" or "/d" does not stop the column: the empty side converts to NaN, and so does the share |
| Numbers.FinSumBounds | main.py:123 | a sum of finite values in [lo, hi] lies between lo and hi times their number |
| Numbers.MeanSkipNaUnitInterval | main.py:123 | the skip-NaN mean of shares in (0, 1] is NaN iff every share is missing, and otherwise lies in (0, 1] |
| Numbers.WindowMean | main.py:99 | a window mean is NaN iff the window holds a NaN, finite iff every entry is finite, and then times the width it gives the window sum |
| Numbers.MeanSkipNa | main.py:123 | the skip-NaN mean is NaN iff every entry is missing, infinite iff an entry is, and otherwise times the number of finite entries it gives their sum |
| GroupBy.DistinctKeys | main.py:86 | the group keys are strictly ascending and are exactly the keys some row has, each once |
| GroupBy.GroupCount | main.py:97 | one group per key that occurs and no other, strictly ascending by key, each with the number of its rows whose prize is present |
| GroupBy.GroupCountTotal | main.py:161 | the group counts add up to the rows with both a key and a prize: rows with a missing key are dropped, rows with a missing prize are not counted |
| GroupBy.CountKeyAbsent | main.py:161 | a key no row has counts no rows |
| GroupBy.GroupCountMember | main.py:161 | a group taken from a group-by result, in any order, has a key that occurs and the count of its own rows |
| Ranking.SortBy | main.py:87 | the sort result is ascending by the sort key and a permutation of its input |
| Ranking.Top20Selects | main.py:162 | the top-20 slice has min(20, number of groups) groups, is ascending by count, is drawn from the groups, and every group left out counts no more than any group kept |
| Ranking.DrawnKeysDistinct | main.py:162 | groups drawn from a group-by result, no more often than they occur there, have pairwise distinct keys |
| Reports.Top20Counts | main.py:211-212 | every group in a top-20 slice has a key that occurs and the count of its own rows |
| Reports.SortedDescendingGroups | main.py:243-244 | a group-by sorted descending lists every group once, largest count first, each with the count of its own rows |
| Reports.GenderCategories | main.py:86-87 | every (category, sex) group once, largest count first, each with its own row count |
| Reports.Top20Report | main.py:211-212 | a top-20 slice has min(20, number of groups) groups with distinct keys, ascending by count, each with its own row count, and a key left out counts no more than any group kept |
| Reports.TopSchools | main.py:211-212 | the organisation top 20: the top-20 slice property (distinct groups, each with its own count, none left out counting more) for the organisation group-by |
| Reports.TopCities | main.py:221-222 | the organisation-city top 20: the top-20 slice property (distinct groups, each with its own count, none left out counting more) for the city group-by |
| Reports.TopBirthCities | main.py:231-232 | the birth-city top 20: the top-20 slice property (distinct groups, each with its own count, none left out counting more) for the birth-city group-by |
| Reports.CountryCitySchool | main.py:243-244 | every (country, city, organisation) group once, largest count first, each with its own row count |
| Merge.JoinMembers | main.py:185 | a merged row exists iff a (country, category) group and the same country's group are both present, and it carries both counts |
| Merge.JoinPairsDistinct | main.py:185 | joining groups with distinct keys on both sides yields each (country, category) pair at most once |
| Merge.CategoryWithinCountry | main.py:180 | a country's prizes in one category never exceed its prizes in all categories |
| Merge.CountryCategoryTopBounded | main.py:180-188 | every merged row is a (country, category) pair some record has, carrying that pair's count, which is at most its country total; and its country is among the top 20 with that total |
| Merge.CountryCategoryTopDistinct | main.py:180-188 | no two rows of the merged frame share a (country, category) pair |
| Merge.CountryCategoryTop | main.py:188 | the merged frame is ascending by country total |
| Merge.CountryCategoryTopComplete | main.py:180-188 | every (country, category) group whose country is in the top 20 is a merged row carrying its count and the country total |
| Rolling.RollingMean | main.py:99 | the rolling mean has the length of its input and is NaN at the first width-1 positions |
| Rolling.RollingNaN | main.py:99 | once the window is full, a rolling mean is NaN iff one of the values in its window is NaN |
| Rolling.PrizesPerYear | main.py:97 | one entry per year some row has, ascending, each with the number of that year's rows with a prize |
| Rolling.RollingPrizes | main.py:99 | NaN for exactly the first four years, then a finite non-negative mean |
| Rolling.RollingPrizesMean | main.py:97-99 | from the fifth year on, the rolling value is the mean of the prize counts of that year and the four years listed before it |
| Rolling.RollingPrizesWindow | main.py:97-99 | from the fifth year on, the rolling value is the mean of the counts of the last five years in the series, taken by position; every year in the table between the first and last of them is among them, so missing years are skipped, not counted as zero |
| Rolling.RollingSlide | main.py:99 | consecutive full-window values differ by the entering value minus the leaving value, over the width |
| Rolling.RollingBounds | main.py:124 | rolling means of values in [lo, hi] (or NaN) are in [lo, hi] (or NaN) |
| Rolling.RollingPositive | main.py:124 | rolling means of positive values (or NaN) are positive (or NaN) |
| Rolling.YearSharesExact | main.py:123 | the shares grouped under a year are exactly the shares of that year's rows, in table order |
| Rolling.MeanShareByYear | main.py:123 | one entry per year of the prize-count series, each the skip-NaN mean of the shares of exactly that year's rows |
| Rolling.MeanShareByYearNaN | main.py:123 | a year's mean share is NaN iff every row of that year has a missing share; otherwise, with no infinite share, it is the sum of its finite shares over their number |
| Rolling.RollingShare | main.py:124 | NaN for the first four years; from the fifth on, NaN iff one of the five yearly mean shares is NaN |
| Rolling.RollingShareUnitInterval | main.py:123-124 | with every share in (0, 1] or missing, the rolling mean share of every year is in (0, 1] or NaN |
| Cumulative.KeyShape | main.py:197 | every (country, year) group key pairs a country name with a year that occur together in some row |
| Cumulative.CumulativePrizes | main.py:197-202 | one row per (country, year) group, in group order, carrying that group's country and year |
| Cumulative.CumulativeEntries | main.py:197-202 | the cumulative table has a row for (c, y) iff some record has birth country c and year y |
| Cumulative.CumulativeIsRunningTotal | main.py:201 | the cumulative value at (c, y) is the number of rows with birth country c, a year up to y and a prize |
| Cumulative.CumulativeNonDecreasing | main.py:201 | within one country the years increase and the cumulative value never decreases |
| Cumulative.CumulativeEndsAtTotal | main.py:201-202 | a country's last cumulative value is its total number of prizes |
| Ages.WinningAge | main.py:253-254 | the age is present iff both the year and the birth date are, and then the birth year plus the age is the award year |
| Ages.AgeColumn | main.py:253-254 | each row's age is present iff its year and birth date are, and then the birth year plus the age is the award year |
| Ages.Extreme | main.py:258-259 | nlargest/nsmallest with n=1 find nothing iff every age is missing; otherwise no age beats the row found, and it is the first row with that age |
| Ages.Oldest | main.py:258 | nothing iff no row has an age; otherwise a row whose age no row exceeds, and no earlier row has that age |
| Ages.Youngest | main.py:259 | nothing iff no row has an age; otherwise a row whose age no row undercuts, and no earlier row has that age |
| Ages.OldestYoungest | main.py:258-259 | the oldest and youngest winners exist iff some row has an age, and their ages bound every row's age from above and below |
| Frame.PrizeFrame.constructor | main.py:8 | the frame holds the loaded records and no derived column yet |
| Frame.PrizeFrame.AddSharePct | main.py:40-41 | on success `share_pct` holds each row's share and nothing else changes; on failure the frame is unchanged and the error is returned |
| Frame.PrizeFrame.AddWinningAge | main.py:253-254 | `winning_age` holds each row's age, present iff year and birth date are, and nothing else changes |
| Frame.PrizeFrame.OldestWinner | main.py:258 | read off the assigned `winning_age` column, it finds nothing iff no row has an age, and otherwise a row of the greatest age |
| Frame.PrizeFrame.YoungestWinner | main.py:259 | read off the assigned `winning_age` column, it finds nothing iff no row has an age, and otherwise a row of the least age |

## Left out

- Reading the CSV file (main.py:8). The table is given as a sequence of records.
- Console display (`head`, `tail`, `info`, `print`, the float format at main.py:7, `describe` at main.py:264). It is display only.
- All plotly, matplotlib and seaborn charts. They are rendering with nothing to compute. This includes main.py:167-168, which restyle `category_bar` where `country_bar` was evidently meant; that slip affects only the display.
- `pd.to_datetime` (main.py:35). Its accepted formats live inside pandas, so the birth date is given already parsed as a `Date`.
- The `nan_df` selection (main.py:31), the `value_counts` tables (main.py:45, 73) and the female and economics filters (main.py:57, 81). They are printed or charted only, and reuse the masking and counting modelled here.
- The ISO group-by (main.py:171-172). It is one more counting group-by, covered by `GroupBy.GroupCount`, and its sorted result is discarded.
- The in-place sorts (main.py:87, 181, 188) and `reset_index` (main.py:202) are modelled on values: each sort is `Ranking.SortBy` of the group list, and the reset index is the flat `Running` row.
- Floating-point rounding. Shares and means are exact rationals.
- Share.ParseNumber: accepts only unsigned decimal digit strings. `pd.to_numeric` also takes signs, decimal points, exponents and surrounding blanks, none of which the `prize_share` column contains. An empty part (the side of a "/" with nothing on it) is modelled as pandas treats it, as NaN (`Share.ToNum`).
- Numbers.WindowMean: a window holding an infinite value is taken to average to infinity. pandas computes rolling means with a running sum, and what that gives for windows after an infinity has left them is not modelled.
- Ranking.SortBy: pandas sorts a single column with an unstable quicksort, so the order among equal counts is not modelled. The model fixes one order and proves only what holds for every order: ascending and a permutation.
- Merge.CountryCategoryTopBounded: the order of merged rows with equal totals is not stated, for the same reason.
