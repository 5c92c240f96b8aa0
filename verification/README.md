# Daily COVID-19 cases and deaths by US county: dataset builder model

This Dafny project models `NYTimesCovid19DailyCasesDeathsByCountiesData.create_data`. That recipe does the following:

1. Reads the New York Times table of cumulative COVID-19 cases and deaths per US county and date.
2. Joins the county populations from the 2019 census estimates on a five-digit `fips` key.
3. Deletes the rows that find no population.
4. Lags each count by one day within each (state, county) group and fills the missing lags with 0.
5. Turns the cumulative counts into daily counts and deletes the lag columns.
6. Sets negative daily cases and deaths to 0.
7. Splits the rows at a split date into a training table and a test table. The test table holds the rows dated after the split date. With at least eight distinct dates, these are the last seven dates. With fewer, it is every date but the earliest.
8. Returns both tables under names that carry the split date and the test date.

Modules:

- `Format` covers Python's `"{:0Nd}"` integer formatting and the digit parsing that reads the result back.
- `Fips` builds the `fips` key from the census STATE and COUNTY codes. It also sets that key on the population table, which fails on a repeated key.
- `Seqs` holds the order-preserving row filter used by the row deletion and by the train/test selection.
- `Counties` defines the row datatype and one function per table-wide step: the join, the deletion, the lag, the fill, the differences, the column deletion and the clamp. Each step has a lemma saying that rows hold values only in columns the table has.
- `LagFacts` states what the lag, fill and difference steps compute for each row. It states this against the group order, not against the scan that finds the previous row.
- `Frame` holds the class `CountiesFrame`. Its fields are the column list and the rows, and it has one mutating method per in-place statement of the recipe.
- `Split` chooses the distinct dates, the split date and the test date, the train and test rows, and the returned names.
- `Pipeline` contains `CreateData`. It runs the whole build over the frame. `Build` is its specification function.

Representation choices:

- NA is `None`.
- A date is the number `yyyymmdd`, so numeric order is the order of the ISO dates. `DateText` renders it as `yyyy-mm-dd` in the returned names.
- Per-100k values are exact reals.
- A column the table does not have yet reads as NA in every row.
- The in-place statements are whole-column operations, so the methods assign the new rows and columns without loops.

The recipe can fail in three ways, and the model returns each as `Failure`:

- An empty census table has no `fips` column: the row-wise `apply` returns its input unchanged, so the rename finds no column 0 or 1, and setting the key fails. This is `NoFipsColumn`.
- Setting `fips` as the key of a population table that holds a repeated key fails. This is `FipsNotUnique`.
- Reading the first of the distinct dates of an empty table fails. This is `NoDates`.

## Model

| member | source | states |
|---|---|---|
| Format.FormatInt | data/nytimes_covid19_cases_deaths_by_counties.py:47 | A non-negative number is written in decimal digits that parse back to it. A negative number gets a `-` sign followed by digits that parse back to its magnitude. The text is zero-filled to `width` characters, sign included, and is never shorter than the sign and digits of the number. |
| Fips.DecodeFips | data/nytimes_covid19_cases_deaths_by_counties.py:47 | A key decodes exactly when it is five decimal digits. It then gives a state code below 100 and a county code below 1000. |
| Fips.FipsKeyRoundTrip | data/nytimes_covid19_cases_deaths_by_counties.py:47 | For in-range codes, the key is five digits and decodes back to the (state, county) pair it was built from. |
| Fips.FipsKeyInjective | data/nytimes_covid19_cases_deaths_by_counties.py:47 | Two in-range code pairs share a key exactly when they are equal. |
| Fips.PopIndexSpec | data/nytimes_covid19_cases_deaths_by_counties.py:50-51 | Keying the population table succeeds exactly when no two records share a fips, and a failure names a repeated fips. On success the keys are exactly the records' fips, and each maps to its record's estimate. |
| Counties.WithNames | data/nytimes_covid19_cases_deaths_by_counties.py:56 | An update keeps the existing columns in place and in order. Afterwards the table has exactly the old names plus the new ones. |
| Counties.JoinRow | data/nytimes_covid19_cases_deaths_by_counties.py:53-56 | A row gets a population exactly when its fips is present and keyed, and it is that key's estimate. Then `pop100k * 10000 == pop`, `cases100k * pop == cases * 100000` and likewise for deaths. Otherwise all four new columns are NA, and every other column is unchanged. |
| Pipeline.MatchedRowsJoined | data/nytimes_covid19_cases_deaths_by_counties.py:53-59 | After the join and the deletion, every remaining row has the population keyed under its fips and both per-100k counts. No rows are added, and their order is kept. |
| Pipeline.MatchedRowsCount | data/nytimes_covid19_cases_deaths_by_counties.py:58-59 | Every row stays exactly when every row's fips is keyed. No row stays exactly when none is. |
| Seqs.Filter | data/nytimes_covid19_cases_deaths_by_counties.py:59 | The kept rows are exactly the rows that satisfy the test, and there are no more of them than before. |
| Seqs.FilterKeepsAll | data/nytimes_covid19_cases_deaths_by_counties.py:59 | A selection keeps its full length exactly when every row satisfies the test, and then it is the whole table. |
| Frame.CountiesFrame.constructor | data/nytimes_covid19_cases_deaths_by_counties.py:39-40 | The table as read has the six columns of the case/death file and one row per observation. |
| Frame.CountiesFrame.Join | data/nytimes_covid19_cases_deaths_by_counties.py:54-56 | The update adds the four join columns and keeps the row count. Row i has a population exactly when its fips is keyed. |
| Frame.CountiesFrame.DeleteUnmatched | data/nytimes_covid19_cases_deaths_by_counties.py:58-59 | The remaining rows are exactly the old rows whose pop is not NA, in their old order. |
| Counties.LatestBefore | data/nytimes_covid19_cases_deaths_by_counties.py:61-64 | The row the grouped shift reads is in the same group and before the row in stable date order. It is the latest such row. It is absent exactly when no such row exists. |
| LagFacts.PreviousIsPredecessor | data/nytimes_covid19_cases_deaths_by_counties.py:63-64 | The shift reads row j exactly when j is the row's predecessor in its group. |
| LagFacts.NoPreviousIffFirst | data/nytimes_covid19_cases_deaths_by_counties.py:63-64 | The shift reads nothing exactly when the row is first in its group. |
| LagFacts.ChronologicalPredecessor | data/nytimes_covid19_cases_deaths_by_counties.py:64 | When dates are distinct within each group, the predecessor is the group's row with the latest earlier date. |
| LagFacts.ChronologicalFirst | data/nytimes_covid19_cases_deaths_by_counties.py:64 | When dates are distinct within each group, the group's first row is its earliest-dated row. |
| Frame.CountiesFrame.ShiftLags | data/nytimes_covid19_cases_deaths_by_counties.py:61-64 | The update adds the four yesterday columns, with rows keeping their positions. |
| LagFacts.LagLockstep | data/nytimes_covid19_cases_deaths_by_counties.py:63-68 | The four yesterday values are NA together, exactly for a group's first row. So the fill's test on `cases_yesterday` alone covers all four. |
| Frame.CountiesFrame.FillMissingLags | data/nytimes_covid19_cases_deaths_by_counties.py:66-68 | After the fill no row has an NA `cases_yesterday`, and the columns are unchanged. |
| LagFacts.FirstRowDaily | data/nytimes_covid19_cases_deaths_by_counties.py:66-72 | A group's first row gets 0 in all four yesterday columns. So its daily values equal its own cumulative values. |
| LagFacts.LaterRowDaily | data/nytimes_covid19_cases_deaths_by_counties.py:70-72 | Every other row's daily values are its values minus those of its group predecessor. |
| Frame.CountiesFrame.Differentiate | data/nytimes_covid19_cases_deaths_by_counties.py:70-72 | The update adds the four daily columns, with rows keeping their positions. |
| Frame.CountiesFrame.DeleteLagColumns | data/nytimes_covid19_cases_deaths_by_counties.py:74-76 | The remaining columns are exactly the old columns other than the four yesterday columns. |
| Pipeline.OutputColumnsSpec | data/nytimes_covid19_cases_deaths_by_counties.py:54-76 | The final columns are exactly the case/death columns, the join columns and the daily columns. No yesterday column remains. |
| Counties.ClampRow | data/nytimes_covid19_cases_deaths_by_counties.py:78-80 | A negative daily cases value sets it and `cases100k_daily` to 0, and otherwise both are kept. The same holds for deaths. Every other column is unchanged, and neither daily count is negative afterwards. |
| Frame.CountiesFrame.ClampNegatives | data/nytimes_covid19_cases_deaths_by_counties.py:78-80 | After both masked assignments no row has a negative daily cases or deaths value. |
| Pipeline.PreparedKeepsRow | data/nytimes_covid19_cases_deaths_by_counties.py:61-80 | Row i of the output differs from matched row i only in its four daily columns. Date, group, fips, counts, population and per-100k counts reach the output unchanged, and no lag value remains. |
| Pipeline.PreparedRowsSpec | data/nytimes_covid19_cases_deaths_by_counties.py:61-80 | There are as many prepared rows as matched rows, and each keeps its matched row's values outside the daily columns. Every prepared row has present, non-negative daily cases and deaths and present per-100k daily values. It holds no yesterday value. |
| Pipeline.MatchedRowsPer100k | data/nytimes_covid19_cases_deaths_by_counties.py:53-59 | Every remaining row has its keyed population. Its per-100k counts times that population equal its counts times 100000. |
| Pipeline.Per100kDailyCanBeNegative | data/nytimes_covid19_cases_deaths_by_counties.py:55-80 | For one group whose rows carry two populations, the clamp leaves a daily case count of 2 beside a per-100k daily value of -4. |
| Pipeline.FirstRowPer100kNonNegative | data/nytimes_covid19_cases_deaths_by_counties.py:66-80 | With positive populations, a group's first row has non-negative per-100k daily values. |
| Pipeline.LaterRowPer100kNonNegative | data/nytimes_covid19_cases_deaths_by_counties.py:70-80 | With positive populations, a later row sharing its predecessor's population has non-negative per-100k daily values. |
| Pipeline.Per100kDailyNonNegative | data/nytimes_covid19_cases_deaths_by_counties.py:55-80 | When every population is positive and each group carries one population, every prepared row's per-100k daily values are present and non-negative. |
| Pipeline.FirstRowFinal | data/nytimes_covid19_cases_deaths_by_counties.py:66-80 | In the end, a group's first row has its own cumulative values as daily values. A negative count becomes 0, and so does its 100k partner. |
| Pipeline.LaterRowFinal | data/nytimes_covid19_cases_deaths_by_counties.py:61-80 | In the end, any other row has the change since its group predecessor. When the raw count went down, the value and its 100k partner are 0. |
| Pipeline.PrepareFrame | data/nytimes_covid19_cases_deaths_by_counties.py:53-80 | The in-place steps run in the recipe's order. They leave the frame consistent, with the prepared rows and the output columns. |
| Split.UniqueDates | data/nytimes_covid19_cases_deaths_by_counties.py:83 | The distinct dates are strictly increasing and are exactly the dates of the rows. |
| Split.ChooseDatesDefined | data/nytimes_covid19_cases_deaths_by_counties.py:83-85 | The split and test dates exist exactly when the table has rows. |
| Split.TestDateIsLatest | data/nytimes_covid19_cases_deaths_by_counties.py:85 | test_date is a date of the table and no row is later. |
| Split.SplitDateRank | data/nytimes_covid19_cases_deaths_by_counties.py:84 | split_date is a date of the table, no later than test_date. When there are more than horizon distinct dates, exactly horizon of them lie after it. Otherwise it is the earliest date. |
| Split.SplitPartitions | data/nytimes_covid19_cases_deaths_by_counties.py:87-90 | Train and test together hold every row exactly as often as the table does. A row goes to train exactly when its date is on or before the split date, and to test otherwise. Both keep table order. |
| Split.TestEmptyIff | data/nytimes_covid19_cases_deaths_by_counties.py:84-90 | The test table is empty exactly when the split date is the test date. |
| Split.DateTextRoundTrip | data/nytimes_covid19_cases_deaths_by_counties.py:93-94 | A date in a name is written `yyyy-mm-dd` with digit fields that read back as the date. |
| Split.NamesDiffer | data/nytimes_covid19_cases_deaths_by_counties.py:93-94 | The train name and the test name never coincide. |
| Split.Datasets | data/nytimes_covid19_cases_deaths_by_counties.py:92-94 | There is no result exactly for an empty table. Otherwise there are exactly two entries: the train rows under the split-date name and the test rows under the test-date name. |
| Pipeline.BuildFailures | data/nytimes_covid19_cases_deaths_by_counties.py:47-85 | The build fails for want of a fips column exactly when the census table is empty. It fails on a repeated key exactly when two census records share a fips. It fails for lack of dates exactly when the census table is non-empty, its key is unique, and no case/death row's fips is keyed. |
| Pipeline.BuildSpec | data/nytimes_covid19_cases_deaths_by_counties.py:82-94 | A successful build returns two tables named after split_date ≤ test_date, with the output columns. Together they are a partition of the prepared rows by the split date, each in table order, with non-negative daily counts. |
| Split.DatasetsFit | data/nytimes_covid19_cases_deaths_by_counties.py:87-94 | When the table holds values only in its listed columns, so do both returned tables. |
| Pipeline.CreateData | data/nytimes_covid19_cases_deaths_by_counties.py:22-94 | The method returns `Build`'s result. It fails for want of a fips column exactly when the census table is empty, on a repeated fips exactly when the census keys repeat, and for lack of dates exactly when no row matches. On success it returns two tables, each holding values only in its listed columns. |

## Left out

- Downloading and parsing the two CSV files, and the conversions to and from pandas, are not modelled. The two tables are inputs: `Observation` rows and `PopRecord` rows (STATE, COUNTY, POPESTIMATE2019).
- Floating point is not modelled: the per-100k values are exact reals.
- A zero population estimate would divide by zero. The model requires non-zero estimates (`NonZeroEstimates`, `NonZeroPopulations`) instead of modelling that division.
- NA values in the `cases` and `deaths` columns are not modelled. They are integers in every row, while `fips` may be NA.
- The datatable sort used by the grouped shift is modelled as a stable sort by date within each group. Rows with the same date keep their table order. The physical reordering the grouped update may cause is not modelled: rows keep their positions.
- The reordering of the population table by its key is not modelled, because nothing after the join depends on it.
- The text spelling-correction transformer, the host plugin base class and the union of return types the signature allows are not modelled. The spelling transformer is a thin wrapper around a third-party library, and the plugin class belongs to the host.
- Dates are modelled as `yyyymmdd` numbers, not as parsed date objects. `DateText` renders them for the returned names.

Two properties of the result are worth stating plainly:

- A group's first row keeps its cumulative values as its daily values, because its missing lags are filled with 0 (`LagFacts.FirstRowDaily`).
- The per-100k daily values are set to 0 only when the raw daily count is negative (`Counties.ClampRow`). So a per-100k daily value can be negative when the rows of one (state, county) group carry different populations. `Pipeline.Per100kDailyCanBeNegative` exhibits such an input: one group, with fips 01001 (population 100000, 10 cases) and then fips 01003 (population 200000, 12 cases), gets a daily case count of 2 and a per-100k daily value of -4. When every population is positive and each group carries one population, no per-100k daily value is negative (`Pipeline.Per100kDailyNonNegative`).
