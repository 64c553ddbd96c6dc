# Police check-post ledger: cleaning pipeline and dashboard queries

This project models the two pieces of logic in the police check-post ledger
that decide what ends up in the `checkpost_stops` table and what the
dashboard asks of it.

- **`etl_process.py`** reads a CSV of traffic stops into a data frame and
  cleans it column by column:
  - it normalises the header names;
  - it parses the dates and times;
  - it resolves the driver's age from whichever age column is present;
  - it maps boolean spellings through a fixed lookup table;
  - it derives a violation category from the raw violation text by keyword rules;
  - it fills missing text with "Unknown".

  It then completes the frame to the sixteen table columns, projects each row
  to those columns in table order, and inserts the rows with one positional
  INSERT statement.
- **`streamlit_app.py`** builds the filtered browse query from a date range
  and four optional select-box filters. Its analytics queries put each stop
  into an age group, a duration midpoint and a day or night period with SQL
  `CASE` expressions.

## Files

- **`Values.dfy`** (module `Values`) holds the cells of a data frame: `Null`,
  text, integer, boolean, date and time of day. `Show` is Python's `str()`
  of a cell.
- **`Text.dfy`** (module `Text`) holds the Python string operations the
  source calls: `strip` (Python's full whitespace set), `lower` and `title`
  (ASCII letters) and substring `in`. It also holds two helpers of the model:
  `Join`, used to spell the INSERT statement's literal column and marker
  lists, and a count of `%s` markers.
- **`Etl.dfy`** (module `Etl`) models the cleaning script.
  - The frame is a class `Frame` whose methods update the column names and
    the column data in place, as the script's statements do.
  - Each step is proved equal to a pure function of the old frame: `Convert`,
    `Derive`, `AgeStep`, `BoolStep`, `ViolationStep`, `FillStep` and
    `Completed`.
  - The projection to rows is `Rows` of the completed frame.
  - Lemmas about those functions state what the script promises.
- **`Dashboard.dfy`** (module `Dashboard`) models the dashboard.
  - The browse query is built by methods, as in the source: the query text
    grows and parameters are appended, step by step.
  - The methods are proved equal to reference functions, `BrowseText` and
    `BrowseArgs`, of the filters that are switched on.
  - The `CASE` classifiers are functions over SQL's three truth values.

## Model

| member | source | states |
|---|---|---|
| Text.Strip | etl_process.py:14 | `str.strip()`: the result is the slice of the text that starts where the leading whitespace ends. Everything cut before and after it is whitespace, and the result neither starts nor ends with whitespace |
| Text.Lower | etl_process.py:46 | `str.lower()` for ASCII: the same length, each character replaced by its lower-case form |
| Text.Title | etl_process.py:51 | `str.title()` for ASCII: a character is upper-cased at the start or after a non-letter, and lower-cased after a letter. Only case changes, so lower-casing the result gives the lower-cased input |
| Values.NatToString | etl_process.py:46 | decimal digits only, reading back as the number; the first digit is "0" only for zero, which is exactly "0" |
| Values.Show | etl_process.py:46-51 | `str(s)`: text is its own `str` and a missing value reads "None". An integer is an optional minus sign, present exactly for a negative value, followed by digits that read back as its magnitude |
| Etl.NormaliseName | etl_process.py:14 | a normalised name has no upper-case letter and no whitespace at either end |
| Etl.NormaliseNameIdempotent | etl_process.py:14 | normalising a header name twice gives the same name as normalising it once |
| Etl.Frame.NormaliseHeaders | etl_process.py:14 | every column name is replaced by its stripped, lower-cased form; the data is untouched |
| Etl.ParsedDay | etl_process.py:17-18 | a coerced date cell is null exactly when the parser rejects the raw cell, and the parsed date otherwise |
| Etl.ParsedClock | etl_process.py:21-22 | a coerced time cell is null exactly when the parser rejects the raw cell, and the parsed time of day otherwise |
| Etl.Numeric | etl_process.py:25-28 | a coerced age cell is null exactly when the raw cell is not a number, and that number otherwise |
| Etl.ConvertSpec | etl_process.py:17-22 | converting a present column maps each of its cells through the converter; every other column is unchanged |
| Etl.Frame.ConvertColumn | etl_process.py:17-22 | the in-place conversion of a column, if present, equals `Convert` of the old frame; names and height are unchanged |
| Etl.ParsedSpec | etl_process.py:17-22 | after the two parse steps `stop_date` holds the parsed dates and `stop_time` the parsed times, cell by cell; other columns are unchanged |
| Etl.DeriveSpec | etl_process.py:26 | a derived column is added last and is the source column mapped cell by cell; existing columns keep their position and cells |
| Etl.Frame.DeriveColumn | etl_process.py:26 | adding a derived column in place equals `Derive` of the old frame |
| Etl.AgeStepSpec | etl_process.py:25-28 | `driver_age` is derived from `driver_age_raw` exactly when only the raw column exists, and is coerced in place when it exists itself; with neither, no column is created; no other column changes |
| Etl.Frame.ResolveAge | etl_process.py:25-28 | the in-place age step equals `AgeStep` of the old frame |
| Etl.NormaliseBool | etl_process.py:32-36 | a cell maps to true exactly when it is one of the seven true spellings, to false exactly for the seven false spellings, and to null for anything else, null included |
| Etl.BoolStepSpec | etl_process.py:31-40 | each present boolean column becomes the mapper's image of its cells, so it holds only booleans and nulls; every other column is unchanged |
| Etl.Frame.NormaliseBooleans | etl_process.py:38-40 | the loop over `bool_cols` leaves the frame's data equal to `BoolStep` of the old data; names unchanged |
| Etl.MapViolation | etl_process.py:45 | a null value maps to "Unknown" |
| Etl.FirstMatch | etl_process.py:47-50 | the result is the label of a rule that fires with no earlier rule firing, and is absent exactly when no rule fires |
| Etl.MapViolationIsFirstMatch | etl_process.py:44-51 | a non-null value gets the label of the first keyword rule that fires on its lower-cased text, otherwise its stripped, title-cased text |
| Etl.ClassifyTextIsFirstMatch | etl_process.py:46-51 | the same statement, for the text `str(s)` |
| Etl.MapViolationLabelIffKeyword | etl_process.py:44-51 | a non-null value maps to one of the four category labels if and only if its lower-cased text contains one of the five keywords |
| Etl.ClassifyLabelIffKeyword | etl_process.py:46-51 | the same statement, for the text `str(s)` |
| Etl.FallbackIsNoLabel | etl_process.py:51 | text without any keyword never title-cases into one of the four labels |
| Etl.LabelHoldsKeyword | etl_process.py:47-50 | every label is the category of a rule that fires on the lower-cased label, so the label contains a keyword of its own rule and hence one of the five keywords |
| Etl.SpeedingBeforeDui | etl_process.py:47-48 | text containing both "speed" and "dui" is classified as speeding |
| Etl.ViolationCell | etl_process.py:52 | a derived violation cell is text. It is "Unknown" for a missing raw value. Otherwise it is one of the four category labels exactly when the raw text, lower-cased, holds a keyword |
| Etl.ViolationStepSpec | etl_process.py:43-52 | `violation` is added, holding the category of each raw cell, exactly when `violation_raw` is present and `violation` absent; otherwise the frame is unchanged; existing columns never change |
| Etl.Frame.DeriveViolation | etl_process.py:43-52 | the in-place violation step equals `ViolationStep` of the old frame |
| Etl.FillCell | etl_process.py:60 | a filled cell is never null; a present cell is kept; a missing cell becomes "Unknown" |
| Etl.FillStepSpec | etl_process.py:55-60 | each cell of a present text column is `fillna('Unknown')` of the old cell: a missing cell becomes "Unknown", a present one is unchanged, so no null is left; columns outside `text_cols` are unchanged |
| Etl.Frame.FillText | etl_process.py:58-60 | the loop over `text_cols` leaves the frame's data equal to `FillStep` of the old data; names unchanged |
| Etl.ColumnListsDisjoint | etl_process.py:31-56 | no boolean column is a text column, and the date, time and age columns are in neither list |
| Etl.AgedSpec | etl_process.py:17-28 | after parsing and the age step, the frame has the normalised header plus `driver_age` when it was derived; date, time and age columns hold values of their type or nulls |
| Etl.DerivedSpec | etl_process.py:30-52 | after the boolean and violation steps the boolean columns hold only booleans and nulls, and non-boolean columns are as the age step left them |
| Etl.CleanedShape | etl_process.py:14-60 | after cleaning a column exists exactly when it came from the file or was derived, and `violation` exists wherever `violation_raw` does |
| Etl.CleanedCells | etl_process.py:30-60 | after cleaning, boolean columns hold only booleans and nulls, and no text column has a missing cell |
| Etl.CleanedTyped | etl_process.py:16-60 | after cleaning, `stop_date`, `stop_time` and `driver_age` hold only dates, times and integers respectively, or nulls |
| Etl.CleanedSpec | etl_process.py:14-60 | the conjunction of the three statements above |
| Etl.BooleansSurviveDerive | etl_process.py:43-52 | the violation step keeps the boolean columns' booleans-or-null property |
| Etl.Frame.Clean | etl_process.py:14-60 | the cleaning statements run in place in their order equal `Cleaned` of the normalised header and the old data |
| Etl.Missing | etl_process.py:114-116 | the columns the completion adds are exactly the listed names that are not columns yet |
| Etl.MissingStep | etl_process.py:114-116 | one more round of the completion loop adds at most its own name |
| Etl.CompletedStep | etl_process.py:114-116 | a round adds its name, as a column of nulls, exactly when the name was not already a column |
| Etl.CompletedSpec | etl_process.py:113-116 | after completion every listed column exists; existing columns keep their position and cells; each added column is entirely null |
| Etl.Frame.AddMissing | etl_process.py:114-116 | the completion loop over distinct names leaves the frame equal to `Completed` of the old frame |
| Etl.Frame.CompleteColumns | etl_process.py:113-116 | the same, for the loop over `sql_columns` |
| Etl.ColumnListsDistinct | etl_process.py:106-111 | neither `bool_cols`, `text_cols` nor `sql_columns` names a column twice |
| Etl.RowsSpec | etl_process.py:119-129 | the positional INSERT stores each projected cell in the table column of the same name. There is one row per frame row, with one cell per INSERT column and per table column. Cell `k` of row `i` is row `i` of the frame column named by the `k`-th INSERT column, which is also the `k`-th table column |
| Etl.LoadSpec | etl_process.py:106-121 | every loaded row has 16 cells. A column the file did not provide is null throughout; otherwise the cell is the cleaned cell. Boolean cells are booleans or null. Provided text columns have no null |
| Etl.Prepare | etl_process.py:14-121 | running the frame's cleaning and completion in place and projecting gives exactly the rows `Load` describes |
| Etl.InsertMatchesTable | etl_process.py:79-129 | the INSERT column list equals `sql_columns`, and both agree position by position with the CREATE TABLE columns after `id` |
| Etl.InsertPlaceholders | etl_process.py:123-129 | the INSERT statement holds exactly 16 `%s` placeholders, one per projected cell |
| Dashboard.Selected | streamlit_app.py:104-115 | a filter is kept exactly when it is one of the given filters and its selection is not "All" |
| Dashboard.SelectedFour | streamlit_app.py:104-115 | of four filters, given in the source's order gender, violation, search_conducted, country, each is kept exactly when its selection is not "All", and the kept ones stay in that order |
| Dashboard.SearchFlagValue | streamlit_app.py:112 | the search parameter is 1 exactly when the selection is "True" and 0 otherwise |
| Dashboard.FilteredQuery | streamlit_app.py:101-116 | the query text and parameters built step by step equal the reference text and arguments of the filters that are not "All", in the fixed order |
| Dashboard.Narrow | streamlit_app.py:104-115 | one filter block turns the query and parameters for a list of filters into those for the list extended by that filter when it is on, and leaves them unchanged when it is "All" |
| Dashboard.BrowseQuery | streamlit_app.py:101-118 | once the button is pressed, the filtered text and its parameters are run; otherwise the fixed unfiltered query runs with no parameters |
| Dashboard.AddFilter | streamlit_app.py:104-115 | a switched-on filter appends exactly one clause naming its column and exactly one parameter, its own; a filter on "All" appends nothing |
| Dashboard.BrowseTextShape | streamlit_app.py:101-117 | the filtered query starts with the date-range query, ends with the ordering and limit suffix, and holds the clauses in between |
| Dashboard.BrowseArgsSpec | streamlit_app.py:101-115 | the first two parameters are the start and end dates; there is one more per filter not on "All"; the search filter contributes its 1/0 value; with every filter on "All" the query is the date range plus the suffix |
| Dashboard.DateRangePlaceholders | streamlit_app.py:101 | the date-range query holds exactly two placeholders |
| Dashboard.ClausePlaceholders | streamlit_app.py:104-115 | a filter clause holds exactly one placeholder |
| Dashboard.ClausesPlaceholders | streamlit_app.py:104-115 | the clauses hold exactly one placeholder per switched-on filter |
| Dashboard.BrowsePlaceholders | streamlit_app.py:101-117 | for any filters that are switched on, the filtered query holds exactly as many placeholders as it has parameters |
| Dashboard.BrowseQueryPlaceholders | streamlit_app.py:101-117 | for every combination of the four selections, placeholders and parameters match one for one |
| Dashboard.UnfilteredPlain | streamlit_app.py:118 | the unfiltered query holds no placeholder, matching its empty parameter list |
| Dashboard.ClausesIgnoreValues | streamlit_app.py:104-115 | the clauses depend only on the filters' columns |
| Dashboard.TextIgnoresValues | streamlit_app.py:104-115 | two sets of selections that switch on the same filters give the same query text, so selected values only travel as parameters |
| Dashboard.SelectedSameColumns | streamlit_app.py:104-115 | filters on the same columns switched on alike select filters on the same columns |
| Dashboard.AgeGroup | streamlit_app.py:155-157 | "Under 20" iff the age is known and below 20; "20-29" iff 20 to 29; "30-39" iff 30 to 39; "40+" iff the age is NULL or at least 40 |
| Dashboard.DurationMidpoint | streamlit_app.py:181-185 | 7.5 iff "0-15 Min", 23.0 iff "16-30 Min", 45.0 iff "30+ Min", NULL iff anything else, NULL included |
| Dashboard.Period | streamlit_app.py:190-192 | daytime iff the hour is known and 6 <= hour < 18; night time otherwise, a NULL time included |

## Left out

- CSV reading, the MySQL connection, `CREATE DATABASE`/`DROP TABLE`,
  `executemany`, `commit` and the dashboard's connection pool are I/O. The
  model stops at the row list and statement text handed to the database,
  and at the query text and parameters handed to `run_query`.
- `pd.to_datetime` and `pd.to_numeric` are library parsers. They are
  parameters of type `Cell -> Option<T>`: a parse or a null for an
  unparseable cell.
- Text.Lower and Text.Title map ASCII letters only, not Python's full
  Unicode case tables. So `Etl.NormaliseName` (line 14) and
  `Etl.ClassifyText`/`Etl.MapViolation` (lines 46 and 51) are modelled for
  ASCII letters.
- Floating-point cells are not modelled. A numeric age is an integer, and
  NaN, NaT and `None` are all the one `Null` cell. For that reason the
  `.where(pd.notnull(df), None)` replacement is the identity here.
- Python's dictionary makes the keys `1`/`True` and `0`/`False` one key.
  The model keeps them apart; they carry the same value, so no lookup
  changes.
- A column is looked up at the first position bearing its name. The
  behaviour of pandas on names duplicated after header normalisation is not
  modelled.
- SQL execution is database behaviour and is not modelled: string
  collation, `BETWEEN` on dates, `ORDER BY`/`LIMIT`, and the `GROUP BY`,
  `COUNT`, `AVG`, `ROUND` and window aggregates around the `CASE`
  expressions. A text comparison is exact equality.
- All Streamlit widgets, the `DISTINCT` option lists feeding the select
  boxes, metrics, charts and tabs are UI. The selections reach the model as
  plain strings.
