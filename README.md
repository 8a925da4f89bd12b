# NBA Player Stats Explorer — model of the table logic

The program is a single Streamlit script (`basketball_data_insights.py`).
It scrapes a season's per-game player statistics from basketball-reference.com,
cleans the first table on the page, lets the user filter it by team and
position, and can draw a correlation heatmap. This project models the
script's data logic and proves what it does:

- the cleaning done by `load_data`: repeated header rows (an `Age` cell holding
  the text `"Age"`) are dropped, missing cells are filled with 0, and the `Rk`
  column is dropped;
- the in-place overwrite of the `Team` column with its text form;
- the sidebar's option lists: the seasons 2019 down to 1950 and the sorted
  distinct teams;
- the row filter on the selected teams and positions;
- the upper-triangle mask that hides half of the heatmap.

A table is a `seq` of rows (module `Frames`). A row is a `map` from column name
to `Cell`, and a cell is `Missing`, `Num(n)` or `Text(s)`. Steps that return a
new frame in the source are functions. The two steps that write into an existing
object are methods. `Coercion.CoerceTeamColumn` overwrites an `array` of rows.
`Heatmap.HeatmapMask` fills a freshly allocated `array2`. Each method is proved
against a specification function or states the mask's shape directly.

Modules:
`Seqs` covers boolean-mask filtering, `range`, `reversed` and the subsequence relation.
`StringOrder` covers Python's string order and `sorted` of distinct values.
`Frames` holds the data model.
`Cleaning` models `load_data`.
`Coercion` models the `Team` assignment.
`Sidebar` holds the option lists and the filter.
`Heatmap` builds the mask.

The script checks no season range and defines no error types of its own.
`fillna(0)` writes the number 0 into every missing cell, text columns included,
so the model writes `Num(0)`. A filled `Team` cell becomes the text of that
number only at the later `astype(str)`.

## Model

| member | source | states |
|---|---|---|
| `Cleaning.DropHeaderRows` | basketball_data_insights.py:24 | no surviving row has `Age` equal to `Text("Age")`; the result is a subsequence of the input (order kept); every non-header row keeps its multiplicity and header rows occur zero times; every non-header input row is in the result |
| `Cleaning.FillRow` | basketball_data_insights.py:25 | same columns; no cell is missing; missing cells become `Num(0)`; every other cell is unchanged |
| `Cleaning.FillMissing` | basketball_data_insights.py:25 | same number of rows, each with the same columns; no cell of the result is missing; missing cells become `Num(0)`; all other cells are unchanged |
| `Cleaning.DropColumn` | basketball_data_insights.py:26 | same number of rows; each row's columns are the old ones minus the dropped one; every remaining cell is unchanged |
| `Cleaning.LoadData` | basketball_data_insights.py:24-27 | the result is clean (no header row, no missing cell, no `Rk` column); it has exactly as many rows as survive the header drop, so no data row is lost; its i-th row is the i-th surviving raw row with missing cells filled and `Rk` removed |
| `Cleaning.LoadDataRows` | basketball_data_insights.py:24-26 | every non-header raw row appears, cleaned, in the result; every result row is a cleaned non-header raw row |
| `Coercion.ToText` | basketball_data_insights.py:31 | the result is text; text stays as is; a number becomes its rendering by the abstract `show`; a missing cell becomes `"nan"` |
| `Coercion.CoerceTeamRow` | basketball_data_insights.py:31 | same columns; the new `Team` cell is `ToText` of the old one, so it is text; every other column is unchanged; a row whose `Team` is already text is unchanged |
| `Coercion.CoerceTeam` | basketball_data_insights.py:31 | same row count and columns; every `Team` cell becomes `ToText` of the old cell, so it is text; other columns are untouched; rows whose `Team` was text are unchanged |
| `Coercion.CoerceTeamColumn` | basketball_data_insights.py:31 | overwriting the row array in place leaves it equal to `CoerceTeam` of its old contents |
| `Coercion.CoerceTeamIdempotent` | basketball_data_insights.py:28-31 | coercing twice equals coercing once, so rerunning line 31 on the cached table object changes nothing |
| `Coercion.CoerceTeamKeepsClean` | basketball_data_insights.py:24-31 | coercing `Team` keeps a cleaned table clean |
| `Seqs.Range` | basketball_data_insights.py:16 | `range(lo, hi)` has `hi - lo` entries (none if `hi <= lo`), the k-th being `lo + k` |
| `Seqs.Reverse` | basketball_data_insights.py:16 | same length; the k-th entry is the k-th from the end of the input |
| `Sidebar.DescendingYears` | basketball_data_insights.py:16 | `reversed(range(lo, hi))` holds `hi - 1 - k` at position k and exactly the years `lo <= y < hi` |
| `Sidebar.YearOptions` | basketball_data_insights.py:16 | the year list has 70 entries, starts at 2019, ends at 1950, holds 2019 - k at k, strictly decreases, and contains exactly the years 1950 to 2019 |
| `StringOrder.Less` | basketball_data_insights.py:34 | Python's `str` `<`: `a < b` exactly when some position k decides it, with both strings agreeing before k and either `a` ending at k while `b` goes on, or `a[k]` having the smaller code point. So the first differing code point decides, and a proper prefix is smaller |
| `StringOrder.LessTransitive` | basketball_data_insights.py:34 | Python's string order is transitive |
| `StringOrder.LessTotal` | basketball_data_insights.py:34 | any two distinct strings are ordered one way or the other |
| `StringOrder.NoRepeats` | basketball_data_insights.py:34 | a strictly increasing list holds no value twice, which is the de-duplication promised by `unique()` |
| `StringOrder.Insert` | basketball_data_insights.py:34 | adding a value to a strictly increasing list keeps it strictly increasing, and its elements become the old ones plus that value |
| `StringOrder.SortedUnique` | basketball_data_insights.py:34 | `sorted` of the distinct values is strictly increasing, repeats no value, and holds exactly the input's values |
| `Sidebar.TeamColumn` | basketball_data_insights.py:34 | a string is in the column exactly when some row's `Team` cell is that text |
| `Sidebar.TeamOptions` | basketball_data_insights.py:34 | on a table whose `Team` cells are text (as line 31 leaves it), the team list is strictly increasing, repeats no team, and its elements are exactly the `Team` texts of the table |
| `Sidebar.Positions` | basketball_data_insights.py:38 | the five position tags `C`, `PF`, `SF`, `PG`, `SG`, offered and selected by default |
| `Seqs.Filter` | basketball_data_insights.py:42 | a boolean-mask filter keeps only elements satisfying the mask, in order (a subsequence), and is no longer than its input |
| `Seqs.FilterCount` | basketball_data_insights.py:42 | a kept element occurs as often as in the input; a rejected one does not occur |
| `Sidebar.SelectRows` | basketball_data_insights.py:42 | the output is a subsequence of the input; every row in it has `Team` in the selected teams and `Pos` in the selected positions; it holds exactly those rows, each as often as in the input; it is no longer than the input |
| `Sidebar.DefaultTeamsSelectAll` | basketball_data_insights.py:34-42 | with every listed team selected (the widget's default), a coerced table loses rows only through the position condition |
| `Sidebar.DefaultSidebarSelection` | basketball_data_insights.py:34-42 | in the sidebar's initial state (all listed teams and the five tags `C`, `PF`, `SF`, `PG`, `SG` selected), a coerced table keeps exactly its rows whose `Pos` is one of those tags, in order |
| `Heatmap.RowPairs` | basketball_data_insights.py:72 | the pairs `(i, j')` with `j <= j' < n`, `n - j` of them |
| `Heatmap.TriuFrom` | basketball_data_insights.py:72 | the pairs `(a, b)` with `i <= a <= b < n`, `(n - i)(n - i + 1)/2` of them |
| `Heatmap.TriuIndices` | basketball_data_insights.py:72 | `np.triu_indices(n)` holds exactly the pairs with `i <= j < n`, `n(n + 1)/2` entries |
| `Heatmap.HeatmapMask` | basketball_data_insights.py:71-72 | a new n-by-n matrix whose entry (i, j) is set iff `i <= j`, so only the strictly lower triangle is left unmasked |

## Left out

- Streamlit presentation is not modelled: the title, markdown, sidebar widgets, table display, button and error message (basketball_data_insights.py:8-15, 35, 39, 44-46, 56, 59-66). The widget selections are plain parameters of `Sidebar.SelectRows`.
- The network fetch and `pd.read_html` parsing (basketball_data_insights.py:21-23) are I/O and a foreign library. The parsed first table is the input of `Cleaning.LoadData`.
- The `@st.cache_resource` memoisation (basketball_data_insights.py:19) is a library decorator and is not modelled. Its one visible consequence, that line 31 rewrites the same cached object on every rerun, is covered by `Coercion.CoerceTeamIdempotent`.
- `filedownload` (basketball_data_insights.py:50-54) is not modelled: CSV serialisation and base64 are library calls.
- Numeric-column selection, correlation and plotting (basketball_data_insights.py:63, 68, 74-87) are not modelled. They involve dtype inspection, floating-point statistics and rendering. The mask's size `n` (the number of numeric columns) is a parameter.
- Cleaning.LoadData: pandas raises an exception when the table has no `Age` or no `Rk` column at all. Rows are maps here, so there is no table-wide column set. A row without `Age` is kept, as `NaN == 'Age'` is false, and a row without `Rk` is left as it is.
- Coercion.CoerceTeam: pandas raises when there is no `Team` column. Here a row without that key is left unchanged.
- Coercion.ToText: `str` of a number is the parameter `show` and is not defined here. `str(NaN)` is modelled as `"nan"`.
- Numbers in cells are unbounded integers. Nothing computes on them, so floating point is not modelled.
- `df.drop(...index)` drops rows by index label. The parsed table has a fresh unique index, so this is modelled as removing exactly the header rows.
- Heatmap.HeatmapMask: `np.zeros_like(corr)` is a float matrix, and `True` is stored in it as 1.0. The model uses a `bool` matrix.
