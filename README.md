# Skyscraper dashboard: the data pipeline, modelled and proved in Dafny

`finalproject.py` is a Streamlit dashboard over a CSV of skyscrapers. Under
its widgets and charts sits a small pipeline over one in-memory table, and
that pipeline is what this project models:

- the load-time clean-up, which drops rows without a positive height or without a city and turns the city column into strings;
- the tallest-first sort;
- `completed_df`, which keeps the completed buildings and shows year 0 as "Unknown";
- the city drop-down (`city_options`) and where it opens (`default_index`);
- the sidebar's name lookup;
- `get_tallest_skyscrapers` and its two calls on page two;
- page one's city filter and its average height per completion year;
- the map page's city and height-range filter.

Heights are `real`, strings are `seq<char>`, and the table is a sequence of
records. Every pipeline step is a function that returns a new table, as the
script's whole-table pandas expressions do.

Modules, one file each:

- `Wrappers` (`wrappers.dfy`): `Option`, for a missing city cell.
- `Seqs` (`seqs.dfy`): the table operations stated once for any row type.
  - A boolean-mask selection, `Filter`.
  - A column-wise `Map`.
  - pandas `head`.
  - What it means for one table to keep another's order (`IsSubsequence`) and to be sorted on a column (`Descending`).
- `Text` (`text.dfy`): the Python string operations the script uses.
  - `str.strip`, `str.lower`.
  - The `<` order that `sorted` applies to strings.
  - `str.rstrip(c)`.
- `Buildings` (`buildings.dfy`): the records and the values computed once at start-up.
- `Queries` (`queries.dfy`): what the pages compute from those values.
- `Dashboard` (`dashboard.dfy`): the start-up sequence itself (lines 15-47). The pages read the global `df` when they run, so every query sees the height-sorted table, including `get_tallest_skyscrapers`, which is defined before the sort.

Three behaviours of the code are easy to misread:

- **Group-by key.** The group-by of line 99 runs on `completed_df` after line 39 has replaced year 0 with "Unknown". So the group key is the substituted value: "Unknown" or a year.
- **Lookup order.** The lookup's "first match" (line 60) is first in the height-sorted table, because `df` was reassigned at line 33 before the lookup runs.
- **Sort stability.** `sort_values` (line 33) uses pandas' default sort, which is not stable. So no tie order is promised. `Buildings.TieOrderDoesNotChangeHeights` proves that the height column is the same whatever that order is.

## Model

| member | source | states |
|---|---|---|
| `Seqs.Filter` | finalproject.py:15 | a boolean-mask selection keeps exactly the rows satisfying the mask, each as often as in the input, in the input's order |
| `Seqs.Map` | finalproject.py:18 | a column-wise assignment applies the conversion to every row and keeps the table's length and order |
| `Seqs.FilterSkip` | finalproject.py:58 | removing a row the mask rejects leaves the selection unchanged |
| `Seqs.Head` | finalproject.py:26 | `head(n)` is a prefix of the table of length `min(n, len)`, or, for negative `n`, the table less its last `-n` rows |
| `Seqs.PrefixIsSubsequence` | finalproject.py:26 | the first rows of a table keep its order |
| `Seqs.SubsequenceTransitive` | finalproject.py:28 | a selection followed by `head` keeps the order of the table selected from |
| `Seqs.PrefixOfSubsequence` | finalproject.py:28 | the first rows of a selection keep the order of the table selected from |
| `Seqs.SubsequenceDescending` | finalproject.py:36 | deleting rows from a table sorted tallest first leaves it sorted |
| `Seqs.FilterHeadIsFirstMatch` | finalproject.py:60 | the first row of a non-empty selection is the first row of the table that satisfies the mask |
| `Seqs.DescendingKeysDetermined` | finalproject.py:33 | two sorted tables holding the same rows agree on the sort column position by position |
| `Buildings.Clean` | finalproject.py:15-18 | every kept row has a positive height; read back as raw rows, the cleaned table is exactly the rows with a positive height and a present city, in load order and with their multiplicities |
| `Buildings.LiftAfterClean` | finalproject.py:18 | turning the city cells of kept rows into strings loses nothing: reading them back gives the kept rows |
| `Buildings.Insert` | finalproject.py:33 | placing a row into a sorted table keeps it sorted and adds exactly that row |
| `Buildings.InsertBelowHead` | finalproject.py:33 | a row shorter than the first row of a sorted table goes behind it, and the result is sorted with that row added |
| `Buildings.SortByHeight` | finalproject.py:33 | the sorted table is a permutation of its input and its heights never increase along it |
| `Buildings.TieOrderDoesNotChangeHeights` | finalproject.py:33 | any permutation sorted tallest first has the same height column as the model's sort, so the unspecified tie order changes no height |
| `Buildings.KeyOfYearRoundTrip` | finalproject.py:39 | the year substitution keeps every year other than 0, maps exactly 0 to "Unknown", and never produces year 0 |
| `Buildings.CompletedView` | finalproject.py:36-39 | with the raw year put back, `completed_df` is exactly the completed rows of `df`, in `df`'s order and with their multiplicities; no row keeps year 0; a row is in it exactly when it is a completed row of `df` with its year substituted |
| `Buildings.CompletedViewDescending` | finalproject.py:36 | `completed_df` is sorted tallest first when `df` is |
| `Buildings.CityOptions` | finalproject.py:45 | the options open with "ALL CITIES"; the rest are strictly ascending, pairwise distinct, and are exactly the cities of `df` |
| `Buildings.IndexOf` | finalproject.py:47 | `list.index` returns the position of the first occurrence |
| `Buildings.DefaultIndex` | finalproject.py:47 | the index of the first "Chicago" when it is among the options, 0 otherwise |
| `Text.Strip` | finalproject.py:54 | the result is a slice of the input, everything cut from either end is whitespace, it has no whitespace at either end, and it is empty exactly when the input is all whitespace |
| `Text.StripBounds` | finalproject.py:54 | the slice `strip` returns opens and closes on non-whitespace and is surrounded only by whitespace |
| `Text.TrailingInSuffix` | finalproject.py:54 | the trailing whitespace found after the leading run is trailing whitespace of the whole input |
| `Text.StripUnique` | finalproject.py:54 | any slice fitting the description of `strip` is what `strip` returns |
| `Text.StripPadded` | finalproject.py:54 | whitespace added around a string does not change what `strip` returns |
| `Text.LeadingSpaces` | finalproject.py:54 | the run of whitespace that `strip` removes at the front, and no more |
| `Text.TrailingStart` | finalproject.py:54 | the run of whitespace that `strip` removes at the end, and no more |
| `Text.Lower` | finalproject.py:54 | `lower` keeps the length and lowers every character |
| `Text.LowerCharKeepsSpace` | finalproject.py:58 | lowering a character neither creates nor removes whitespace |
| `Text.LessIrreflexive` | finalproject.py:45 | no string sorts before itself |
| `Text.LessTotal` | finalproject.py:45 | of two different strings, one sorts before the other |
| `Text.LessTransitive` | finalproject.py:45 | the string order is transitive |
| `Text.AscendingIsDistinct` | finalproject.py:45 | a strictly ascending list has no duplicates |
| `Text.InsertDistinct` | finalproject.py:45 | adding a city to a strictly ascending list keeps it strictly ascending and adds exactly that city |
| `Text.SortedDistinct` | finalproject.py:45 | `sorted(set(...))` holds each distinct city exactly once, in ascending order |
| `Text.RStrip` | finalproject.py:89 | `rstrip(c)` removes exactly the run of `c` at the end |
| `Text.RStrippedUnique` | finalproject.py:89 | only one string fits the description of `rstrip(c)` |
| `Text.TrimDecimals` | finalproject.py:89 | `.rstrip('0').rstrip('.')` strips the trailing zeros, then a trailing point |
| `Text.TrimDecimalsExamples` | finalproject.py:89 | "300.00" shows as "300", "300.50" as "300.5", "300.25" unchanged |
| `Queries.CityRows` | finalproject.py:28 | the rows of one city, all of them, in `df`'s order |
| `Queries.TallestSkyscrapers` | finalproject.py:24-30 | the rows are a prefix of `df` for "ALL CITIES", else of `df`'s rows in that city, and so keep `df`'s order in both cases; every row is from `df` and in the chosen city; the count is the number of rows, `min(top_n, available)` for `top_n >= 0`, as `head` gives for a negative one |
| `Queries.TallestAreTallest` | finalproject.py:24-30 | on the sorted table the ranking is sorted tallest first, and no row of the chosen city left out of it is taller than a row in it |
| `Queries.SmallerRankingIsPrefix` | finalproject.py:114-149 | the top-5 ranking of page two is the opening of its top-20 ranking |
| `Queries.FindCity` | finalproject.py:54-63 | a blank input after `strip` searches nothing; otherwise the answer is the city of the first row of the sorted table whose lowered name equals the stripped, lowered input; "not found" exactly when no row has such a name |
| `Queries.PaddedInputFindsTheSame` | finalproject.py:54 | whitespace typed around a name gives the same answer as the name alone |
| `Queries.SpacedNamesNeverMatch` | finalproject.py:54-58 | stored names are lowered but not stripped, so the name of a building that starts with whitespace never equals the stripped, lowered input, whatever is typed |
| `Queries.SpacedRowIsInvisible` | finalproject.py:54-63 | wherever such a building stands among the other rows, taking it out of the table changes no answer of the lookup |
| `Queries.CompletedInCity` | finalproject.py:76-79 | page one's rows are exactly the rows of `completed_df` in the chosen city (all of them for "ALL CITIES"), in order and with their multiplicities |
| `Queries.MapRows` | finalproject.py:188-194 | the map's rows are exactly the rows of `df` in the chosen city with `lo <= height <= hi`, inclusive at both ends, in `df`'s order |
| `Queries.GroupIsSelection` | finalproject.py:99 | a group of the group-by is the selection of the rows with that key |
| `Queries.GroupAbsent` | finalproject.py:99 | a key no row has forms an empty group |
| `Queries.SumHeightsCons` | finalproject.py:99 | a group's height sum adds the height of its first row to the rest |
| `Queries.YearKeysCons` | finalproject.py:99 | the keys of a table are the first row's key and the keys of the rest |
| `Queries.AddRowKeepsTotals` | finalproject.py:99 | adding a row to the per-key totals of the others gives the per-key totals of all rows |
| `Queries.AddRowAt` | finalproject.py:99 | the per-key total after one row is added, key by key |
| `Queries.Totals` | finalproject.py:99 | one entry per key present, each the height sum and the size of that key's group, which is never empty |
| `Queries.AverageHeightByYear` | finalproject.py:99 | one entry per year key present and no other, each the sum of that group's heights divided by the group's size |
| `Queries.AverageKeysAreSubstitutedYears` | finalproject.py:39-99 | on page one, year 0 is grouped under "Unknown" and never as year 0, and every other year of a completed building in the chosen city has its own entry |
| `Queries.AverageExample` | finalproject.py:99 | two buildings of 2000 with heights 100 and 200 and one of 2010 with 300 give 150 for 2000 and 300 for 2010 |
| `Queries.ExampleTotals` | finalproject.py:99 | the per-key totals of the three-row example |
| `Queries.ExampleTotalsOfTail` | finalproject.py:99 | the per-key totals of its last two rows |
| `Dashboard.Startup` | finalproject.py:15-47 | `df` holds exactly the cleaned rows, sorted tallest first, all of positive height; `completed_df`, `city_options` and `default_index` are derived from that sorted table, so they carry the full contracts of `CompletedView`, `CityOptions` and `DefaultIndex`; `completed_df` is sorted and holds exactly the completed rows with their year substituted; the drop-down opens with "ALL CITIES" and lands on "Chicago" exactly when some building is in Chicago, else on the first entry |
| `Dashboard.StartupRankingsAreTallest` | finalproject.py:24-33 | page two's rankings, read from the start-up table, are sorted tallest first, all in the chosen city and of positive height, and no shorter than every building of that city left out |

## Left out

- Streamlit: page setup, sidebar widgets, page routing and every `st.*` output (lines 6, 41-42, 50, 53, 61-65, 69-73, 95, 98, 110-115, 135, 148-150, 170, 182-185, 197-198). These are user interface. The widget values the pipeline reads are parameters of the model: the chosen city, the name typed, the slider's range. The slider's bounds, step and default range are widget settings and are not modelled.
- The second heading of page two (line 150) prints the top-5 count above the top-20 table. That is display text and is not modelled.
- Matplotlib charts (lines 100-106, 138-144, 173-178). These are drawing. This includes the bar order of the group-by result: the model gives the averages as a map, without pandas' key order.
- CSV loading and the `FileNotFoundError` handler (lines 9-12). This is file I/O. The raw table is an input sequence. The handler only prints, so on a missing file the script would go on to fail at line 15. That path is not modelled.
- The `f"{x:.2f}"` rounding (lines 89, 129, 164) is float formatting. Only the `rstrip` that follows it is modelled, on an already formatted string.
- Column renaming, column selection, `reset_index`, and the second year substitution on the page-two rankings (lines 21, 82-92, 117-132, 152-167). These relabel columns for display and decide no rows.
- Heights and coordinates are `real`, not IEEE doubles. NaN coordinates and rounding are not modelled. A NaN height fails `> 0` in pandas, as every height that is not positive does here.
- `Text.Lower`: lowers ASCII and Latin-1 capitals only. Python's full Unicode case mapping, including characters whose lower case is longer than one character, is not modelled.
- `Buildings.SortByHeight`: says nothing about the order of equal heights. pandas' default sort leaves that order unspecified.
