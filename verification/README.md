# Netflix catalog dashboard: cleaning and aggregation core

This project is a Dafny model of the data layer in `net.py`, a Streamlit
dashboard over the Netflix catalog of November 2019. The model starts from
the loaded table and ends at the values each chart is given. Streamlit,
matplotlib, seaborn and plotly are not modelled. The model covers:

- **Cleaning** (`Catalog`). Missing `director`, `cast` and `country` cells
  become `"Unknown"`. `date_added` and `release_year` are parsed with
  `errors='coerce'`. `year_added` is derived from the parsed date.
  `duration_num` is the first run of digits in `duration`.
- **Exploded top-10 rankings** (`Views`), for genres, countries, actors and
  directors. Each cell is split on commas and each piece is stripped of
  whitespace. `value_counts().head(10)` then ranks the pieces.
- **Plain top-10** (`Views`) of the `rating` column.
- **Per-type duration slices** (`Views`): the `duration_num` values of the
  movies and of the TV shows.
- **The years-added axis** (`Views`): the sorted distinct years in which
  titles were added.
- **The map data** (`Geography`). Each title counts under the first country
  in its `country` cell. Titles are grouped by (country, type) and counted.
  The `"Unknown"` country is dropped.

Shared building blocks:

- `Optional` is a present-or-missing cell.
- `Text` holds Python's `str.strip`, `str.split` and string order, and
  `str.extract(r'(\d+)')`.
- `Counting` is `value_counts` with `head(n)`: counting by first
  occurrence, then a stable insertion sort by count.

Every general property is stated about all inputs; the lemmas whose names
contain `Example` check single inputs. For each operation there is a partner:

- `Split` has `Join`.
- `FirstNumber` has `ToDecimal`.
- Cleaning has its per-row contract and `CleanConcat`.
- The rankings have exact per-label counts (`TrueCounts`, via `multiset`) and
  coverage of every label (`Covers`).
- The map groups have `RowsWithKey`, a separate count over the rows.
- The country key has `FirstCountrySingle` and `FirstCountryOf`, which pin it
  for cells without and with a comma.

The parsers behind `pd.to_datetime` and `pd.to_numeric` are parameters of the
cleaning step (`string -> Option<Date>`, `string -> Option<int>`). pandas
infers one date format per column and then applies it cell by cell, so a
per-cell function models the step once that format is fixed: one parser
serves the whole table.

## Model

| member | source | states |
|---|---|---|
| `Catalog.CleanTitle` | net.py:48-54 | A present director, cast or country is kept unchanged. A missing one becomes "Unknown". A missing date or release year stays missing, and a present one is whatever the parser returns. `year_added` is missing exactly when the parsed date is, and otherwise equals the date's year. `duration_num` is missing exactly when the duration is missing or has no digit, and otherwise is the number extracted from the duration (`Catalog.DurationNumber`). No other column changes. |
| `Catalog.Clean` | net.py:48-54 | Cleaning keeps every row, in order: same length, and row i of the result is the cleaning of row i. |
| `Catalog.CleanConcat` | net.py:48-54 | With one date parser for the whole table, cleaning works row by row: cleaning a concatenation is the concatenation of the cleaned parts. |
| `Catalog.YearOf` | net.py:52 | The definition of `.dt.year` on one cell: missing iff the date is missing (NaT), and otherwise the date's year. |
| `Catalog.DurationNumber` | net.py:54 | The extracted number is missing iff the duration is missing or contains no ASCII digit. |
| `Catalog.DurationNumberOf` | net.py:54 | A duration made of a digit-free prefix, a digit run and a tail that does not start with a digit gives exactly the decimal value of that run. |
| `Catalog.DurationNumberShape` | net.py:54 | Every duration with a digit splits into such a prefix, run and tail, and its number is the value of that run. |
| `Catalog.DurationExampleMinutes` | net.py:54 | "90 min" gives 90. |
| `Catalog.DurationExampleSeasons` | net.py:54 | "3 Seasons" gives 3. |
| `Catalog.DurationExampleNone` | net.py:54 | "N/A", or a missing duration, gives no number. |
| `Text.FirstNumber` | net.py:54 | `str.extract(r'(\d+)')` finds nothing iff the string has no digit. |
| `Text.FirstNumberOf` | net.py:54 | For any digit-free prefix p, digit run ds and suffix q that does not start with a digit, the result on p + ds + q is the decimal value of ds: the leftmost maximal run is taken. |
| `Text.FirstNumberShape` | net.py:54 | Any string with a digit splits as such a p + ds + q, so the lemma above covers every case. |
| `Text.FirstNumberRoundTrip` | net.py:54 | Round trip: the decimal rendering of n between a digit-free prefix and a suffix that does not start with a digit reads back as n. |
| `Text.ToDecimal` | net.py:54 | The rendering of n is a non-empty digit string without a leading zero whose decimal value is n. |
| `Text.Trim` | net.py:135 | `str.strip()` returns a string with no whitespace at either end, no longer than its input. |
| `Text.TrimExact` | net.py:135 | Stripping whitespace-only padding from a string that has no whitespace at either end gives back that string. |
| `Text.TrimIsInfix` | net.py:135 | The stripped string is an infix of its input, with whitespace only on either side. |
| `Text.TrimIdempotent` | net.py:135 | Stripping twice is stripping once. |
| `Text.PaddedPart` | net.py:282 | A label with a separator-free, whitespace-padded body contains no separator and strips back to its body. |
| `Text.Split` | net.py:135 | `str.split(',')` yields one more piece than there are commas (at least one piece, empty pieces kept). No piece contains a comma, and joining the pieces with commas gives back the input. |
| `Text.SplitJoin` | net.py:135 | Round trip: splitting the comma-join of comma-free pieces returns exactly those pieces. |
| `Text.SplitPrefix` | net.py:282 | A comma-free prefix joins the first piece of the rest, so the first piece of `x + ",..."` is `x`. |
| `Text.StrLessIrreflexive` | net.py:283 | Python's string order never puts a string before itself. |
| `Text.StrLessTransitive` | net.py:283 | Python's string order is transitive. |
| `Text.StrLessTotal` | net.py:283 | Of two different strings, one comes before the other in Python's string order. |
| `Counting.Tally` | net.py:135 | Counting by first occurrence gives distinct labels. Each count is the label's exact number of occurrences and at least 1. Every element has a row, and the counts add up to the number of elements. |
| `Counting.InsertByCountPermutes` | net.py:135 | Inserting a row by count adds exactly that row (a multiset equation). |
| `Counting.RankByCountPermutes` | net.py:135 | Ranking by count is a permutation of the tally. |
| `Counting.RankByCountDistinct` | net.py:135 | Ranking keeps the labels distinct. |
| `Counting.ValueCounts` | net.py:171 | `value_counts()` lists distinct labels with non-increasing counts. Each count is the label's exact multiplicity and at least 1. Every element's label is listed, and the counts sum to the number of elements. |
| `Counting.TopCounts` | net.py:135 | `.head(n)` keeps at most n rows, with distinct labels, non-increasing counts and exact counts. A label that is left out only happens when n rows are kept, and it counts no more than the last kept row. |
| `Counting.TopCountsExcludes` | net.py:171 | The same exclusion bound, stated for a label given by value rather than by position. |
| `Views.Present` | net.py:171 | `dropna()` keeps each present value exactly as often as the column holds it. The result's length is the number of present cells. |
| `Views.PresentConcat` | net.py:135 | `dropna()` keeps the column's order: the values of a concatenation are those of the first part followed by those of the second. |
| `Views.PresentSingle` | net.py:135 | A present cell gives exactly its value and a missing cell gives nothing; with `PresentConcat` this fixes the result for every column. |
| `Views.PresentHas` | net.py:135 | Every present cell's value survives `dropna()`. |
| `Views.Pieces` | net.py:135 | A cell explodes into one more piece than it has commas, and every piece is free of whitespace at both ends. |
| `Views.Explode` | net.py:135 | A column of present values explodes into exactly as many labels as its cells have pieces in total. |
| `Views.PiecesOfJoin` | net.py:135 | Round trip: a cell built from comma-joined, whitespace-padded labels explodes into exactly those labels. Empty labels are kept. |
| `Views.PiecesOfTwo` | net.py:135 | Two labels separated by a comma and any whitespace explode into those two labels. |
| `Views.PiecesExampleTwo` | net.py:153 | "USA, India" gives "USA" and "India". |
| `Views.PiecesExampleUnknown` | net.py:153 | "Unknown" is one label. |
| `Views.PiecesExampleEmpty` | net.py:135 | ",," gives three empty labels. |
| `Views.ExplodeConcat` | net.py:135 | Exploding works value by value and commutes with concatenation. |
| `Views.ExplodeTwo` | net.py:153 | A two-value column explodes into the first value's pieces followed by the second's. |
| `Views.ExplodeExample` | net.py:153 | ["USA, India", "Unknown"] explodes into "USA", "India", "Unknown". |
| `Views.ExplodeHas` | net.py:135 | Every piece of every value appears among the exploded labels. |
| `Views.ColumnCounts` | net.py:135 | Before truncation, each label of the exploded column is counted exactly once per piece and at least once. Every piece is covered, and the counts sum to the total number of pieces. |
| `Views.TopOfColumn` | net.py:135-247 | The genre, country, actor and director charts have at most 10 bars, with distinct labels, non-increasing and exact counts. A label left out counts no more than the tenth bar. |
| `Views.MissingCellCountsAsUnknown` | net.py:48-50 | A director, cast or country that was missing before cleaning appears in that column's ranking as "Unknown". |
| `Views.TopRatings` | net.py:171 | The ratings chart has at most 10 bars, with distinct labels and non-increasing counts. Each count is the number of rows whose rating is exactly that label; missing ratings are never counted. |
| `Views.TopRatingsExcluded` | net.py:171 | A rating that some row carries and that is not shown occurs in no more rows than the tenth bar, and only when all ten bars are filled. |
| `Views.SliceIndices` | net.py:189 | The selected positions are strictly ascending. Each one is a row of exactly that type with a duration number, and every such row is selected. |
| `Views.TypeSlice` | net.py:209 | The slice holds the duration numbers of exactly the selected rows, in row order. |
| `Views.MovieDurations` | net.py:189 | The movie chart holds one value per row of type "Movie" that has a duration number, in row order. Each value is that row's number, and every such row's number is in the chart. |
| `Views.TvSeasons` | net.py:209 | The same for rows of type "TV Show": the season counts of exactly those rows that have a number. |
| `Views.SlicesDisjoint` | net.py:189-209 | The movie and TV-show slices together hold at most one value per row. |
| `Views.InsertYear` | net.py:118 | Inserting a year into a strictly ascending axis keeps it strictly ascending and adds exactly that year. |
| `Views.YearsAxis` | net.py:118 | The axis is strictly ascending (sorted and unique) and holds exactly the years in which some row was added. |
| `Geography.FirstCountry` | net.py:282 | The grouping country has no whitespace at either end, and a cell without a comma is stripped whole. |
| `Geography.FirstCountryOf` | net.py:282 | Whatever follows the first comma is ignored: the country is the stripped first piece. |
| `Geography.FirstCountrySingle` | net.py:282 | A comma-free cell padded with whitespace, such as a single country or "Unknown", is keyed under that country exactly. |
| `Geography.FirstCountryExample` | net.py:282 | "France, Belgium" is grouped under "France". |
| `Geography.KeyLessIrreflexive` | net.py:283 | No group key comes before itself. |
| `Geography.KeyLessTransitive` | net.py:283 | The (country, type) key order is transitive. |
| `Geography.KeyLessTotal` | net.py:283 | Of two different keys, one comes first. |
| `Geography.CountOfAt` | net.py:283 | In a table with distinct keys, looking up a group's key finds that group's size. |
| `Geography.AddKey` | net.py:283 | Counting one more row keeps keys strictly ascending and groups non-empty. It raises the key's count by one and leaves every other count alone. |
| `Geography.GroupSizes` | net.py:283 | `groupby(...).size()` gives strictly ascending keys. Every key's count is its multiplicity among the row keys, and the sizes sum to the number of keyed rows. |
| `Geography.DropUnknown` | net.py:284 | The filter removes exactly the "Unknown" groups and leaves every other count and the order intact. |
| `Geography.GroupKeys` | net.py:283 | Each key occurs among the row keys exactly as often as rows fall under it. Rows without a type give no key. |
| `Geography.CountryCounts` | net.py:281-284 | The map data has strictly ascending keys and no "Unknown" group. Each group's count equals the number of rows under its key, and every key with rows has its group. The counts sum to at most the number of rows. |
| `Geography.CountryCountsExample` | net.py:282-284 | A "France, Belgium" movie and an "Unknown" TV show give one France/Movie title, nothing for Belgium and no Unknown group. The TV show is keyed under ("Unknown", "TV Show") and so is dropped by the filter. |

## Left out

- Streamlit, the plots and their styling, and the code strings shown beside each chart: presentation only.
- Reading `netflix_titles_nov_2019.csv`: the model starts from the loaded rows.
- The inner workings of `pd.to_datetime` and `pd.to_numeric`: the parsers are parameters, and the model assumes only that a missing cell stays missing.
- `.astype(float)` on `duration_num`, the float type `year_added` gets from NaN, and the float values `pd.to_numeric` can give `release_year` (for example from "2019.5"): values are whole numbers. `durationNum` is a `nat`, and `yearAdded` and `releaseYear` are `int`s.
- The correlation heatmap (`.corr()`): floating-point statistics.
- The order of equal counts in `value_counts()`. The model's ranking is a stable sort by count, but its contracts do not depend on how ties are broken, and pandas does not promise a tie order.
- The counts that `sns.countplot` draws for `year_added` and for the TV show seasons: the model stops at the axis order and the slice values.
- Unicode: `str.strip` is modelled on ASCII whitespace (codes 9-13 and 28-32), and `\d` only on the ASCII digits 0-9.
- The histogram binning of movie durations.
- A top-N request against a column that is not a list column cannot be expressed in the model: the columns are a closed set (`ListColumn`), and the source has no such error path either.
- A bucket for missing ratings: `value_counts()` is called without `dropna=False`, so missing ratings get no bucket in the ratings chart (net.py:171).
- Cleaning a part of the table on its own: pandas infers the date format from the column's first date, so a part cleaned alone may infer a different format than the whole table and parse some dates differently. The model fixes one parser for the table, and `Catalog.CleanConcat` holds only under that parser.
- Counting a co-production under every country it lists: `.str[0]` keeps only the first country, so "France, Belgium" counts under France alone (net.py:282; `Geography.CountryCountsExample`).
- The error pandas raises when a text column holds no string at all: an all-empty column is read as `float64`, and the `.str` accessor then raises `AttributeError`, at load for `duration` (net.py:54) and in the genre chart for `listed_in` (net.py:135). The model assumes each of these two columns holds at least one string; for missing cells it gives no number or no pieces instead of representing that error. `country`, `cast` and `director` cannot hit this, because `fillna('Unknown')` has already made them strings (net.py:48-50).
