# Netflix dashboard: cleaning, counts and genre recommender

The Streamlit script `hello/app.py` uploads a CSV of titles and cleans it. It
then shows a few count figures and recommends the ten best-rated titles of a
chosen genre. This project models the data-handling part of that script as
pure functions over a table:

- a `Table` is a sequence of column labels plus rows of cells;
- a `Cell` is `Null | Num(real) | Str(string)`.

Labels stay a sequence because pandas allows a label to repeat.

Where the script raises an exception, the model returns `Err`. A missing
label is a `KeyError`. A repeated label makes `df[name]` a sub-frame, which
`to_numeric`, `sort_values` and `unique` reject. Each `Err` carries a `Fault`
saying which case it was.

Modules:

- `Tables` (`tables.dfy`): cells, rows, tables, label lookup with its
  missing/duplicate error cases, and column access.
- `ColumnNames` (`column_names.dfy`): label normalisation. Whitespace is
  stripped with Python's `str.isspace` set of characters, then the label is
  lower-cased. Spaces and hyphens then become underscores.
- `Cleaning` (`cleaning.dfy`): sentinel strings become null; `rating` and
  `duration_minutes` are coerced to numbers; `genre`/`country`/`user_review`
  get their defaults. `Clean` is the whole pipeline.
- `Ranking` (`ranking.dfy`): the genre filter and a descending rating sort
  with nulls last. The sort is an insertion sort proved sorted and a
  permutation. `Recommend` keeps the first ten rows.
- `Metrics` (`metrics.dfy`): total titles, `nunique`, `value_counts` and
  `unique` on the genre column.

`pd.to_numeric`'s own string parsing is a parameter
`parse: string -> Option<real>`. `Some(x)` means the string reads as `x` and
`None` means it does not.

Three behaviours of the script worth stating:

- `df["genre"].nunique()` (line 80) is not guarded. A table without a `genre`
  column raises a `KeyError` there, so `UniqueGenres` returns
  `Err(MissingColumn)`. With a repeated `genre` label, `nunique` yields one
  count per column, which the metric widget rejects, so line 80 raises
  again and `UniqueGenres` returns `Err(DuplicateColumn)`.
- `fillna` with a dict ignores labels that are not columns. No column is
  created.
- `sort_values` puts missing ratings last by default. The model puts them
  last.

## Model

| member | source | states |
|---|---|---|
| ColumnNames.NormalizeName | hello/app.py:34-39 | the normalised label is the raw label with surrounding whitespace stripped, each space or hyphen turned into "_" and every other character lower-cased, position by position; hence it contains no space, no hyphen and no upper-case ASCII letter, has no whitespace at either end, and is never longer than the raw label |
| ColumnNames.NormalizeFixedPoints | hello/app.py:34-39 | normalisation leaves a label unchanged exactly when the label is already in normal form (both directions) |
| ColumnNames.NormalizeIdempotent | hello/app.py:34-39 | normalising an already-normalised label returns it unchanged |
| ColumnNames.NormalizeColumns | hello/app.py:34-39 | after renaming, every label is in normal form, the label count is the same, and the rows are untouched |
| ColumnNames.NormalizeColumnsFixed | hello/app.py:34-39 | renaming a table whose labels are all normal gives back the same table |
| ColumnNames.NormalizeHeaderExample | hello/app.py:34-39 | the header "Duration Minutes" becomes "duration_minutes" |
| ColumnNames.NormalizePaddedExample | hello/app.py:34-39 | " User-Review\t" is trimmed, lower-cased and its hyphen replaced, giving "user_review" |
| Cleaning.ClearSentinel | hello/app.py:42 | a cell equal to one of "", " ", "NA", "N/A", "null", "None" becomes null; any other cell, number or string, is unchanged; the result is never a sentinel |
| Cleaning.ReplaceSentinels | hello/app.py:42 | afterwards no cell equals a sentinel string; sentinel cells became null; every other cell is unchanged; labels and row count are preserved |
| Cleaning.ReplaceSentinelsIdempotent | hello/app.py:42 | replacing sentinels a second time changes nothing |
| Cleaning.ToNumeric | hello/app.py:46 | `to_numeric(errors="coerce")` on one cell: numbers and nulls are kept; a string becomes `Num` exactly when it parses, carrying the parsed value, and null otherwise; the result is never a string |
| Cleaning.CoerceColumn | hello/app.py:45-46 | an absent label leaves the table as it is; a repeated label is a `DuplicateColumn` error, and only then does it fail; otherwise only the named column changes, cell by cell through `ToNumeric`, and no row is dropped |
| Cleaning.CoerceTypes | hello/app.py:45-48 | only `rating` and `duration_minutes` cells change, and afterwards they hold no string; row count and labels are preserved; fails exactly when one of the two labels is repeated |
| Cleaning.CoerceTypesFixed | hello/app.py:45-48 | a table whose numeric columns hold no string, with neither numeric label repeated, is returned unchanged by coercion |
| Cleaning.CoerceTypesIdempotent | hello/app.py:45-48 | coercing the output of a successful coercion gives it back unchanged |
| Cleaning.FillMissing | hello/app.py:51-55 | no `genre`, `country` or `user_review` cell stays null; a null there gets "Unknown" or "Not Provided"; non-null cells and all other columns are unchanged; no column is added |
| Cleaning.FillMissingFixed | hello/app.py:51-55 | filling a table that has no null in those columns changes nothing |
| Cleaning.Clean | hello/app.py:33-55 | the whole cleaning block fails exactly when the normalised labels repeat `rating` or `duration_minutes`; on success: labels are the normalised raw labels; row and column counts are kept; no cell is a sentinel; numeric columns hold no string; defaulted columns hold no null; a numeric cell is the raw cell with its sentinel cleared, then coerced; a defaulted cell is the raw cell with its sentinel cleared, or the column's default where that leaves null; every other cell is the raw cell with sentinels cleared |
| Cleaning.CleanedCells | hello/app.py:42-55 | cell by cell, the cleaned value is the sentinel-cleared raw cell, coerced in a numeric column and defaulted when null in a filled column |
| Cleaning.CleanFixed | hello/app.py:33-55 | a table with every property of a cleaned table is returned unchanged by cleaning |
| Cleaning.CleanIdempotent | hello/app.py:33-55 | cleaning the output of cleaning gives back the same table |
| Ranking.Insert | hello/app.py:148 | inserting one row into a rating-sorted sequence keeps it sorted and adds exactly that row |
| Ranking.SortByRating | hello/app.py:148 | `sort_values("rating", ascending=False)`: ratings never increase along the result, missing ratings come after all present ones, and the result is a permutation of the input |
| Ranking.SelectGenre | hello/app.py:147 | every selected row has the chosen genre; each row of that genre is kept as many times as it occurs, and every other row is dropped; a null genre never matches |
| Ranking.TopRatedDrawnFromMatches | hello/app.py:146-150 | at most ten rows, all of the chosen genre, sorted by rating with nulls last, and a sub-multiset of the table's rows |
| Ranking.TopRatedEmpty | hello/app.py:146-150 | the recommendation list is empty exactly when no row has the chosen genre |
| Ranking.TopRatedShortIsComplete | hello/app.py:149 | with fewer than ten recommendations, every row of the chosen genre is among them |
| Ranking.TopRatedDominates | hello/app.py:148-149 | no row of the chosen genre that was left out has a strictly higher rating than a row that was kept; a row with a rating also outranks any row without one |
| Ranking.Recommend | hello/app.py:143-150 | without a `genre` column the result is `MissingColumn("genre")`, and only then; a repeated `genre` is a duplicate error; a missing or repeated `rating` is a `MissingColumn("rating")` or `DuplicateColumn("rating")` error; it succeeds exactly when both labels resolve to one column and no row of the chosen genre holds a string rating, and that string rating is the only cause of `UnorderableRating`; on success the list has all the bounds, ordering, emptiness, completeness and no-better-row-left-out properties above |
| Ranking.CleanTableRecommends | hello/app.py:143-150 | after cleaning, a table with one `genre` and a `rating` column always yields a recommendation list, for any chosen genre |
| Metrics.ValueCounts | hello/app.py:101 | one tally per distinct non-null value; values pairwise distinct; each value's count is its number of occurrences; every count is at least 1; the counts sum to the number of non-null cells |
| Metrics.ValueCountsExact | hello/app.py:101 | each tally is non-null and equals its value's occurrence count; there are exactly as many tallies as distinct non-null values, which is at most the non-null count, which is at most the row count |
| Metrics.UniqueGenres | hello/app.py:80 | line 80 raises exactly when `genre` is missing (`KeyError`) or repeated (the metric widget rejects the per-column counts); otherwise the figure is the number of distinct non-null genres, at most the row count, and zero exactly when every genre cell is null |
| Metrics.GenreDistribution | hello/app.py:101 | the genre chart's tallies exist exactly when there is one `genre` column; their values are pairwise distinct and are exactly the distinct non-null genres; each count is at least 1 and equals its genre's number of occurrences; the counts sum to the non-null genre cells |
| Metrics.GenreFiguresAgree | hello/app.py:101 | the genre chart has exactly as many bars as the "Unique Genres" figure, and its bars add up to the number of rows with a non-null genre |
| Metrics.Unique | hello/app.py:144 | `unique()`: pairwise distinct cells; a cell is listed exactly when it occurs in the column, null included |
| Metrics.GenreOptions | hello/app.py:144 | the select-box choices are pairwise distinct and are exactly the values in the genre column |
| Metrics.OfferedGenreRecommends | hello/app.py:144-150 | for an offered genre, the recommender succeeds exactly when there is one `rating` column and no row of that genre holds a string rating; when it succeeds, an offered non-null genre yields at least one recommendation and the null genre yields none |
| Metrics.CleanOfferedGenreRecommends | hello/app.py:144-150 | on a cleaned table with one `genre` and a `rating` column, every offered genre succeeds and yields at least one recommendation |
| Tables.Lookup | hello/app.py:80 | resolving a label: `MissingColumn` exactly when absent; `DuplicateColumn` exactly when it labels two columns; otherwise the one position carrying the label |

## Left out

- Streamlit presentation is not modelled. This covers page set-up, sidebar,
  uploader, select box widget, preview, metric widgets, messages and the
  `st.stop` flow. It is display only.
- Browser local storage and the `to_dict(orient="records")` /
  `pd.DataFrame` round trip are not modelled. They go through a foreign
  storage component whose serialisation is not visible here.
- `pd.read_csv` is not modelled: `Clean` starts from the table it produced.
  Its own missing-value handling is part of that I/O step.
- `pd.to_numeric`'s number reading is the `parse` parameter. Which strings
  parse, and to what value, is not modelled.
- The mean rating and mean duration, rounded to two places, are not
  modelled. They are floating-point arithmetic.
- Chart construction is not modelled: the histogram's 20 bins, the country
  pie and the `try`/`except` warnings around them. Only the genre tallies
  handed to the bar chart are modelled.
- Ranking.SortByRating: ties in rating are left in an unspecified order,
  because pandas' default quicksort is not stable.
- ColumnNames.NormalizeName: lower-casing covers ASCII letters only. Python's
  full Unicode case mapping is not modelled.
- Cleaning.FillMissing: pandas' behaviour on repeated labels is not
  modelled. The model fills every column carrying a defaulted label.
- Ranking.Recommend: any string rating among the matching rows gives
  `UnorderableRating`. pandas raises only on strings mixed with numbers and
  sorts an all-string column lexicographically. A cleaned table never holds
  a string rating, so this does not arise after `Clean`.
- Metrics.ValueCounts: tallies come in order of first occurrence. pandas
  orders them by descending count, which affects only the bar order.
- Metrics.GenreDistribution: the genre chart's tallies, and so its bars, come
  in order of first occurrence, as for `ValueCounts`, not by descending count.
- Metrics.TotalTitles (`len(df)`, line 79) is only the row count. It has no
  contract of its own and appears in the bounds of `UniqueGenres`.
