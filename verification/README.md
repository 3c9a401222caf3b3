# OneStream anime recommender: a Dafny model of its core

This project models the part of the OneStream anime recommender backend that
decides *which* catalogue rows a user gets back, and proves what that choice
guarantees:

- `recommend_from_titles` (`recommend.py`) is modelled in the `Recommend` module. It covers:
  - the title index and poster map built at load time;
  - resolving the liked titles, and the `ValueError` when none resolves;
  - the `-1.0` sentinel for liked rows and the optional genre mask;
  - `scores.argsort()[-k:][::-1]`;
  - the three-way choice of poster source.
- `get_meta` and `top_by_genres` (`meta.py`) are modelled in the `Meta` module. It covers:
  - the case-insensitive title lookup that returns the first match;
  - the unknown-genre error;
  - the AND genre mask;
  - the Score ranking with `head(k)`.
- The `/autocomplete` endpoint (`main.py`) is modelled in the `Autocomplete` module. It keeps the first `limit` titles, in catalogue order, whose lower-cased form starts with the lower-cased, stripped prefix.

Shared pieces:

- `Catalogue` holds the metadata table and the `Option`/`Result` types.
- `Text` holds Python's `lower`, `strip`, `title`, `startswith` and `join`, over ASCII.
- `Selection` holds numpy/pandas row selection: boolean masks to positions, Python slice bounds, `argsort`, the top-k slice and `sort_values(...).head(k)`.

The similarity column comes from the normalised feature matrix and the user
profile vector. The model takes it as an input (`similarity`), so its
guarantees hold for whatever similarity values the linear algebra produces.

The state `recommend_from_titles` changes step by step is the score array:
`scores[valid_idxs] = -1.0`, then `scores = np.where(mask, scores, -1.0)`.
`Recommend.ScoreRows` allocates it as an `array<real>` and updates it in
place through `ExcludeLiked` and `ApplyGenreMask`, which are proved against
the specification functions `Excluded` and `Masked`. `RecommendFromTitles`
calls `ScoreRows`. The record-building loop of
`top_by_genres` is the `for` loop in `Meta.BuildRecords`. Everything else in
the core is expressions, and is modelled as functions with lemmas.

### Behaviour as written

The model follows the code. These consequences of the code are modelled as
they are, and some are proved as lemmas:

- **Index keys are not stripped.** `title_to_idx` keys are `t.lower()`, and
  only the blankness test strips. Every lookup is `t.lower().strip()`. So a
  catalogue title with surrounding whitespace can never be resolved
  (`Recommend.PaddedTitleNeverResolves`).
- **Liked rows are not removed.** Liked rows are only scored `-1.0` and can
  still be returned. When `k` is 0 or at least the number of rows, every
  liked row is returned (`Recommend.LikedRowsReturnedWhenKCoversCatalogue`).
  They are guaranteed to be kept out when at least `k` rows score above the
  sentinel (`Recommend.ExcludedRowsNotSelected`). Otherwise the order among
  rows that score -1.0 decides which of them fill the remaining places.
- **The result size is `min(k, rows)`.** For `k >= 1` exactly `min(k, rows)`
  rows are returned, sentinel rows included. `k == 0` returns every row,
  because `[-0:]` is `[0:]`. A negative `k` returns all but the `-k` worst.
- **Tie order is not fixed.** numpy's `argsort` and pandas' `sort_values`
  default to a sort that is not stable, so the order among equal scores is
  unspecified. `Selection.Argsort` computes one particular ascending order,
  so the functions `TopK`, `SortedHead` and `GenreRanking` return one
  particular choice among ties. The contracts of the operations themselves do
  not fix that choice:
  - `Recommend.RecommendFromTitles` promises records for *some* list of rows
    that satisfies `IsTop` and has the length of the `[-k:]` slice;
  - `Meta.TopByGenres` promises records for *some* ranking that satisfies
    `IsGenreRanking`;
  - the lemmas about the selection hold for every such list.
- **Duplicate keys: the last row wins.** The title index keeps the last row
  with a given key, and so does the poster map (`Recommend.IndexByLastWins`).
- **`get_meta` returns the first match.** It compares the lower-cased title
  without stripping, and a row with a missing title never matches.

## Model

| member | source | states |
|---|---|---|
| Selection.Where | main.py:113 | A boolean mask selects exactly the rows where it is true, in catalogue order, each once |
| Selection.HeadWhere | main.py:113 | `df[mask].head(limit)` keeps only rows where the mask is true, in catalogue order, at most `limit`. A true row is left out only when `limit` earlier rows were kept |
| Selection.SliceBound | recommend.py:82 | Python's slice-bound normalisation: a bound in `0..n` is kept, a bound above `n` gives `n`, a negative bound counts from the end, and one below `-n` gives 0 |
| Selection.Argsort | recommend.py:82 | `argsort` lists every row exactly once, lowest score first |
| Selection.TopK | recommend.py:82 | `argsort()[-k:][::-1]` returns `min(k, n)` rows for `k >= 1` and `n - SliceBound(n, -k)` rows in general. They are distinct and best first, and no row left out scores higher than a row kept |
| Selection.SortedHead | meta.py:47 | `sort_values(ascending=False).head(k)` returns `min(k, n)` rows for `k >= 0`. They are distinct and best first, and no row left out scores higher |
| Selection.WhereFirst | meta.py:19-22 | The first row `df[mask]` keeps is the first row where the mask is true |
| Selection.InsertAscending | recommend.py:82 | Inserting a row into an ascending order keeps it ascending |
| Selection.InsertDistinct | recommend.py:82 | Inserting a new row into a list of distinct rows keeps them distinct |
| Selection.DistinctMissesOne | recommend.py:82 | A list of distinct rows of an `n`-row table that misses a row is shorter than `n` |
| Selection.TopTakesAll | recommend.py:82 | A best-first selection as long as the table holds every row, whatever its score and whatever the tie order |
| Selection.TopAboveFloor | recommend.py:82 | If at least as many rows score above a floor as are selected, every selected row scores above it, whatever the tie order |
| Text.StripSpec | recommend.py:35 | `strip()` is empty exactly for all-whitespace strings; otherwise it neither starts nor ends with whitespace |
| Text.StripLeftSpec | recommend.py:65 | `lstrip` removes a leading run of whitespace and nothing else |
| Text.StripRightSpec | recommend.py:65 | `rstrip` removes a trailing run of whitespace and nothing else |
| Text.StripLowerCommute | meta.py:41 | Lower-casing and stripping commute |
| Text.TitleIgnoresCase | recommend.py:76 | `str.title()` gives the same result whatever case its input was written in |
| Text.LowerIdempotent | meta.py:19 | Lower-casing an already lower-cased string changes nothing |
| Recommend.IndexByLastWins | recommend.py:44-48 | In a title-keyed dict comprehension, a key is present iff some row has it, and it holds the value of the last such row |
| Recommend.TitleIndexSpec | recommend.py:32-36 | `title_to_idx` has a key iff some non-blank title lower-cases to it, and maps it to the largest such row |
| Recommend.ResolveInRange | recommend.py:65-66 | Every resolved liked title is a row of the feature table |
| Recommend.ResolveSpec | recommend.py:65-68 | No liked title resolving is exactly the error condition. Every resolvable liked title contributes its row, and every resolved row comes from a liked title |
| Recommend.ResolveAppend | recommend.py:65-66 | Resolution works title by title: it keeps input order and duplicates |
| Recommend.NormalizeUnpadded | recommend.py:65 | A normalised liked title has no whitespace at either end |
| Recommend.PaddedTitleNeverResolves | recommend.py:32-36 | A catalogue title with whitespace at either end is never resolved by any liked list |
| Recommend.GenreColumns | recommend.py:76-77 | Every genre column kept is a feature column |
| Recommend.GenreColumnsSpec | recommend.py:76-77 | A requested genre's column is kept iff it is a feature column. No column is kept iff none is one |
| Recommend.GenreMaskSpec | recommend.py:75-80 | No mask applies iff there is no filter, or it names no existing genre column. Otherwise a row passes iff its requested genre columns sum above 0 |
| Recommend.GenreColumnIgnoresCase | recommend.py:76 | The genre filter maps genre names that differ only in case to the same column |
| Recommend.FinalScoresSpec | recommend.py:72-80 | Liked rows and rows the mask rejects score exactly -1.0, and every other row keeps its similarity |
| Recommend.ExcludeLiked | recommend.py:72 | In place, every liked row of the score array becomes -1.0 and every other row is unchanged |
| Recommend.ApplyGenreMask | recommend.py:80 | In place, every row the mask rejects becomes -1.0 and every other row is unchanged |
| Recommend.ScoreRows | recommend.py:71-80 | The score array, after the sentinel and the mask are applied in place, equals the final scores `FinalScoresSpec` describes |
| Recommend.PosterColumn | recommend.py:85-90 | The poster source is the "poster" column if present, else "Image URL", else the metadata fallback, which always yields a string |
| Recommend.PosterMapSpec | recommend.py:44-48 | `poster_map` has a key iff some non-blank metadata title lower-cases to it, and maps it to the URL of the last such row ("" for a missing URL) |
| Recommend.PosterFallbackSpec | recommend.py:90 | The fallback poster is the URL of the last metadata row whose non-blank title lower-cases to the same key, and "" when there is none |
| Recommend.RecommendFromTitles | recommend.py:54-100 | Fails with "None of the provided titles matched the catalogue." iff no liked title resolves. Otherwise it returns as many records as the `[-k:]` slice has rows (`min(k, rows)` for `k >= 1`). The records are the title, poster and final score of the rows of some best-first selection of the final scores (`IsTop`), in its order, with scores non-increasing. The tie choice is left open |
| Recommend.BuildRecommendations | recommend.py:92-99 | The output frame holds the title, poster and score of each selected row, in selection order |
| Recommend.ExcludedRowsNotSelected | recommend.py:72-82 | For any best-first selection of the `[-k:]` length: when at least `k >= 1` rows score above -1.0, no liked row and no row the genre mask rejects is selected |
| Recommend.LikedRowsReturnedWhenKCoversCatalogue | recommend.py:72-82 | For any best-first selection of the `[-k:]` length: when `k` is 0 or at least the number of rows, every liked row is returned |
| Meta.GetMeta | meta.py:15-32 | None iff no row's lower-cased title equals the lower-cased query. Otherwise the fields of the first such row |
| Meta.GetMetaIgnoresCase | meta.py:19 | The lookup gives the same answer for a title and its lower-cased form |
| Meta.MissingGenres | meta.py:42 | A genre is reported missing iff it was requested and is not a column |
| Meta.MissingGenresInOrder | meta.py:42-44 | The missing genres of a joined request are those of its first part followed by those of its second, so the list keeps request order and duplicates |
| Meta.MissingGenreSingle | meta.py:42 | A single requested genre is listed iff it is not a column |
| Meta.MatchingRows | meta.py:46-47 | `df[mask]` for the AND mask keeps exactly the rows that have every requested genre, in catalogue order |
| Meta.GenreRanking | meta.py:46-47 | The result is a ranking `IsGenreRanking` allows. Kept rows have every requested genre and are distinct, with Score non-increasing. There are as many rows as `head(k)` keeps of the matching rows, for every `k`: all but the last `-k` for negative `k`, at most `k` for `k >= 0`, fewer only when every row with all genres is kept. No row with all genres left out has a higher Score |
| Meta.RankingOfMatches | meta.py:47 | The best-first selection of the matching rows' scores, mapped back to table rows, is a ranking `IsGenreRanking` allows |
| Meta.MappedDistinct | meta.py:47 | Distinct positions among the matching rows name distinct table rows |
| Meta.LeftOutMatches | meta.py:47 | A matching row left out scores no higher than any row kept, and its existence means not every match was kept |
| Meta.BuildRecords | meta.py:49-57 | The loop appends one record per ranked row, in the ranking's order, with that row's title, Score, poster, synopsis and no similarity |
| Meta.NoneMissing | meta.py:42-46 | Once no genre is missing, every requested genre is a column, so the mask can read it |
| Meta.TopByGenres | meta.py:34-58 | Fails with "Unknown genres: " and the missing genres joined by ", " iff some normalised genre is not a column. Otherwise one record per row of some ranking `IsGenreRanking` allows, in its order: as many as `head(k)` keeps of the matching rows, with Score non-increasing, at most `k` records for `k >= 0` and similarity always None. The tie choice is left open |
| Meta.NormalizeGenresIgnoresCase | meta.py:41 | Genre names that differ only in case normalise to the same columns |
| Autocomplete.AutocompleteRows | main.py:111-113 | Kept rows match the normalised prefix, in catalogue order, at most `limit`. A matching row is left out only when `limit` earlier matching rows were kept |
| Autocomplete.Autocomplete | main.py:106-121 | One suggestion (title, poster URL) per kept row, in order. Every suggested title lower-cases to a string starting with the normalised prefix |
| Autocomplete.BlankPrefixTakesFirstRows | main.py:111-113 | A whitespace-only prefix strips to "" and returns the first `min(limit, rows)` rows of the catalogue, missing titles included |

## Left out

- The similarity computation (recommend.py:30, 70-71). It is floating-point linear algebra (`normalize`, a matrix product) and enters as the `similarity` input.
- Recommend.RecommendFromTitles: does not round the score to 4 decimal places (`round(4)` is floating-point rounding), and all arithmetic is exact `real`.
- Recommend.GenreMaskSpec: the per-row sum of genre columns is an exact `real` sum, not a floating-point one.
- Selection.Argsort: it computes one ascending order (insertion by score), and `TopK`, `SortedHead` and `GenreRanking`, being built on it, return one particular choice among ties. numpy's and pandas' order among equal scores is unspecified. So `RecommendFromTitles` and `TopByGenres` state their results only as some selection satisfying `IsTop` or `IsGenreRanking`.
- Meta.GenreRanking: Score is a `real`. pandas places NaN scores last, and NaN is not modelled.
- Reading CSV files, `lru_cache`, `print`, and the `None` that `meta._load` returns when the CSV is missing (a file-system condition). The tables are inputs.
- The "Title" to "title" rename in `_load_features` (recommend.py:26-27). `FeatureTable.title` is the column after the rename.
- `vec_cols` is used only for membership, as `VecCols`. The feature matrix built from it is not modelled.
- The truth value of a genre cell in the metadata table is given as a boolean per cell, not derived from the raw values.
- The FastAPI routes other than `/autocomplete`, their HTTP errors (such as the 404 for an empty genre result), CORS, and the request models' bounds. The Pydantic bounds of `/autocomplete` are kept as `ValidQuery`.
- Autocomplete.Autocomplete: `row.get("Image URL", "")` falls back to "" only when the column is absent. The metadata table always has that column, so the fallback is not modelled. The `dropna` on `title_lower` removes nothing after `fillna("")` and is omitted.
- String functions work on ASCII only: `lower`, `title` and `isspace` ignore non-ASCII letters and whitespace, and there is no Unicode case folding.
- config/paths.py (file locations) is not part of this model.
