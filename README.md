# Movie recommendation lookup, modelled in Dafny

This project models the core of a movie recommendation demo with two Flask
front-ends, `Recommendation_system/app.py` and `Recommendation_system/appp.py`.
A catalog of movies (id and title) and a precomputed similarity matrix are
loaded at start-up. For a selected title, `recommend` does four things:

1. It finds the first catalog position holding that title (`movies[movies['title'] == movie].index[0]`).
2. It takes that row of the matrix and pairs every column index with its score.
3. It sorts the pairs by score, descending, with Python's stable `sorted(..., reverse=True)`.
4. It keeps sorted positions 1 to 5 (`[1:6]`), on the assumption that position 0 is the movie itself.

Each kept neighbour is then shown with metadata from the TMDB API.
`app.py`'s `fetch_details` extracts six display fields from the JSON reply,
each with a default. `appp.py`'s `fetch_poster` extracts only the poster URL.

Modules, one per component:

- `Wrappers` (wrappers.dfy): `Option` and `Result`.
- `Ranking` (ranking.dfy): the enumerate / stable descending sort / `[1:6]` pipeline. It is written as a head-first insertion sort over `(column, score)` pairs. Lemmas cover permutation, ordering, tie order, uniqueness, length, exclusion of the top-ranked column, and the top-five property.
- `Catalog` (catalog.dfy): catalog rows, the title lookup, and `RankedFor`, which looks up the title, fetches the row and ranks it. Both front-ends share it.
- `Metadata` (metadata.dfy): a JSON value type, Python truthiness, `str.strip`, the per-field extraction of `fetch_details` (as a specification function and as the step-by-step method), and `fetch_poster`.
- `App` (app.py) and `Appp` (appp.py): the two `recommend` loops. One builds a list of item dicts. The other builds two parallel lists, titles and posters.
- `Scenarios` (scenarios.dfy): small catalogs and rows that pin down the ranking.

What is abstracted:

- **The network.** Each movie id maps to a `Response`: either `ConnectionFailed` (`requests.get` raised) or `Reply(status, body)`, where `body` is `None` when `.json()` raises. The function from id to response is a parameter of `recommend`. The source makes a separate HTTP call per neighbour; the model assumes that within one request the same movie id always gets the same reply.
- **`str()` and `round(x, 1)`.** Two Python built-ins are parameters too, bundled in `Builtins`. `str()` is applied to a non-string `poster_path`, and `round(x, 1)` to a numeric `vote_average`.
- **Scores.** They are `real`, since only comparisons between scores are used.
- **Catalog and matrix.** They are plain sequences. A matrix too short for the title's row, or a ranked column with no catalog row, raises `IndexError` in the source. Here both are error results (`RowMissing`, `CatalogIndexOutOfRange`), not preconditions.

The two front-ends differ, and the model keeps the differences:

- **`app.py`.** `fetch_details` wraps everything in `try`. It calls `raise_for_status`, so a status in [400, 600) gives all defaults, and so does a body that is not a JSON object (it has no `.get`).
- **`appp.py`.** `fetch_poster` has no `try` and no `raise_for_status`. It reads the poster from an error reply's JSON body. A missing response, a body that is not JSON, or JSON that is not an object makes the whole request fail with `MetadataUnavailable`.

A Python `bool` is an `int`, so the JSON type keeps `JBool`:

- `True` and `False` count as numbers for the rating.
- `True` counts as a positive int for the runtime.

## Model

| member | source | states |
|---|---|---|
| `Ranking.Slice` | Recommendation_system/app.py:124 | Python slice `s[lo:hi]`: both bounds clamped to the length, so `[1:6]` of a list of length at most 1 is empty; the elements are those from `lo` on |
| `Ranking.Enumerate` | Recommendation_system/app.py:124 | `list(enumerate(row))`: one pair per column, position i holding (i, row[i]) |
| `Ranking.Insert` | Recommendation_system/app.py:124 | one insertion step of the sort: the result holds the list's entries plus the inserted one (same multiset, one longer); its ordering is stated by `InsertRanked` |
| `Ranking.InsertRanked` | Recommendation_system/app.py:124 | inserting an entry whose index is below every index of a ranked list keeps the list ranked (equal scores: the new entry goes first) |
| `Ranking.SortDesc` | Recommendation_system/app.py:124 | the sort returns exactly the entries it was given (same multiset, same length); its ordering is stated by `SortDescRanked` |
| `Ranking.SortDescRanked` | Recommendation_system/app.py:124 | on a list with ascending indices (an enumerated row) the sort orders by strictly descending score, and equal scores keep ascending column order (stability) |
| `Ranking.RankedUnique` | Recommendation_system/app.py:124 | two ranked lists with the same entries are equal, so the score-descending, index-ascending order is unique |
| `Ranking.SortedRowIsTheRankedPermutation` | Recommendation_system/app.py:124 | any ranked permutation of the enumerated row is the sorted row; this is the order Python's stable reverse sort produces, so the insertion sort and `sorted` agree |
| `Ranking.SortedRowOfRanked` | Recommendation_system/app.py:124 | a row whose enumeration is already ranked is left in place by the stable sort |
| `Ranking.SortedRowFacts` | Recommendation_system/app.py:124 | the sorted row is a permutation of `enumerate(row)`, has the row's length, is ranked, and pairs every column with its own score |
| `Ranking.Neighbours` | Recommendation_system/app.py:124 | `sorted(...)[1:6]` of the row: exactly min(5, max(0, N - 1)) neighbours for a row of length N; a catalog of at most one movie gives none, without error |
| `Ranking.NeighboursRanked` | Recommendation_system/app.py:124 | every neighbour is a column below N with its own score; columns are distinct; scores are non-increasing; equal scores appear in ascending column order |
| `Ranking.TopRankedDropped` | Recommendation_system/app.py:124 | the first-ranked column of the whole row is never a neighbour |
| `Ranking.TopIsMaximal` | Recommendation_system/app.py:124 | the first-ranked entry has the highest score in the row |
| `Ranking.StrictMaximumExcluded` | Recommendation_system/app.py:124 | when the query's own column scores strictly above every other column, it is not recommended |
| `Ranking.NeighboursAreTop` | Recommendation_system/app.py:124 | any column that is neither dropped nor kept scores no higher than every kept neighbour (a top five) |
| `Catalog.FindTitle` | Recommendation_system/app.py:122 | the smallest catalog position whose title equals the query, or none exactly when no title is equal (appp.py:28 is the same expression) |
| `Catalog.RankedFor` | Recommendation_system/app.py:122-124 | `TitleNotFound` exactly when no catalog title equals the request; `RowMissing` exactly when the title's position has no matrix row; no other error; on success, min(5, max(0, N - 1)) neighbours of the title's row (appp.py:28-30 is the same code); the ordering and content facts are in `RankedForFacts` |
| `Catalog.RankedForFacts` | Recommendation_system/app.py:122-124 | a found title with a matrix row makes the lookup succeed; the neighbours number min(5, max(0, N - 1)), are distinct columns of that row with their own, non-increasing scores, ties in column order, and exclude the title's own position when it is the row's strict maximum |
| `Metadata.Truthy` | Recommendation_system/app.py:97 | Python truthiness of a JSON value (`if poster_path:`, and the `g.get('name')` test at app.py:113): `None`, `False`, zero and empty strings, lists and dicts are false; a definition, used by the `PosterFor`, `PosterDistinguishable` and `GenreNames` rows |
| `Metadata.PosterFor` | Recommendation_system/app.py:96-98 | a truthy `poster_path` gives the image prefix followed by the path (a string path verbatim); anything else gives the placeholder URL |
| `Metadata.PosterDistinguishable` | Recommendation_system/app.py:86-98 | the URL starts with the image prefix exactly when the path is truthy, so the placeholder is never mistaken for a poster |
| `Metadata.IsSpace` | Recommendation_system/app.py:100-101 | the characters Python's `str.strip()` removes (`str.isspace`: ASCII tab to carriage return, the separators 0x1C-0x1F, space, and the Unicode spaces and line separators); a definition, used by the three strip rows below |
| `Metadata.TrimStart` | Recommendation_system/app.py:100-101 | `s.lstrip()`: drops leading whitespace one character at a time; what it yields is stated by `TrimStartSpec` |
| `Metadata.TrimEnd` | Recommendation_system/app.py:100-101 | `s.rstrip()`: drops trailing whitespace one character at a time; what it yields is stated by `TrimEndSpec` |
| `Metadata.Strip` | Recommendation_system/app.py:100-101 | `s.strip()`, as `rstrip` after `lstrip`; what it yields is stated by `StripSpec` |
| `Metadata.TrimStartSpec` | Recommendation_system/app.py:100-101 | `lstrip` removes a whitespace prefix (Python's `isspace` characters) and leaves a suffix that is empty or starts with a non-space |
| `Metadata.TrimEndSpec` | Recommendation_system/app.py:100-101 | `rstrip` removes a whitespace suffix and leaves a prefix that is empty or ends with a non-space |
| `Metadata.StripSpec` | Recommendation_system/app.py:100-101 | `strip` yields the substring between leading and trailing whitespace; it is empty exactly when the text is blank, and otherwise starts and ends with a non-space |
| `Metadata.OverviewFor` | Recommendation_system/app.py:99-101 | the overview is replaced only by a string with a non-space character, and then by its stripped, non-empty form; otherwise "Description unavailable." |
| `Metadata.RatingFor` | Recommendation_system/app.py:102-107 | a rating exactly when `vote_average` is an int, float or bool, and then it is `round(float(v), 1)` |
| `Metadata.YearFor` | Recommendation_system/app.py:108-110 | a year exactly when `release_date` is a string of at least four characters, and then it is its four-character prefix |
| `Metadata.RuntimeFor` | Recommendation_system/app.py:114-116 | a runtime exactly when the value is an int above 0 (or `True`), and then it is positive and equal to the int |
| `Metadata.GenreNames` | Recommendation_system/app.py:113 | the comprehension keeps no more names than the list has elements, and every kept name is truthy |
| `Metadata.GenresFor` | Recommendation_system/app.py:111-113 | a non-list `genres` gives the empty list; a list gives its comprehension |
| `Metadata.GenreNamesAppend` | Recommendation_system/app.py:113 | the comprehension distributes over list concatenation, so it handles each element independently |
| `Metadata.GenreNamesSnoc` | Recommendation_system/app.py:113 | in order: one more element appends its name at the end exactly when it is a dict with a truthy `name` |
| `Metadata.GenreNamesMembers` | Recommendation_system/app.py:113 | a value is among the genres exactly when some element is a dict whose truthy `name` is that value |
| `Metadata.DecodedObject` | Recommendation_system/app.py:92-96 | there is data to read exactly when the call returned, the status is not 4xx/5xx, the body is JSON and that JSON is an object |
| `Metadata.ExtractDetails` | Recommendation_system/app.py:83-119 | any failure (no reply, error status, undecodable body, non-object body) gives all six defaults; otherwise each field comes from its own key alone |
| `Metadata.FetchDetails` | Recommendation_system/app.py:83-119 | the step-by-step version (six defaults, then conditional reassignments) returns exactly the specified details |
| `Metadata.FetchPoster` | Recommendation_system/appp.py:17-25 | fails exactly when there is no reply, no JSON body or a non-object body; otherwise the poster URL, whatever the status |
| `Metadata.PosterVariantsAgree` | Recommendation_system/appp.py:19-25 | both front-ends give the same poster when `fetch_details` has data; on an error status with an object body only `fetch_poster` reads the body |
| `App.Assemble` | Recommendation_system/app.py:126-140 | fails exactly when some ranked column has no catalog row; otherwise one item per neighbour in rank order, item k carrying the k-th neighbour's title and the details fetched for its movie id |
| `App.Recommend` | Recommendation_system/app.py:121-140 | lookup errors pass through; otherwise the result is the assembled items, at most five, matching the ranked neighbours one to one |
| `Appp.Assemble` | Recommendation_system/appp.py:32-38 | two lists of equal length, position k holding the k-th neighbour's title and poster; success exactly when every neighbour has a catalog row and a poster reply; otherwise the first failing neighbour's error |
| `Appp.Recommend` | Recommendation_system/appp.py:27-38 | lookup errors pass through; otherwise the two parallel lists, at most five each, with the same ranking as the other front-end |
| `Scenarios.ThreeMovieCatalog` | Recommendation_system/app.py:121-124 | catalog A, B, C with row [1.0, 0.9, 0.2] for A recommends columns 1 and 2 (B then C) |
| `Scenarios.DescendingRow` | Recommendation_system/app.py:124 | a row with strictly descending scores x > y > z yields columns 1 and 2 in that order |
| `Scenarios.TieAtTopKeepsSelf` | Recommendation_system/app.py:124 | for a row [x, x, z] with x > z (movie 1's row, tying with column 0), column 0 ranks first and is dropped, so movie 1 recommends itself |
| `Scenarios.SingleMovieCatalog` | Recommendation_system/app.py:122-124 | a one-movie catalog yields no neighbours and no error (a corollary of the `RankedFor` contract) |

## Left out

- The Flask application, its route and `render_template` (app.py:142-155, appp.py:40-55) are HTML and HTTP glue.
- `requests.get` is not modelled: the URL with its embedded API key, the timeout, and the call itself. The call becomes the `Response` value supplied for each movie id. A call in appp.py without a timeout can hang; that is not represented.
- Artifact loading is not modelled: `_first_existing`, `_download_with_cache` (retries, `time.sleep` backoff, temp-file rename) and the pickle/pandas loading (app.py:24-80, appp.py:10-14). This is file-system, network and timing work. The catalog and matrix are given as sequences.
- The pandas index label that `.index[0]` returns is taken to be the catalog position. This holds for a `DataFrame` built with a default range index.
- Similarity scores are reals. NaN and infinities are not represented, so how `sorted` orders them is not modelled.
- JSON numbers are reals too. Python's `json` also accepts `NaN` and `Infinity`; a NaN `poster_path` is truthy and `round(nan, 1)` is NaN. Those values are not represented.
- Character data is Unicode scalar values. Python strings may also hold lone surrogates.
- A JSON object is a map from keys to values. The decoder has already resolved duplicate keys.
- `Metadata.RatingFor`: does not model the `OverflowError` that `float()` raises on a huge int. The inner `try` (app.py:102-107) would turn it into a missing rating. `round(x, 1)` itself is a parameter, because it is float arithmetic.
- `Metadata.RuntimeFor`: returns 1 for a JSON `true`, where Python keeps the value `True`. The two are equal as ints, and differ only in how the template renders them.
- `Metadata.PosterFor`: `str()` of a non-string `poster_path` (int, float, list, dict) is a parameter, not Python's exact rendering.
- api/index.py only adjusts `sys.path` and imports the app; it has no logic. `Recommendation_system/app copy.py` is a separate Streamlit front-end and is not part of this model. It downloads its artifacts with retries, and its `fetch_poster` has its own `try`, calls `raise_for_status`, builds the URL with `+` and falls back to a different placeholder (`text=No+Image`).
