# Movie log: record table, tag vocabulary and form normalisation

This project models the in-process logic of a single-user movie log
(`movie_app_db.py`). The log keeps its movies in a spreadsheet whose first row is
the header `title, poster_url, rating, tags, review, created_at`. Each movie is one
row below it, and the page addresses a movie by its 0-based display index.

The model has four modules:

- `Text` (text.dfy): the Python string operations the page relies on. These are
  `str.strip()`, `str.split(',')`, `",".join(...)`, the ordering of `str` values
  and `list.sort()`.
- `MovieSheet` (sheet.dfy): the worksheet as a grid of cells.
  - `Worksheet` is a class whose `grid` field the three write operations
    `AddMovieToDb`, `UpdateMovieInDb` and `DeleteMovieFromDb` reassign in place.
  - Each write is proved against a function of the grid before it
    (`AddedMovie`, `UpdatedMovie`, `DeletedMovie`).
  - `ViewAllMovies` is the read.
  - The `ViewAfter*` lemmas state what each write does to the movies the read
    returns, index by index.
- `TagVocabulary` (tags.dfy): `get_available_tags`. It is a method with the
  source's nested loops. It unions the used tags with the base and session tags,
  lists the union and sorts the list.
- `MovieForms` (forms.dfy): the add form's submit handler, the editor's rating
  and pre-selected tags, and the sidebar's custom-tag cache. Widget values are
  parameters.

Sheet row `r` (1-based) is `grid[r - 1]`, so the movie at display index `i` is
`grid[i + 2 - 1]`. The header row is `grid[0]`. `Worksheet.Valid()` says the
header is the schema and every row has six cells. Every write keeps it.

Two points about ratings and indices:
- `movie_app_db.py` stores whole-star ratings 1..5. A chosen star widget index
  0..4 is stored plus one. On add, 3 is stored when no star was chosen; an edit
  without stars keeps the stored rating.
- The update and delete functions (movie_app_db.py:106-116) do no range check
  of their own. Their only callers (lines 264 and 267) pass an index taken from
  the current read, so in the page the index always addresses a movie. As a
  modelling choice, the sheet here ends at its last movie row, and an index
  that addresses no movie returns `ok == false` and leaves the sheet unchanged.
  A real sheet can have blank grid rows past the last movie, and a write there
  would go through. Only a row past the grid's end makes the first call raise.

## Model

| member | source | states |
|---|---|---|
| `MovieSheet.DecimalDigits` | movie_app_db.py:124 | `str()` of a whole number gives decimal digits with no leading zero (zero itself is the single digit `0`), and reading them back gives the number. |
| `MovieSheet.CellStr` | movie_app_db.py:98 | `str()` of a text cell is the text. `str()` of a number is its decimal numeral, with a minus sign exactly when the number is negative. |
| `MovieSheet.TagsAsText` | movie_app_db.py:97-98 | The tags cell becomes the text `str()` gives for it. The other five cells are unchanged. |
| `MovieSheet.SetCell` | movie_app_db.py:109-111 | `update_cell(row, col, v)` puts `v` in that one cell. Every other cell is unchanged and the grid keeps its shape. |
| `MovieSheet.ViewAllMovies` | movie_app_db.py:91-99 | The columns are exactly the six schema names in order, also when the sheet has no movie rows. In that case the rows are empty, not an error. Otherwise row `i` is sheet row `i + 2` with the tags cell turned into its text. |
| `MovieSheet.AddedMovie` | movie_app_db.py:101-104 | An add appends exactly one row after the unchanged old rows. That row is `[title, poster, rating, tags, review, date]` in column order. The header is kept. |
| `MovieSheet.Worksheet.AddMovieToDb` | movie_app_db.py:101-104 | The sheet's movies become the old movies plus the new row, dated by the `date` parameter. The invariant (schema header, six cells per row) is kept. |
| `MovieSheet.ViewAfterAdd` | movie_app_db.py:101-104 | After an add, the read shows the former movies at their old indices and then the new movie with all six submitted fields, including the date. |
| `MovieSheet.UpdatedMovie` | movie_app_db.py:106-111 | Index `i` addresses grid row `i + 1`, which is sheet row `i + 2`. Only the rating (column 3), tags (column 4) and review (column 5) of that row change. Title, poster_url, created_at, the header and every other row are unchanged. |
| `MovieSheet.Worksheet.UpdateMovieInDb` | movie_app_db.py:106-111 | `ok` holds exactly when the index addresses a movie. The new grid is then `UpdatedMovie` of the old one. Otherwise the grid is unchanged. The header and every other movie are kept either way. |
| `MovieSheet.ViewAfterUpdate` | movie_app_db.py:106-111 | After an edit of display index `i`, the read shows movie `i` with the new rating, tags and review and its other cells as before. Every other movie is unchanged at its own index. |
| `MovieSheet.DeletedMovie` | movie_app_db.py:113-116 | Deleting index `i` removes sheet row `i + 2`. The grid is one row shorter. The header and the rows before it are unchanged, and every later row moves up by one. |
| `MovieSheet.Worksheet.DeleteMovieFromDb` | movie_app_db.py:113-116 | `ok` holds exactly when the index addresses a movie. The movies are then the old ones without entry `i`. Otherwise the grid is unchanged. The header is kept either way. |
| `MovieSheet.ViewAfterDelete` | movie_app_db.py:113-116 | After deleting display index `i`, the read is `before[..i] + before[i+1..]`. The former movie `i + 1` is now at `i`. |
| `MovieSheet.DeleteFirstOfTwo` | movie_app_db.py:113-116 | With two movies, deleting index 0 leaves only the former second movie, now at index 0. |
| `Text.Strip` | movie_app_db.py:124-125 | The result has no whitespace at either end. It is empty exactly when the input is all whitespace. It equals the input exactly when the input has no whitespace at either end. |
| `Text.StripInfix` | movie_app_db.py:124-125 | The input is a whitespace prefix, then the result, then a whitespace suffix. With the first clause of `Strip`, the result is the longest middle part with no whitespace at its ends. |
| `Text.Split` | movie_app_db.py:124 | Splitting on commas gives at least one piece, so `""` splits into `[""]`. |
| `Text.SplitPiecesCommaFree` | movie_app_db.py:124 | No piece of a split contains a comma. |
| `Text.Join` | movie_app_db.py:209 | `",".join` of no pieces is empty. Otherwise the result starts with the first piece and is exactly one character per gap longer than the pieces together. |
| `Text.JoinAppend` | movie_app_db.py:209 | Joining two non-empty lists one after the other is joining each with one comma between them. So the separator between neighbours is a comma, even when the pieces contain commas themselves. |
| `Text.JoinSplit` | movie_app_db.py:258 | Joining the pieces of a split with commas gives back the original string. |
| `Text.SplitJoin` | movie_app_db.py:209 | Splitting a comma-joined, non-empty list of comma-free tags gives back the list. With `JoinSplit`, the split is the only comma-free list whose join is the string. |
| `Text.Le` | movie_app_db.py:129 | A string is at most every string it is a prefix of, so `"ab"` sorts before `"abc"`. |
| `Text.LeFirstDifference` | movie_app_db.py:129 | When two strings first differ at position `k`, the one with the smaller code point there is the smaller one. |
| `Text.LeTotal` | movie_app_db.py:129 | Any two strings are comparable in Python's code-point order. |
| `Text.LeTransitive` | movie_app_db.py:129 | Python's string order is transitive. |
| `Text.LeAntisymmetric` | movie_app_db.py:129 | Two strings that are each at most the other are equal. |
| `Text.Sort` | movie_app_db.py:129 | `sort()` returns an ascending rearrangement of its input, with the same multiset of elements. |
| `Text.SortDistinct` | movie_app_db.py:128-129 | Sorting a duplicate-free list, such as one built from a set, gives a strictly ascending list with the same elements. |
| `TagVocabulary.ColumnIndex` | movie_app_db.py:122-123 | Looking up the `tags` column by name finds a position holding that name. |
| `TagVocabulary.StrippedTagsFrom` | movie_app_db.py:124-125 | Every tag taken from a tags string is the non-empty strip of one of its comma pieces. |
| `TagVocabulary.StrippedTagsHas` | movie_app_db.py:124-125 | The non-empty strip of every comma piece is taken. |
| `TagVocabulary.UnionAllFrom` | movie_app_db.py:122-125 | Every used tag comes from the tags of some row. |
| `TagVocabulary.UnionAllHas` | movie_app_db.py:122-125 | Every tag named by any row is a used tag. |
| `TagVocabulary.ListOf` | movie_app_db.py:128 | Listing a set gives each of its members exactly once and nothing else. |
| `TagVocabulary.TableTagsStripped` | movie_app_db.py:122-125 | Every tag taken from the table is non-empty and already stripped. |
| `TagVocabulary.GetAvailableTags` | movie_app_db.py:119-130 | The result is strictly ascending, so it has no duplicates. Its elements are exactly the base tags, the session tags and every non-empty stripped comma piece of every row's tags. |
| `MovieForms.AddFormEntry` | movie_app_db.py:204-209 | An empty title gives nothing. Otherwise the title and review are kept, and the poster is the given URL or, when that is empty, the placeholder URL `https://via.placeholder.com/300?text=No+Poster`. The rating is the star index plus one (so 1..5), or 3 without stars. The tags are the selection joined with commas. |
| `MovieForms.SubmitAddForm` | movie_app_db.py:204-209 | An empty title leaves the sheet unchanged. Otherwise exactly one row, built from the normalised form values and dated `date`, is appended. |
| `MovieForms.EditorRating` | movie_app_db.py:255 | With a star chosen, the saved rating is the star index plus one, in 1..5. Without one, it is the stored rating unchanged. |
| `MovieForms.KnownPieces` | movie_app_db.py:259 | The filtered list is no longer than the pieces. Every element is an offered option and is already stripped. |
| `MovieForms.KnownPiecesMembers` | movie_app_db.py:259 | For any option list, a tag is kept exactly when it is an offered option and some piece strips to it. |
| `MovieForms.EditorDefaultTags` | movie_app_db.py:258-259 | An empty stored string pre-selects nothing. Otherwise a tag is pre-selected exactly when it is an offered option and some comma piece of the stored string strips to it. Every pre-selected tag is stripped. |
| `MovieForms.NonEmptyStripsMembers` | movie_app_db.py:124-125 | The editor's reference list of non-empty strips names exactly the tags the vocabulary collects from the same pieces. |
| `MovieForms.EditorRecoversSavedTags` | movie_app_db.py:258-259 | Saving offered, stripped, comma-free, non-empty tags and opening the editor again pre-selects exactly those tags, in order. |
| `MovieForms.EditorKeepsEveryStoredTag` | movie_app_db.py:258-259 | When the options are the vocabulary of the current read and no session tag is empty, the editor drops only empty pieces. Every tag the movie names is pre-selected, in order. |
| `MovieForms.CacheCustomTag` | movie_app_db.py:187-189 | A non-empty tag not yet cached is appended and nothing else changes. The cache stays free of empty tags and duplicates. |

## Left out

- Page rendering: CSS and HTML injection, columns, expanders, toasts, images and the star HTML (movie_app_db.py:16-76, 215-269). It is UI with no stated behaviour.
- The login gate and logout (movie_app_db.py:135-160, 181-183). They are session UI state around a plaintext comparison.
- The proxy set-up and the credentials in `get_sheet` (movie_app_db.py:9-13, 79-89). They are configuration and calls into the Google client library.
- Spreadsheet library semantics. The model does not cover the conversion of numeric-looking text to numbers when rows are read, network and authentication errors, or the empty grid rows a real sheet has past its last movie. A write past the last movie row is modelled as a failure that writes nothing.
- `MovieSheet.Worksheet.UpdateMovieInDb`: the three cell writes succeed together or fail together. A network failure between two writes, which would leave only some cells written, is not modelled.
- The timestamp, the pause and the re-run (movie_app_db.py:103, 211-212). The date is a parameter, and its `YYYY-MM-DD` formatting is not modelled.
- The lazy initialisation of the session's custom tags (movie_app_db.py:126-127). The session store itself is not modelled: the custom tags are a parameter.
- The widgets' own defaults, such as the add form's pre-selected first base tag (movie_app_db.py:201). The selection is a parameter.
- `MovieForms.EditorRating`: the stored rating is taken as an integer. `int()` of a non-numeric rating cell would raise, which is not modelled. The unused star index computed at movie_app_db.py:251 is not modelled either.
- The read's table is modelled as column names plus rows of cells. Pandas type inference, beyond turning the tags column into text, is not modelled.
- Concurrent sessions that make a display index address the wrong row. This is a concurrency hazard outside a sequential model.
- debug.py is not part of this model. It is a connection diagnostic made of I/O and error display.
