/**
 * The movie log's spreadsheet: one header row naming the six columns,
 * followed by one row per movie. Sheet rows are numbered from 1 and the
 * header is row 1, so the movie at display index `i` (0-based, in the
 * order the read returns them) lives on sheet row `i + 2`.
 */
module MovieSheet {
  /** The value held by one cell: text, or a whole number (the rating). */
  datatype Cell = Str(s: string) | Num(n: int)

  /** A read of the sheet: column names and, per movie, its cells in column order. */
  datatype Frame = Frame(columns: seq<string>, rows: seq<seq<Cell>>)

  /** Every row of the sheet has one cell per schema column. */
  const Width: nat := 6

  /** The columns, in the order the edits address them by ordinal. */
  function Schema(): seq<string> {
    ["title", "poster_url", "rating", "tags", "review", "created_at"]
  }

  /** The header row: one text cell per schema name, in order. */
  function HeaderRow(): (h: seq<Cell>)
    ensures |h| == Width
    ensures forall c :: 0 <= c < Width ==> h[c] == Str(Schema()[c])
  {
    seq(|Schema()|, c requires 0 <= c < |Schema()| => Str(Schema()[c]))
  }

  /** The sheet as a grid of rows: the schema header first, every row six cells wide. */
  predicate WellFormed(g: seq<seq<Cell>>) {
    && |g| >= 1
    && g[0] == HeaderRow()
    && forall r :: 0 <= r < |g| ==> |g[r]| == Width
  }

  /** The row appended for a new movie, in schema column order. */
  function MovieRow(title: string, poster: string, rating: int, tags: string, review: string, date: string): (row: seq<Cell>)
    ensures |row| == Width
  {
    [Str(title), Str(poster), Num(rating), Str(tags), Str(review), Str(date)]
  }

  // ---------------------------------------------------------------------
  // Cell text, as Python's str() shows a cell value
  // ---------------------------------------------------------------------

  predicate IsDigit(ch: char) {
    '0' <= ch <= '9'
  }

  function DigitChar(d: nat): (ch: char)
    requires d < 10
    ensures IsDigit(ch) && ch as int - '0' as int == d
  {
    "0123456789"[d]
  }

  /** The number a string of decimal digits denotes, as `int()` reads it. */
  function DigitsValue(s: string): nat
    requires forall i :: 0 <= i < |s| ==> IsDigit(s[i])
  {
    if s == [] then 0
    else
      assert IsDigit(s[|s| - 1]);
      DigitsValue(s[..|s| - 1]) * 10 + (s[|s| - 1] as int - '0' as int)
  }

  /**
   * `str(n)` of a natural number: decimal digits without a leading zero
   * (just "0" for zero) that denote `n`.
   */
  function DecimalDigits(n: nat): (r: string)
    ensures |r| >= 1 && forall i :: 0 <= i < |r| ==> IsDigit(r[i])
    ensures |r| > 1 ==> r[0] != '0'
    ensures r[0] == '0' ==> n == 0
    ensures DigitsValue(r) == n
    decreases n
  {
    if n < 10 then [DigitChar(n)]
    else
      var front := DecimalDigits(n / 10);
      var r := front + [DigitChar(n % 10)];
      assert r[..|r| - 1] == front;
      r
  }

  /**
   * `str(v)` of a cell value: text as it is; a number as its decimal
   * numeral, with a minus sign in front when it is negative.
   */
  function CellStr(c: Cell): (r: string)
    ensures c.Str? ==> r == c.s
    ensures c.Num? ==> |r| >= 1 && (r[0] == '-' <==> c.n < 0)
    ensures c.Num? && c.n >= 0 ==> r == DecimalDigits(c.n)
    ensures c.Num? && c.n < 0 ==> r[1..] == DecimalDigits(-c.n)
  {
    match c
    case Str(s) => s
    case Num(n) => if n < 0 then "-" + DecimalDigits(-n) else DecimalDigits(n)
  }

  // ---------------------------------------------------------------------
  // The grid after each operation, as functions of the grid before
  // ---------------------------------------------------------------------

  /** The grid after writing `v` into sheet row `row`, column `col` (both 1-based). */
  function SetCell(g: seq<seq<Cell>>, row: nat, col: nat, v: Cell): (g': seq<seq<Cell>>)
    requires 1 <= row <= |g| && 1 <= col <= |g[row - 1]|
    ensures |g'| == |g| && forall r :: 0 <= r < |g| ==> |g'[r]| == |g[r]|
    ensures g'[row - 1][col - 1] == v
    ensures forall r, c :: 0 <= r < |g| && 0 <= c < |g[r]| && (r, c) != (row - 1, col - 1) ==> g'[r][c] == g[r][c]
  {
    g[row - 1 := g[row - 1][col - 1 := v]]
  }

  /** The grid after a new movie is appended. */
  function AddedMovie(g: seq<seq<Cell>>, title: string, poster: string, rating: int, tags: string, review: string, date: string): (g': seq<seq<Cell>>)
    requires WellFormed(g)
    ensures WellFormed(g')
    ensures |g'| == |g| + 1 && g'[..|g|] == g
    ensures g'[|g|] == MovieRow(title, poster, rating, tags, review, date)
  {
    g + [MovieRow(title, poster, rating, tags, review, date)]
  }

  /**
   * The grid after the three cell writes of an edit of the movie at display
   * index `index`: review into column 5, rating into column 3, tags into
   * column 4 of sheet row `index + 2`. Only those three cells change.
   */
  function UpdatedMovie(g: seq<seq<Cell>>, index: nat, review: string, rating: int, tags: string): (g': seq<seq<Cell>>)
    requires WellFormed(g) && index + 2 <= |g|
    ensures WellFormed(g') && |g'| == |g|
    ensures forall r :: 0 <= r < |g| && r != index + 1 ==> g'[r] == g[r]
    ensures g'[index + 1][0] == g[index + 1][0]
    ensures g'[index + 1][1] == g[index + 1][1]
    ensures g'[index + 1][2] == Num(rating)
    ensures g'[index + 1][3] == Str(tags)
    ensures g'[index + 1][4] == Str(review)
    ensures g'[index + 1][5] == g[index + 1][5]
  {
    var row := index + 2;
    var g1 := SetCell(g, row, 5, Str(review));
    var g2 := SetCell(g1, row, 3, Num(rating));
    SetCell(g2, row, 4, Str(tags))
  }

  /**
   * The grid after sheet row `index + 2` is deleted: the rows above it stay
   * where they were and every row below it moves up by one.
   */
  function DeletedMovie(g: seq<seq<Cell>>, index: nat): (g': seq<seq<Cell>>)
    requires WellFormed(g) && index + 2 <= |g|
    ensures WellFormed(g') && |g'| == |g| - 1
    ensures forall r :: 0 <= r <= index ==> g'[r] == g[r]
    ensures forall r :: index + 1 <= r < |g'| ==> g'[r] == g[r + 1]
  {
    var row := index + 2;
    g[..row - 1] + g[row..]
  }

  // ---------------------------------------------------------------------
  // Reading the sheet
  // ---------------------------------------------------------------------

  /** A movie row as the read shows it: the tags cell turned into its text. */
  function TagsAsText(row: seq<Cell>): (r: seq<Cell>)
    requires |row| == Width
    ensures |r| == Width && r[3].Str? && r[3].s == CellStr(row[3])
    ensures forall c :: 0 <= c < Width && c != 3 ==> r[c] == row[c]
  {
    row[3 := Str(CellStr(row[3]))]
  }

  /**
   * Reads every movie. With no movie rows the result is an empty table with
   * exactly the six schema columns, not an error; otherwise the columns are
   * named by the header and the movies come in sheet order, tags as text.
   */
  function ViewAllMovies(g: seq<seq<Cell>>): (df: Frame)
    requires WellFormed(g)
    ensures df.columns == Schema()
    ensures |df.rows| == |g| - 1
    ensures |g| == 1 ==> df.rows == []
    ensures forall i :: 0 <= i < |df.rows| ==> |df.rows[i]| == Width
    ensures forall i, c :: 0 <= i < |df.rows| && 0 <= c < Width && c != 3 ==> df.rows[i][c] == g[i + 1][c]
    ensures forall i :: 0 <= i < |df.rows| ==> df.rows[i][3] == Str(CellStr(g[i + 1][3]))
  {
    if |g| == 1 then
      Frame(Schema(), [])
    else
      var names := seq(Width, c requires 0 <= c < Width => CellStr(g[0][c]));
      assert names == Schema();
      Frame(names, seq(|g| - 1, i requires 0 <= i < |g| - 1 => TagsAsText(g[i + 1])))
  }

  /** After an add, the read shows the former movies and then the new one, with its date. */
  lemma ViewAfterAdd(g: seq<seq<Cell>>, title: string, poster: string, rating: int, tags: string, review: string, date: string)
    requires WellFormed(g)
    ensures ViewAllMovies(AddedMovie(g, title, poster, rating, tags, review, date)).rows
         == ViewAllMovies(g).rows + [MovieRow(title, poster, rating, tags, review, date)]
  {
    var g' := AddedMovie(g, title, poster, rating, tags, review, date);
    var before, after := ViewAllMovies(g).rows, ViewAllMovies(g').rows;
    var row := MovieRow(title, poster, rating, tags, review, date);
    forall i | 0 <= i < |after| ensures after[i] == (before + [row])[i] {
      if i < |before| {
        assert g'[i + 1] == g[i + 1];
      } else {
        assert g'[i + 1] == row;
      }
    }
  }

  /**
   * After an edit of display index `index`, the read shows that movie with
   * the new review, rating and tags and its other cells as before, and every
   * other movie unchanged at its own index.
   */
  lemma ViewAfterUpdate(g: seq<seq<Cell>>, index: nat, review: string, rating: int, tags: string)
    requires WellFormed(g) && index < |ViewAllMovies(g).rows|
    ensures var before := ViewAllMovies(g).rows;
            var after := ViewAllMovies(UpdatedMovie(g, index, review, rating, tags)).rows;
            && |after| == |before|
            && (forall i :: 0 <= i < |before| && i != index ==> after[i] == before[i])
            && after[index] == before[index][2 := Num(rating)][3 := Str(tags)][4 := Str(review)]
  {
    var g' := UpdatedMovie(g, index, review, rating, tags);
    var before, after := ViewAllMovies(g).rows, ViewAllMovies(g').rows;
    forall i | 0 <= i < |before| && i != index ensures after[i] == before[i] {
      assert g'[i + 1] == g[i + 1];
    }
    var expected := before[index][2 := Num(rating)][3 := Str(tags)][4 := Str(review)];
    forall c | 0 <= c < Width ensures after[index][c] == expected[c] {
    }
  }

  /**
   * After deleting display index `index`, the read is one movie shorter: the
   * movies before it keep their index, and the one formerly at `i + 1` is
   * now at `i` for every `i >= index`.
   */
  lemma ViewAfterDelete(g: seq<seq<Cell>>, index: nat)
    requires WellFormed(g) && index < |ViewAllMovies(g).rows|
    ensures var before := ViewAllMovies(g).rows;
            ViewAllMovies(DeletedMovie(g, index)).rows == before[..index] + before[index + 1..]
  {
    var g' := DeletedMovie(g, index);
    var before, after := ViewAllMovies(g).rows, ViewAllMovies(g').rows;
    var expected := before[..index] + before[index + 1..];
    forall i | 0 <= i < |after| ensures after[i] == expected[i] {
      if i < index {
        assert g'[i + 1] == g[i + 1];
      } else {
        assert g'[i + 1] == g[i + 2];
      }
    }
  }

  // ---------------------------------------------------------------------
  // The sheet itself, changed in place
  // ---------------------------------------------------------------------

  /**
   * The worksheet: `grid[r - 1]` is sheet row `r`. Its invariant is that the
   * header row is the schema and every row is six cells wide.
   */
  class Worksheet {
    var grid: seq<seq<Cell>>

    ghost predicate Valid()
      reads this
    {
      WellFormed(grid)
    }

    /** The movie rows, in display order. */
    function Movies(): seq<seq<Cell>>
      reads this
      requires Valid()
    {
      grid[1..]
    }

    /** A sheet holding the header and then the given movie rows. */
    constructor (movies: seq<seq<Cell>>)
      requires forall r :: 0 <= r < |movies| ==> |movies[r]| == Width
      ensures Valid() && Movies() == movies
    {
      grid := [HeaderRow()] + movies;
    }

    /** Appends one movie row at the end, dated `date`. */
    method AddMovieToDb(title: string, poster: string, rating: int, tags: string, review: string, date: string)
      requires Valid()
      modifies this
      ensures Valid()
      ensures grid == AddedMovie(old(grid), title, poster, rating, tags, review, date)
      ensures Movies() == old(Movies()) + [MovieRow(title, poster, rating, tags, review, date)]
    {
      grid := grid + [MovieRow(title, poster, rating, tags, review, date)];
      assert grid[1..] == old(grid[1..]) + [MovieRow(title, poster, rating, tags, review, date)];
    }

    /**
     * Rewrites review, rating and tags of the movie at display index `index`
     * by three cell writes on sheet row `index + 2`. The sheet here ends at
     * its last movie, so an index that addresses no movie writes nothing and
     * gives `ok == false`; the page itself only passes indices of the read.
     */
    method UpdateMovieInDb(index: nat, newReview: string, newRating: int, newTags: string) returns (ok: bool)
      requires Valid()
      modifies this
      ensures Valid()
      ensures ok <==> index < old(|Movies()|)
      ensures ok ==> grid == UpdatedMovie(old(grid), index, newReview, newRating, newTags)
      ensures !ok ==> grid == old(grid)
      ensures grid[0] == old(grid[0]) && |Movies()| == old(|Movies()|)
      ensures forall i :: 0 <= i < |Movies()| && i != index ==> Movies()[i] == old(Movies()[i])
    {
      var row := index + 2;
      if row > |grid| {
        return false;
      }
      grid := SetCell(grid, row, 5, Str(newReview));
      grid := SetCell(grid, row, 3, Num(newRating));
      grid := SetCell(grid, row, 4, Str(newTags));
      ok := true;
    }

    /**
     * Deletes sheet row `index + 2`, the movie at display index `index`;
     * the movies after it move up one index. An index that addresses no
     * movie deletes nothing and gives `ok == false`.
     */
    method DeleteMovieFromDb(index: nat) returns (ok: bool)
      requires Valid()
      modifies this
      ensures Valid()
      ensures ok <==> index < old(|Movies()|)
      ensures ok ==> grid == DeletedMovie(old(grid), index)
      ensures ok ==> Movies() == old(Movies()[..index] + Movies()[index + 1..])
      ensures !ok ==> grid == old(grid)
      ensures grid[0] == old(grid[0])
    {
      var row := index + 2;
      if row > |grid| {
        return false;
      }
      grid := grid[..row - 1] + grid[row..];
      ok := true;
      assert grid[1..] == old(grid[1..][..index] + grid[1..][index + 1..]);
    }
  }

  /** Two movies; deleting display index 0 leaves the former second movie at index 0. */
  lemma DeleteFirstOfTwo(a: seq<Cell>, b: seq<Cell>)
    requires |a| == Width && |b| == Width
    ensures DeletedMovie([HeaderRow(), a, b], 0) == [HeaderRow(), b]
  {
  }
}
