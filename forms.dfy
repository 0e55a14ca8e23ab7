/**
 * What the page does with the widget values before it touches the sheet:
 * the add form (title, poster URL, star feedback, selected tags, review),
 * the per-movie editor (star feedback and the tags it pre-selects) and
 * the session's cache of custom tags. Widget values arrive as parameters.
 */
module MovieForms {
  import opened Text
  import opened MovieSheet
  import opened TagVocabulary

  datatype Option<T> = None | Some(value: T)

  /** What a star feedback widget reports when a star is chosen: 0 for one star up to 4 for five. */
  type StarIndex = k: int | 0 <= k < 5

  /** The poster stored for a movie added without a poster URL. */
  const Placeholder: string := "https://via.placeholder.com/300?text=No+Poster"

  /** The rating stored when the add form is submitted without choosing stars. */
  const DefaultRating: int := 3

  /** The values the add form hands to the sheet. */
  datatype NewMovie = NewMovie(title: string, poster: string, rating: int, tags: string, review: string)

  /**
   * Submitting the add form: nothing when the title is empty; otherwise the
   * title and review as typed, the poster URL or the placeholder when it is
   * empty, one more than the chosen star index (three when none was chosen),
   * and the selected tags joined with commas.
   */
  function AddFormEntry(title: string, poster: string, stars: Option<StarIndex>, selected: seq<string>, review: string): (e: Option<NewMovie>)
    ensures e.None? <==> title == []
    ensures e.Some? ==> e.value.title == title && e.value.review == review
    ensures e.Some? && poster != [] ==> e.value.poster == poster
    ensures e.Some? && poster == [] ==> e.value.poster == Placeholder
    ensures e.Some? ==> 1 <= e.value.rating <= 5
    ensures e.Some? && stars.Some? ==> e.value.rating - 1 == stars.value
    ensures e.Some? && stars.None? ==> e.value.rating == DefaultRating
    ensures e.Some? ==> e.value.tags == Join(selected)
  {
    if title == [] then None
    else
      var finalPoster := if poster != [] then poster else Placeholder;
      var finalRating := if stars.Some? then stars.value + 1 else DefaultRating;
      Some(NewMovie(title, finalPoster, finalRating, Join(selected), review))
  }

  /**
   * The add form's submit handler: an empty title leaves the sheet as it
   * was; otherwise exactly one movie row, dated `date`, is appended.
   */
  method SubmitAddForm(sheet: Worksheet, title: string, poster: string, stars: Option<StarIndex>,
                       selected: seq<string>, review: string, date: string)
    requires sheet.Valid()
    modifies sheet
    ensures sheet.Valid()
    ensures title == [] ==> sheet.grid == old(sheet.grid)
    ensures title != [] ==>
      var e := AddFormEntry(title, poster, stars, selected, review).value;
      sheet.Movies() == old(sheet.Movies()) + [MovieRow(e.title, e.poster, e.rating, e.tags, e.review, date)]
  {
    var entry := AddFormEntry(title, poster, stars, selected, review);
    if entry.Some? {
      var e := entry.value;
      sheet.AddMovieToDb(e.title, e.poster, e.rating, e.tags, e.review, date);
    }
  }

  /**
   * The rating an editor saves: one more than the chosen star index, or the
   * stored rating unchanged when no star was chosen.
   */
  function EditorRating(stars: Option<StarIndex>, stored: int): (r: int)
    ensures stars.Some? ==> 1 <= r <= 5 && r - 1 == stars.value
    ensures stars.None? ==> r == stored
  {
    if stars.Some? then stars.value + 1 else stored
  }

  /** The stripped pieces that are offered options, in order. */
  function KnownPieces(pieces: seq<string>, options: seq<string>): (r: seq<string>)
    ensures |r| <= |pieces|
    ensures forall j :: 0 <= j < |r| ==> r[j] in options && Strip(r[j]) == r[j]
  {
    if pieces == [] then []
    else
      var t := Strip(pieces[0]);
      var rest := KnownPieces(pieces[1..], options);
      var r := (if t in options then [t] else []) + rest;
      assert forall j :: 0 <= j < |rest| ==> rest[j] == r[j + |r| - |rest|];
      r
  }

  /** A tag is kept exactly when it is an offered option and some piece strips to it. */
  lemma {:induction false} KnownPiecesMembers(pieces: seq<string>, options: seq<string>)
    ensures forall t :: t in KnownPieces(pieces, options) <==> t in options && StripsFromPiece(pieces, t)
  {
    if pieces != [] {
      KnownPiecesMembers(pieces[1..], options);
      StripsFromPieceCons(pieces);
    }
  }

  /**
   * The tags an editor pre-selects for a stored tags string: none when it is
   * empty; otherwise each comma piece, stripped, that is an offered option.
   */
  function EditorDefaultTags(stored: string, options: seq<string>): (r: seq<string>)
    ensures stored == [] ==> r == []
    ensures forall j :: 0 <= j < |r| ==> r[j] in options && Strip(r[j]) == r[j]
    ensures stored != [] ==> forall t :: t in r <==> t in options && StripsFromPiece(Split(stored), t)
  {
    if stored == [] then []
    else
      KnownPiecesMembers(Split(stored), options);
      KnownPieces(Split(stored), options)
  }

  /** The non-empty strips of the pieces, in order: the reference for what an editor can keep. */
  function NonEmptyStrips(pieces: seq<string>): seq<string> {
    if pieces == [] then []
    else (if Strip(pieces[0]) != [] then [Strip(pieces[0])] else []) + NonEmptyStrips(pieces[1..])
  }

  /**
   * The editor's reference list and the vocabulary's set of used tags name
   * the same tags: the non-empty strips of the pieces.
   */
  lemma {:induction false} NonEmptyStripsMembers(pieces: seq<string>)
    ensures forall t :: t in NonEmptyStrips(pieces) <==> t != [] && StripsFromPiece(pieces, t)
    ensures forall t :: t in NonEmptyStrips(pieces) <==> t in StrippedTags(pieces)
  {
    if pieces != [] {
      NonEmptyStripsMembers(pieces[1..]);
      StripsFromPieceCons(pieces);
    }
    StrippedTagsMembers(pieces);
  }

  lemma {:induction false} KnownPiecesKeepsAll(pieces: seq<string>, options: seq<string>)
    requires forall p | p in pieces :: p in options && Strip(p) == p
    ensures KnownPieces(pieces, options) == pieces
  {
    if pieces != [] {
      assert forall p | p in pieces[1..] :: p in pieces;
      KnownPiecesKeepsAll(pieces[1..], options);
      assert pieces[0] in pieces;
      assert pieces == [pieces[0]] + pieces[1..];
    }
  }

  /**
   * Tags saved from a selection of offered, stripped, comma-free, non-empty
   * tags are exactly the tags the editor pre-selects for that movie
   * afterwards: the add form's join and the editor's split undo each other.
   */
  lemma EditorRecoversSavedTags(selected: seq<string>, options: seq<string>)
    requires forall t | t in selected :: t in options && t != [] && Strip(t) == t && ',' !in t
    ensures EditorDefaultTags(Join(selected), options) == selected
  {
    if selected != [] {
      SplitJoin(selected);
      assert selected[0] in selected;
      assert Join(selected) != [];
      KnownPiecesKeepsAll(selected, options);
    }
  }

  lemma {:induction false} KnownPiecesDropsOnlyEmpty(pieces: seq<string>, options: seq<string>)
    requires forall j :: 0 <= j < |pieces| && Strip(pieces[j]) != [] ==> Strip(pieces[j]) in options
    requires [] !in options
    ensures KnownPieces(pieces, options) == NonEmptyStrips(pieces)
  {
    if pieces != [] {
      assert forall j :: 1 <= j < |pieces| ==> pieces[1..][j - 1] == pieces[j];
      KnownPiecesDropsOnlyEmpty(pieces[1..], options);
    }
  }

  /**
   * When the options are the vocabulary of the current read and no session
   * tag is empty, the editor's filter against the options drops only the
   * empty pieces of a movie's stored tags: every tag the movie names is
   * pre-selected.
   */
  lemma EditorKeepsEveryStoredTag(df: Frame, customTags: seq<string>, options: seq<string>, i: nat)
    requires Rectangular(df) && "tags" in df.columns && i < |df.rows|
    requires forall t | t in customTags :: t != []
    requires forall t :: t in options <==> t in Vocabulary(df, customTags)
    ensures var stored := CellStr(df.rows[i][ColumnIndex(df.columns, "tags")]);
            EditorDefaultTags(stored, options) == if stored == [] then [] else NonEmptyStrips(Split(stored))
  {
    var k := ColumnIndex(df.columns, "tags");
    var stored := CellStr(df.rows[i][k]);
    if stored != [] {
      var pieces := Split(stored);
      forall j | 0 <= j < |pieces| && Strip(pieces[j]) != [] ensures Strip(pieces[j]) in options {
        StrippedTagsHas(pieces, j);
        UnionAllHas(RowTags(df.rows, k), i, Strip(pieces[j]));
      }
      if [] in TableTags(df) { TableTagsStripped(df, []); }
      assert [] !in options;
      KnownPiecesDropsOnlyEmpty(pieces, options);
    }
  }

  /**
   * Caching a custom tag typed into the sidebar: a non-empty tag not yet
   * cached is appended; anything else leaves the cache as it was. The cache
   * stays free of empty tags and of duplicates.
   */
  function CacheCustomTag(customTags: seq<string>, newTag: string): (r: seq<string>)
    ensures forall t :: t in r <==> t in customTags || (t == newTag && newTag != [])
    ensures (forall t | t in customTags :: t != []) ==> (forall t | t in r :: t != [])
    ensures Distinct(customTags) ==> Distinct(r)
    ensures |customTags| <= |r| <= |customTags| + 1 && r[..|customTags|] == customTags
    ensures !(newTag != [] && newTag !in customTags) ==> r == customTags
  {
    if newTag != [] && newTag !in customTags then customTags + [newTag] else customTags
  }
}
