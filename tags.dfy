/**
 * The tag vocabulary offered by the add form and the editors: the fixed
 * base tags, every tag already used in the sheet, and the tags cached in
 * this session, without duplicates and in ascending order.
 */
module TagVocabulary {
  import opened Text
  import opened MovieSheet

  /** The eight genre tags that are always offered. */
  function BaseTags(): seq<string> {
    ["剧情", "科幻", "动作", "喜剧", "爱情", "悬疑", "动画", "恐怖"]
  }

  /** The tags a stored tags string names: its comma pieces, stripped, empty ones dropped. */
  function TagPieces(s: string): set<string> {
    StrippedTags(Split(s))
  }

  /** The non-empty stripped forms of some pieces, gathered left to right. */
  function StrippedTags(pieces: seq<string>): set<string> {
    if pieces == [] then {}
    else
      var last := Strip(pieces[|pieces| - 1]);
      StrippedTags(pieces[..|pieces| - 1]) + (if last != [] then {last} else {})
  }

  /** Some piece strips to `t`. */
  predicate StripsFromPiece(pieces: seq<string>, t: string) {
    exists j :: 0 <= j < |pieces| && Strip(pieces[j]) == t
  }

  /** A piece strips to `t` exactly when the first one does or one of the others does. */
  lemma StripsFromPieceCons(pieces: seq<string>)
    requires pieces != []
    ensures forall t :: StripsFromPiece(pieces, t) <==> Strip(pieces[0]) == t || StripsFromPiece(pieces[1..], t)
  {
    forall t | StripsFromPiece(pieces, t) && Strip(pieces[0]) != t ensures StripsFromPiece(pieces[1..], t) {
      var j :| 0 <= j < |pieces| && Strip(pieces[j]) == t;
      assert pieces[1..][j - 1] == pieces[j];
    }
    forall t | StripsFromPiece(pieces[1..], t) ensures StripsFromPiece(pieces, t) {
      var j :| 0 <= j < |pieces[1..]| && Strip(pieces[1..][j]) == t;
      assert pieces[j + 1] == pieces[1..][j];
    }
  }

  /** Every tag among the stripped pieces is the non-empty strip of one of them. */
  lemma {:induction false} StrippedTagsFrom(pieces: seq<string>, t: string)
    requires t in StrippedTags(pieces)
    ensures t != [] && StripsFromPiece(pieces, t)
  {
    var n := |pieces| - 1;
    var front := pieces[..n];
    if t in StrippedTags(front) {
      StrippedTagsFrom(front, t);
      var j :| 0 <= j < |front| && Strip(front[j]) == t && t != [];
      assert pieces[j] == front[j];
    }
  }

  /** The non-empty strip of every piece is among the stripped pieces. */
  lemma {:induction false} StrippedTagsHas(pieces: seq<string>, j: nat)
    requires j < |pieces| && Strip(pieces[j]) != []
    ensures Strip(pieces[j]) in StrippedTags(pieces)
  {
    var n := |pieces| - 1;
    if j < n {
      var front := pieces[..n];
      assert front[j] == pieces[j];
      StrippedTagsHas(front, j);
    }
  }

  /** The stripped pieces are exactly the non-empty strips of some piece. */
  lemma StrippedTagsMembers(pieces: seq<string>)
    ensures forall t :: t in StrippedTags(pieces) <==> t != [] && StripsFromPiece(pieces, t)
  {
    forall t | t in StrippedTags(pieces) ensures t != [] && StripsFromPiece(pieces, t) {
      StrippedTagsFrom(pieces, t);
    }
    forall t | t != [] && StripsFromPiece(pieces, t) ensures t in StrippedTags(pieces) {
      var j :| 0 <= j < |pieces| && Strip(pieces[j]) == t;
      StrippedTagsHas(pieces, j);
    }
  }

  lemma StrippedTagsSnoc(pieces: seq<string>, j: nat)
    requires j < |pieces|
    ensures StrippedTags(pieces[..j + 1])
         == StrippedTags(pieces[..j]) + (if Strip(pieces[j]) != [] then {Strip(pieces[j])} else {})
  {
    assert pieces[..j + 1][..j] == pieces[..j];
  }

  /** The union of a sequence of tag sets, gathered left to right. */
  function UnionAll(sets: seq<set<string>>): set<string> {
    if sets == [] then {} else UnionAll(sets[..|sets| - 1]) + sets[|sets| - 1]
  }

  /** Per row, the tags named by its tags cell (column `k`). */
  function RowTags(rows: seq<seq<Cell>>, k: nat): (sets: seq<set<string>>)
    requires forall i :: 0 <= i < |rows| ==> k < |rows[i]|
    ensures |sets| == |rows|
  {
    seq(|rows|, i requires 0 <= i < |rows| => TagPieces(CellStr(rows[i][k])))
  }

  /** The position of `name` among the column names. */
  function ColumnIndex(columns: seq<string>, name: string): (k: nat)
    requires name in columns
    ensures k < |columns| && columns[k] == name
  {
    if columns[0] == name then 0 else 1 + ColumnIndex(columns[1..], name)
  }

  /** A read whose every row has one cell per column. */
  predicate Rectangular(df: Frame) {
    forall i :: 0 <= i < |df.rows| ==> |df.rows[i]| == |df.columns|
  }

  /** Every tag used in the table; none when it has no rows or no tags column. */
  function TableTags(df: Frame): set<string>
    requires Rectangular(df)
  {
    if |df.rows| > 0 && "tags" in df.columns then UnionAll(RowTags(df.rows, ColumnIndex(df.columns, "tags")))
    else {}
  }

  /** The vocabulary as a set: base tags, used tags and session tags. */
  function Vocabulary(df: Frame, customTags: seq<string>): set<string>
    requires Rectangular(df)
  {
    (set t | t in BaseTags()) + TableTags(df) + (set t | t in customTags)
  }

  /** Every member of a union comes from one of the sets. */
  lemma {:induction false} UnionAllFrom(sets: seq<set<string>>, t: string)
    requires t in UnionAll(sets)
    ensures exists i :: 0 <= i < |sets| && t in sets[i]
  {
    var n := |sets| - 1;
    var front := sets[..n];
    if t in UnionAll(front) {
      UnionAllFrom(front, t);
      var i :| 0 <= i < |front| && t in front[i];
      assert sets[i] == front[i];
    }
  }

  /** Every member of one of the sets is in the union. */
  lemma {:induction false} UnionAllHas(sets: seq<set<string>>, i: nat, t: string)
    requires i < |sets| && t in sets[i]
    ensures t in UnionAll(sets)
  {
    var n := |sets| - 1;
    if i < n {
      var front := sets[..n];
      assert front[i] == sets[i];
      UnionAllHas(front, i, t);
    }
  }

  lemma UnionAllSnoc(sets: seq<set<string>>, i: nat)
    requires i < |sets|
    ensures UnionAll(sets[..i + 1]) == UnionAll(sets[..i]) + sets[i]
  {
    assert sets[..i + 1][..i] == sets[..i];
  }

  /** Every tag taken from the table is non-empty and already stripped. */
  lemma TableTagsStripped(df: Frame, t: string)
    requires Rectangular(df) && t in TableTags(df)
    ensures t != [] && Strip(t) == t
  {
    var k := ColumnIndex(df.columns, "tags");
    var sets := RowTags(df.rows, k);
    UnionAllFrom(sets, t);
    var i :| 0 <= i < |sets| && t in sets[i];
    var pieces := Split(CellStr(df.rows[i][k]));
    StrippedTagsFrom(pieces, t);
  }

  /** `list(tags)`: the members of a set in some order, each once. */
  method ListOf(tags: set<string>) returns (listed: seq<string>)
    ensures Distinct(listed)
    ensures forall t :: t in listed <==> t in tags
  {
    listed := [];
    var rest := tags;
    while rest != {}
      invariant rest <= tags
      invariant Distinct(listed)
      invariant forall t :: t in listed <==> t in tags && t !in rest
      decreases |rest|
    {
      var t :| t in rest;
      listed := listed + [t];
      rest := rest - {t};
    }
  }

  /**
   * `get_available_tags`: gathers the used tags row by row and piece by
   * piece, unions them with the base and session tags, lists the union and
   * sorts it. The result is strictly ascending (so free of duplicates) and
   * holds exactly the vocabulary.
   */
  method GetAvailableTags(df: Frame, customTags: seq<string>) returns (allTags: seq<string>)
    requires Rectangular(df)
    ensures StrictlyAscending(allTags)
    ensures forall t :: t in allTags <==> t in Vocabulary(df, customTags)
  {
    var used: set<string> := {};
    if |df.rows| > 0 && "tags" in df.columns {
      var k := ColumnIndex(df.columns, "tags");
      ghost var sets := RowTags(df.rows, k);
      for i := 0 to |df.rows|
        invariant used == UnionAll(sets[..i])
      {
        var pieces := Split(CellStr(df.rows[i][k]));
        for j := 0 to |pieces|
          invariant used == UnionAll(sets[..i]) + StrippedTags(pieces[..j])
        {
          StrippedTagsSnoc(pieces, j);
          var t := Strip(pieces[j]);
          if t != [] {
            used := used + {t};
          }
        }
        assert pieces[..|pieces|] == pieces;
        UnionAllSnoc(sets, i);
      }
      assert sets[..|df.rows|] == sets;
    }
    assert used == TableTags(df);
    var listed := ListOf((set t | t in BaseTags()) + used + (set t | t in customTags));
    SortDistinct(listed);
    allTags := Sort(listed);
  }
}
