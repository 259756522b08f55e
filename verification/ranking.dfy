/** The recommender: rows of the selected genre, ordered by rating from
    highest to lowest with missing ratings last, first ten kept
    (`df[df["genre"] == g].sort_values("rating", ascending=False).head(10)`).
    The order among rows of equal rating is left unspecified, since pandas'
    default sort is not stable. */
module Ranking {
  import opened Tables
  import Cleaning

  /** How many recommendations `head` keeps. */
  const TopN: nat := 10

  /** Sort key of a rating cell; a missing rating has none. */
  function RatingKey(c: Cell): Option<real> {
    if c.Num? then Some(c.n) else None
  }

  function Key(row: Row, r: nat): Option<real> {
    RatingKey(At(row, r))
  }

  /** `a` may stand before `b` in a descending sort that puts missing values
      last. */
  predicate AtOrAbove(a: Option<real>, b: Option<real>) {
    b.None? || (a.Some? && a.value >= b.value)
  }

  /** Ratings (column `r`) never increase along `rows`, and every missing
      rating comes after every present one. */
  predicate SortedByRating(rows: seq<Row>, r: nat) {
    forall i, j | 0 <= i < j < |rows| :: AtOrAbove(Key(rows[i], r), Key(rows[j], r))
  }

  function Insert(x: Row, s: seq<Row>, r: nat): (u: seq<Row>)
    requires SortedByRating(s, r)
    ensures SortedByRating(u, r)
    ensures multiset(u) == multiset(s) + multiset{x}
  {
    if |s| == 0 then [x]
    else if AtOrAbove(Key(x, r), Key(s[0], r)) then [x] + s
    else
      var tail := Insert(x, s[1..], r);
      assert s == [s[0]] + s[1..];
      forall k | 0 <= k < |tail|
        ensures AtOrAbove(Key(s[0], r), Key(tail[k], r))
      {
        assert tail[k] in multiset(tail);
      }
      [s[0]] + tail
  }

  /** Orders rows by rating, highest first, missing ratings last. */
  function SortByRating(s: seq<Row>, r: nat): (u: seq<Row>)
    ensures SortedByRating(u, r)
    ensures multiset(u) == multiset(s)
  {
    if |s| == 0 then []
    else
      assert s == [s[0]] + s[1..];
      Insert(s[0], SortByRating(s[1..], r), r)
  }

  /** `df["genre"] == g` for one row: a null never compares equal. */
  predicate GenreIs(row: Row, g: nat, sel: Cell) {
    !At(row, g).Null? && At(row, g) == sel
  }

  /** `df[df["genre"] == sel]`: the matching rows, in table order. */
  function SelectGenre(rows: seq<Row>, g: nat, sel: Cell): (u: seq<Row>)
    ensures forall k | 0 <= k < |u| :: GenreIs(u[k], g, sel)
    ensures forall x :: multiset(u)[x] == if GenreIs(x, g, sel) then multiset(rows)[x] else 0
  {
    if |rows| == 0 then []
    else
      assert rows == [rows[0]] + rows[1..];
      (if GenreIs(rows[0], g, sel) then [rows[0]] else []) + SelectGenre(rows[1..], g, sel)
  }

  /** In a sorted sequence no row after position `n` ranks above a row before it. */
  lemma {:induction false} PrefixDominates(ranked: seq<Row>, n: nat, r: nat, x: Row)
    requires SortedByRating(ranked, r)
    requires n <= |ranked|
    requires multiset(ranked[..n])[x] < multiset(ranked)[x]
    ensures forall k | 0 <= k < n :: AtOrAbove(Key(ranked[k], r), Key(x, r))
  {
    assert ranked == ranked[..n] + ranked[n..];
    assert multiset(ranked) == multiset(ranked[..n]) + multiset(ranked[n..]);
    assert x in multiset(ranked[n..]);
    var m :| 0 <= m < |ranked[n..]| && ranked[n..][m] == x;
    assert ranked[n + m] == x;
  }

  /** The first `TopN` rows of the matching rows sorted by rating. */
  function TopRated(rows: seq<Row>, g: nat, sel: Cell, r: nat): seq<Row> {
    var ranked := SortByRating(SelectGenre(rows, g, sel), r);
    ranked[..if |ranked| < TopN then |ranked| else TopN]
  }

  lemma PrefixMultiset(s: seq<Row>, n: nat)
    requires n <= |s|
    ensures multiset(s) == multiset(s[..n]) + multiset(s[n..])
  {
    assert s == s[..n] + s[n..];
  }

  /** The kept rows are sorted, all of the selected genre, and taken from the
      table with no row repeated more often than it occurs there. */
  lemma {:induction false} TopRatedDrawnFromMatches(rows: seq<Row>, g: nat, sel: Cell, r: nat)
    ensures var out := TopRated(rows, g, sel, r);
      && |out| <= TopN
      && multiset(out) <= multiset(rows)
      && SortedByRating(out, r)
      && forall k | 0 <= k < |out| :: GenreIs(out[k], g, sel)
  {
    var matched := SelectGenre(rows, g, sel);
    var ranked := SortByRating(matched, r);
    var out := TopRated(rows, g, sel, r);
    PrefixMultiset(ranked, |out|);
    assert multiset(out) <= multiset(matched);
    assert multiset(matched) <= multiset(rows) by {
      forall x
        ensures multiset(matched)[x] <= multiset(rows)[x]
      {
      }
    }
    forall k | 0 <= k < |out|
      ensures GenreIs(out[k], g, sel)
    {
      assert out[k] in multiset(matched);
    }
  }

  /** Nothing is recommended exactly when no row has the selected genre. */
  lemma {:induction false} TopRatedEmpty(rows: seq<Row>, g: nat, sel: Cell, r: nat)
    ensures TopRated(rows, g, sel, r) == [] <==> forall i | 0 <= i < |rows| :: !GenreIs(rows[i], g, sel)
  {
    var matched := SelectGenre(rows, g, sel);
    var ranked := SortByRating(matched, r);
    assert |ranked| == |matched| by {
      assert |multiset(ranked)| == |multiset(matched)|;
    }
    if TopRated(rows, g, sel, r) == [] {
      NoMatchesNoRows(rows, g, sel);
    } else {
      SomeMatchSomeRow(rows, g, sel, ranked[0]);
    }
  }

  lemma NoMatchesNoRows(rows: seq<Row>, g: nat, sel: Cell)
    requires SelectGenre(rows, g, sel) == []
    ensures forall i | 0 <= i < |rows| :: !GenreIs(rows[i], g, sel)
  {
    forall i | 0 <= i < |rows|
      ensures !GenreIs(rows[i], g, sel)
    {
      assert multiset(SelectGenre(rows, g, sel))[rows[i]] == 0;
      assert rows[i] in multiset(rows);
    }
  }

  lemma SomeMatchSomeRow(rows: seq<Row>, g: nat, sel: Cell, x: Row)
    requires x in multiset(SelectGenre(rows, g, sel))
    ensures exists i | 0 <= i < |rows| :: GenreIs(rows[i], g, sel)
  {
    assert x in multiset(rows);
    var i :| 0 <= i < |rows| && rows[i] == x;
    assert GenreIs(rows[i], g, sel);
  }

  /** With fewer than `TopN` matches every matching row is recommended. */
  lemma {:induction false} TopRatedShortIsComplete(rows: seq<Row>, g: nat, sel: Cell, r: nat)
    ensures |TopRated(rows, g, sel, r)| < TopN ==>
              forall x | GenreIs(x, g, sel) :: multiset(TopRated(rows, g, sel, r))[x] == multiset(rows)[x]
  {
    var ranked := SortByRating(SelectGenre(rows, g, sel), r);
    if |TopRated(rows, g, sel, r)| < TopN {
      assert TopRated(rows, g, sel, r) == ranked;
    }
  }

  /** A matching row left out ranks no higher than any row that was kept. */
  lemma {:induction false} TopRatedDominates(rows: seq<Row>, g: nat, sel: Cell, r: nat)
    ensures var out := TopRated(rows, g, sel, r);
      forall x | GenreIs(x, g, sel) && multiset(out)[x] < multiset(rows)[x] ::
        forall k | 0 <= k < |out| :: AtOrAbove(Key(out[k], r), Key(x, r))
  {
    var ranked := SortByRating(SelectGenre(rows, g, sel), r);
    var out := TopRated(rows, g, sel, r);
    forall x | GenreIs(x, g, sel) && multiset(out)[x] < multiset(rows)[x]
      ensures forall k | 0 <= k < |out| :: AtOrAbove(Key(out[k], r), Key(x, r))
    {
      PrefixDominates(ranked, |out|, r, x);
    }
  }

  /** Some row of genre `sel` holds a string rating, which cannot be ordered
      against the numeric ones. */
  predicate HasStringRating(rows: seq<Row>, g: nat, sel: Cell, r: nat) {
    exists i | 0 <= i < |rows| :: GenreIs(rows[i], g, sel) && At(rows[i], r).Str?
  }

  /** The recommendations for genre `sel` (lines 143-150). Without a `genre`
      column the script shows a warning instead; a missing or repeated
      `rating` label makes `sort_values` raise; a string rating cannot be
      ordered against the numeric ones. */
  function Recommend(t: Table, sel: Cell): (res: Result<seq<Row>>)
    requires t.WellFormed()
    ensures res == Err(MissingColumn("genre")) <==> "genre" !in t.columns
    ensures Repeated(t.columns, "genre") ==> res == Err(DuplicateColumn("genre"))
    ensures Lookup(t.columns, "genre").Ok? && "rating" !in t.columns ==> res == Err(MissingColumn("rating"))
    ensures Lookup(t.columns, "genre").Ok? && Repeated(t.columns, "rating") ==> res == Err(DuplicateColumn("rating"))
    ensures res.Ok? <==>
              && Lookup(t.columns, "genre").Ok? && Lookup(t.columns, "rating").Ok?
              && !HasStringRating(t.rows, Lookup(t.columns, "genre").value, sel, Lookup(t.columns, "rating").value)
    ensures res == Err(UnorderableRating) <==>
              && Lookup(t.columns, "genre").Ok? && Lookup(t.columns, "rating").Ok?
              && HasStringRating(t.rows, Lookup(t.columns, "genre").value, sel, Lookup(t.columns, "rating").value)
    ensures res.Ok? ==> Lookup(t.columns, "genre").Ok? && Lookup(t.columns, "rating").Ok?
    ensures res.Ok? ==> |res.value| <= TopN
    ensures res.Ok? ==> multiset(res.value) <= multiset(t.rows)
    ensures res.Ok? ==> var g := Lookup(t.columns, "genre").value;
              forall k | 0 <= k < |res.value| :: GenreIs(res.value[k], g, sel)
    ensures res.Ok? ==> SortedByRating(res.value, Lookup(t.columns, "rating").value)
    ensures res.Ok? ==> var g := Lookup(t.columns, "genre").value;
              (res.value == [] <==> forall i | 0 <= i < |t.rows| :: !GenreIs(t.rows[i], g, sel))
    ensures res.Ok? && |res.value| < TopN ==> var g := Lookup(t.columns, "genre").value;
              forall x | GenreIs(x, g, sel) :: multiset(res.value)[x] == multiset(t.rows)[x]
    ensures res.Ok? ==> var g := Lookup(t.columns, "genre").value; var r := Lookup(t.columns, "rating").value;
              forall x | GenreIs(x, g, sel) && multiset(res.value)[x] < multiset(t.rows)[x] ::
                forall k | 0 <= k < |res.value| :: AtOrAbove(Key(res.value[k], r), Key(x, r))
  {
    match Lookup(t.columns, "genre")
    case Err(f) => Err(f)
    case Ok(g) =>
      match Lookup(t.columns, "rating")
      case Err(f) => Err(f)
      case Ok(r) =>
        if HasStringRating(t.rows, g, sel, r) then
          Err(UnorderableRating)
        else
          TopRatedDrawnFromMatches(t.rows, g, sel, r);
          TopRatedEmpty(t.rows, g, sel, r);
          TopRatedShortIsComplete(t.rows, g, sel, r);
          TopRatedDominates(t.rows, g, sel, r);
          Ok(TopRated(t.rows, g, sel, r))
  }

  /** A cleaned table with one `genre` and a `rating` column always yields
      recommendations: cleaning leaves no string in the rating column. */
  lemma CleanTableRecommends(t: Table, sel: Cell)
    requires Cleaning.IsClean(t)
    requires Lookup(t.columns, "genre").Ok? && "rating" in t.columns
    ensures Recommend(t, sel).Ok?
  {
    var g := Lookup(t.columns, "genre").value;
    var r := Lookup(t.columns, "rating").value;
    assert Cleaning.IsNumericColumn(t.columns[r]);
    forall i | 0 <= i < |t.rows|
      ensures !At(t.rows[i], r).Str?
    {
    }
  }
}
