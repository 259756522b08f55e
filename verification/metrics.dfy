/** The count figures the dashboard shows: total titles, the number of
    distinct genres (`nunique`), the per-genre tallies behind the genre bar
    chart (`value_counts`), and the genre choices offered to the
    recommender (`unique`). */
module Metrics {
  import opened Tables
  import Ranking
  import Cleaning

  /** The distinct non-null values of a column. */
  function DistinctValues(col: seq<Cell>): set<Cell> {
    set c | c in col && !c.Null?
  }

  /** Number of non-null cells of a column. */
  function NonNullCount(col: seq<Cell>): nat {
    |col| - multiset(col)[Null]
  }

  /** One bar of the genre chart: a value and how often it occurs. */
  datatype Tally = Tally(value: Cell, count: nat)

  predicate DistinctValuesOnly(ts: seq<Tally>) {
    forall i, j | 0 <= i < j < |ts| :: ts[i].value != ts[j].value
  }

  function ValuesOf(ts: seq<Tally>): set<Cell> {
    set i | 0 <= i < |ts| :: ts[i].value
  }

  /** Total of the counts attached to `v`. */
  function CountOf(ts: seq<Tally>, v: Cell): nat {
    if |ts| == 0 then 0 else (if ts[0].value == v then ts[0].count else 0) + CountOf(ts[1..], v)
  }

  /** Total of all counts. */
  function Sum(ts: seq<Tally>): nat {
    if |ts| == 0 then 0 else ts[0].count + Sum(ts[1..])
  }

  /** How values and distinctness split at the first tally. */
  lemma ValuesCons(ts: seq<Tally>)
    requires |ts| > 0
    ensures ValuesOf(ts) == {ts[0].value} + ValuesOf(ts[1..])
    ensures DistinctValuesOnly(ts) <==>
              DistinctValuesOnly(ts[1..]) && ts[0].value !in ValuesOf(ts[1..])
  {
    assert forall i | 0 <= i < |ts[1..]| :: ts[1..][i] == ts[i + 1];
    forall v | v in ValuesOf(ts)
      ensures v in {ts[0].value} + ValuesOf(ts[1..])
    {
      var i :| 0 <= i < |ts| && ts[i].value == v;
      if i > 0 { assert ts[1..][i - 1] == ts[i]; }
    }
    if DistinctValuesOnly(ts[1..]) && ts[0].value !in ValuesOf(ts[1..]) {
      forall i, j | 0 <= i < j < |ts|
        ensures ts[i].value != ts[j].value
      {
        if i == 0 {
          assert ts[1..][j - 1].value in ValuesOf(ts[1..]);
        } else {
          assert ts[1..][i - 1].value != ts[1..][j - 1].value;
        }
      }
    }
    if DistinctValuesOnly(ts) {
      forall i | 0 <= i < |ts[1..]|
        ensures ts[1..][i].value != ts[0].value
      {
        assert ts[1..][i] == ts[i + 1];
      }
    }
  }

  /** Adds one occurrence of `c`: its tally goes up by one, or a new tally of
      one is appended. */
  function Bump(ts: seq<Tally>, c: Cell): (u: seq<Tally>)
    ensures |u| == |ts| || |u| == |ts| + 1
  {
    if |ts| == 0 then [Tally(c, 1)]
    else if ts[0].value == c then [Tally(c, ts[0].count + 1)] + ts[1..]
    else [ts[0]] + Bump(ts[1..], c)
  }

  /** Bumping `c` adds one to the count of `c` and to no other count. */
  lemma {:induction false} BumpCounts(ts: seq<Tally>, c: Cell)
    ensures forall v :: CountOf(Bump(ts, c), v) == CountOf(ts, v) + (if v == c then 1 else 0)
    ensures Sum(Bump(ts, c)) == Sum(ts) + 1
  {
    var u := Bump(ts, c);
    if |ts| > 0 {
      assert u[1..] == if ts[0].value == c then ts[1..] else Bump(ts[1..], c);
      if ts[0].value != c {
        BumpCounts(ts[1..], c);
      }
    }
  }

  /** Bumping `c` adds `c` to the values, keeps them distinct, and keeps every
      count positive. */
  lemma {:induction false} BumpValues(ts: seq<Tally>, c: Cell)
    ensures ValuesOf(Bump(ts, c)) == ValuesOf(ts) + {c}
    ensures DistinctValuesOnly(ts) ==> DistinctValuesOnly(Bump(ts, c))
    ensures (forall i | 0 <= i < |ts| :: ts[i].count >= 1) ==>
              forall i | 0 <= i < |Bump(ts, c)| :: Bump(ts, c)[i].count >= 1
  {
    var u := Bump(ts, c);
    if |ts| == 0 {
      assert u[0].value == c;
    } else if ts[0].value == c {
      assert u[1..] == ts[1..];
      ValuesCons(ts);
      ValuesCons(u);
    } else {
      var tail := Bump(ts[1..], c);
      assert u[1..] == tail;
      BumpValues(ts[1..], c);
      ValuesCons(ts);
      ValuesCons(u);
      assert forall i | 0 <= i < |ts[1..]| :: ts[1..][i] == ts[i + 1];
      assert forall i | 1 <= i < |u| :: u[i] == tail[i - 1];
    }
  }

  /** With distinct values, an entry's count is the count attached to its value. */
  lemma {:induction false} CountOfEntry(ts: seq<Tally>, i: nat)
    requires DistinctValuesOnly(ts) && i < |ts|
    ensures CountOf(ts, ts[i].value) == ts[i].count
    decreases i
  {
    if i == 0 {
      CountOfAbsent(ts[1..], ts[0].value);
    } else {
      assert ts[1..][i - 1] == ts[i];
      assert DistinctValuesOnly(ts[1..]) by {
        forall a, b | 0 <= a < b < |ts[1..]|
          ensures ts[1..][a].value != ts[1..][b].value
        {
          assert ts[1..][a] == ts[a + 1] && ts[1..][b] == ts[b + 1];
        }
      }
      CountOfEntry(ts[1..], i - 1);
    }
  }

  lemma {:induction false} CountOfAbsent(ts: seq<Tally>, v: Cell)
    requires forall i | 0 <= i < |ts| :: ts[i].value != v
    ensures CountOf(ts, v) == 0
  {
    if |ts| > 0 {
      assert forall i | 0 <= i < |ts[1..]| :: ts[1..][i] == ts[i + 1];
      CountOfAbsent(ts[1..], v);
    }
  }

  /** Distinct values: one tally per value. */
  lemma {:induction false} TallyCardinality(ts: seq<Tally>)
    requires DistinctValuesOnly(ts)
    ensures |ValuesOf(ts)| == |ts|
  {
    if |ts| > 0 {
      var last := |ts| - 1;
      var front := ts[..last];
      assert DistinctValuesOnly(front);
      TallyCardinality(front);
      assert ValuesOf(ts) == ValuesOf(front) + {ts[last].value} by {
        forall v | v in ValuesOf(ts)
          ensures v in ValuesOf(front) + {ts[last].value}
        {
          var i :| 0 <= i < |ts| && ts[i].value == v;
          if i < last { assert front[i] == ts[i]; }
        }
      }
      assert ts[last].value !in ValuesOf(front);
    }
  }

  /** Every tally counts at least one, so there are no more tallies than
      counted occurrences. */
  lemma {:induction false} TalliesAtMostSum(ts: seq<Tally>)
    requires forall i | 0 <= i < |ts| :: ts[i].count >= 1
    ensures |ts| <= Sum(ts)
  {
    if |ts| > 0 {
      assert forall i | 0 <= i < |ts[1..]| :: ts[1..][i] == ts[i + 1];
      TalliesAtMostSum(ts[1..]);
    }
  }

  /** `value_counts()` of a column (nulls dropped), in order of first
      occurrence. */
  function ValueCounts(col: seq<Cell>): (ts: seq<Tally>)
    ensures DistinctValuesOnly(ts)
    ensures ValuesOf(ts) == DistinctValues(col)
    ensures forall v :: CountOf(ts, v) == if v.Null? then 0 else multiset(col)[v]
    ensures forall i | 0 <= i < |ts| :: ts[i].count >= 1
    ensures Sum(ts) == NonNullCount(col)
  {
    if |col| == 0 then []
    else
      var front := col[..|col| - 1];
      var c := col[|col| - 1];
      assert col == front + [c];
      var prior := ValueCounts(front);
      assert DistinctValues(col) == DistinctValues(front) + (if c.Null? then {} else {c});
      if c.Null? then prior
      else
        BumpCounts(prior, c);
        BumpValues(prior, c);
        Bump(prior, c)
  }

  /** Each tally of `value_counts` is the number of times its value occurs, and
      there is one tally per distinct non-null value. */
  lemma ValueCountsExact(col: seq<Cell>)
    ensures var ts := ValueCounts(col);
      && |ts| == |DistinctValues(col)|
      && (forall i | 0 <= i < |ts| :: !ts[i].value.Null? && ts[i].count == multiset(col)[ts[i].value])
      && |DistinctValues(col)| <= NonNullCount(col) <= |col|
  {
    var ts := ValueCounts(col);
    TallyCardinality(ts);
    TalliesAtMostSum(ts);
    forall i | 0 <= i < |ts|
      ensures !ts[i].value.Null? && ts[i].count == multiset(col)[ts[i].value]
    {
      assert ts[i].value in ValuesOf(ts);
      CountOfEntry(ts, i);
    }
  }

  /** `len(df)`: the "Total Titles" figure. */
  function TotalTitles(t: Table): nat {
    |t.rows|
  }

  /** `df["genre"]`: the one genre column. */
  function GenreColumn(t: Table): (r: Result<seq<Cell>>)
    requires t.WellFormed()
    ensures r.Ok? <==> Lookup(t.columns, "genre").Ok?
    ensures r.Err? ==> r == Err(MissingColumn("genre")) || r == Err(DuplicateColumn("genre"))
    ensures r.Ok? ==> |r.value| == TotalTitles(t)
    ensures r.Ok? ==> forall i | 0 <= i < |t.rows| :: r.value[i] == t.rows[i][Lookup(t.columns, "genre").value]
  {
    match Lookup(t.columns, "genre")
    case Ok(g) => Ok(Column(t, g))
    case Err(f) => Err(f)
  }

  /** `df["genre"].nunique()`: the "Unique Genres" figure. The script reads the
      column unguarded, so a table without one raises a KeyError here; with a
      repeated label `nunique` yields one count per column, which the metric
      widget rejects. */
  function UniqueGenres(t: Table): (r: Result<nat>)
    requires t.WellFormed()
    ensures r.Err? <==> "genre" !in t.columns || Repeated(t.columns, "genre")
    ensures r.Ok? ==> r.value == |DistinctValues(GenreColumn(t).value)|
    ensures r.Ok? ==> r.value <= TotalTitles(t)
    ensures r.Ok? ==> var g := Lookup(t.columns, "genre").value;
              (r.value == 0 <==> forall i | 0 <= i < |t.rows| :: t.rows[i][g].Null?)
  {
    match GenreColumn(t)
    case Err(f) => Err(f)
    case Ok(col) =>
      ValueCountsExact(col);
      var g := Lookup(t.columns, "genre").value;
      if forall i | 0 <= i < |t.rows| :: t.rows[i][g].Null? then
        assert DistinctValues(col) == {};
        Ok(0)
      else
        var i :| 0 <= i < |t.rows| && !t.rows[i][g].Null?;
        assert col[i] in DistinctValues(col);
        Ok(|DistinctValues(col)|)
  }

  /** `df["genre"].value_counts()`: the data of the genre bar chart. Errors
      are those the surrounding `try` turns into a warning. */
  function GenreDistribution(t: Table): (r: Result<seq<Tally>>)
    requires t.WellFormed()
    ensures r.Ok? <==> Lookup(t.columns, "genre").Ok?
    ensures r.Ok? ==> forall i | 0 <= i < |r.value| :: r.value[i].count >= 1
    ensures r.Ok? ==> var col := GenreColumn(t).value;
              DistinctValuesOnly(r.value) && ValuesOf(r.value) == DistinctValues(col)
              && Sum(r.value) == NonNullCount(col)
              && forall i | 0 <= i < |r.value| :: r.value[i].count == multiset(col)[r.value[i].value]
  {
    match GenreColumn(t)
    case Err(f) => Err(f)
    case Ok(col) =>
      ValueCountsExact(col);
      Ok(ValueCounts(col))
  }

  /** The genre chart has one bar per distinct genre, so it agrees with the
      "Unique Genres" figure, and its bars add up to the non-null genre cells. */
  lemma GenreFiguresAgree(t: Table)
    requires t.WellFormed()
    requires UniqueGenres(t).Ok?
    ensures GenreDistribution(t).Ok?
    ensures |GenreDistribution(t).value| == UniqueGenres(t).value
    ensures Sum(GenreDistribution(t).value) ==
              |set i | 0 <= i < |t.rows| && !t.rows[i][Lookup(t.columns, "genre").value].Null?|
  {
    var col := GenreColumn(t).value;
    var g := Lookup(t.columns, "genre").value;
    ValueCountsExact(col);
    NonNullCountIndices(col);
    assert (set i | 0 <= i < |t.rows| && !t.rows[i][g].Null?) == (set i | 0 <= i < |col| && !col[i].Null?);
  }

  /** The non-null cells are as many as the positions holding them. */
  lemma {:induction false} NonNullCountIndices(col: seq<Cell>)
    ensures NonNullCount(col) == |set i | 0 <= i < |col| && !col[i].Null?|
  {
    if |col| > 0 {
      var n := |col| - 1;
      var front := col[..n];
      assert col == front + [col[n]];
      NonNullCountIndices(front);
      var before := set i | 0 <= i < |front| && !front[i].Null?;
      var after := set i | 0 <= i < |col| && !col[i].Null?;
      if col[n].Null? {
        assert after == before;
      } else {
        assert after == before + {n};
      }
    }
  }

  /** Distinct cells of a column in order of first occurrence, null included
      once, as `Series.unique()` returns them. */
  function Unique(col: seq<Cell>): (u: seq<Cell>)
    ensures forall i, j | 0 <= i < j < |u| :: u[i] != u[j]
    ensures forall c :: c in u <==> c in col
  {
    if |col| == 0 then []
    else
      var front := col[..|col| - 1];
      var c := col[|col| - 1];
      assert col == front + [c];
      var prior := Unique(front);
      if c in prior then prior else prior + [c]
  }

  /** `df["genre"].unique()`: the choices of the genre select box (line 144). */
  function GenreOptions(t: Table): (r: Result<seq<Cell>>)
    requires t.WellFormed()
    ensures r.Ok? <==> Lookup(t.columns, "genre").Ok?
    ensures r.Ok? ==> forall i, j | 0 <= i < j < |r.value| :: r.value[i] != r.value[j]
    ensures r.Ok? ==> var g := Lookup(t.columns, "genre").value;
              forall c :: c in r.value <==> exists i | 0 <= i < |t.rows| :: t.rows[i][g] == c
  {
    match GenreColumn(t)
    case Err(f) => Err(f)
    case Ok(col) => Ok(Unique(col))
  }

  /** Choosing an offered genre succeeds exactly when there is one `rating`
      column and no row of that genre holds a string rating. On success an
      offered non-null genre yields at least one recommendation; the null
      genre (offered when the column holds a missing value) yields none,
      since null never compares equal. */
  lemma OfferedGenreRecommends(t: Table, sel: Cell)
    requires t.WellFormed()
    ensures GenreOptions(t).Ok? && sel in GenreOptions(t).value ==>
              (Ranking.Recommend(t, sel).Ok? <==>
                 && Lookup(t.columns, "rating").Ok?
                 && !Ranking.HasStringRating(t.rows, Lookup(t.columns, "genre").value, sel, Lookup(t.columns, "rating").value))
    ensures GenreOptions(t).Ok? && sel in GenreOptions(t).value && Ranking.Recommend(t, sel).Ok? ==>
              (!sel.Null? ==> |Ranking.Recommend(t, sel).value| >= 1)
              && (sel.Null? ==> Ranking.Recommend(t, sel).value == [])
  {
    if GenreOptions(t).Ok? && sel in GenreOptions(t).value && Ranking.Recommend(t, sel).Ok? {
      var g := Lookup(t.columns, "genre").value;
      var i :| 0 <= i < |t.rows| && t.rows[i][g] == sel;
      if !sel.Null? {
        assert Ranking.GenreIs(t.rows[i], g, sel);
      }
    }
  }

  /** On a cleaned table with one `genre` and a `rating` column, every genre
      the select box offers yields at least one recommendation. */
  lemma CleanOfferedGenreRecommends(t: Table, sel: Cell)
    requires Cleaning.IsClean(t)
    requires Lookup(t.columns, "genre").Ok? && "rating" in t.columns
    requires sel in GenreOptions(t).value
    ensures Ranking.Recommend(t, sel).Ok? && |Ranking.Recommend(t, sel).value| >= 1
  {
    var g := Lookup(t.columns, "genre").value;
    assert Cleaning.FillValue(t.columns[g]).Some?;
    Ranking.CleanTableRecommends(t, sel);
    OfferedGenreRecommends(t, sel);
    var i :| 0 <= i < |t.rows| && t.rows[i][g] == sel;
    assert !sel.Null?;
  }
}
