/** The cleaning block run on every upload: normalise the labels, turn the
    sentinel strings into nulls, coerce the two numeric columns, and fill
    the three text columns that have defaults. */
module Cleaning {
  import opened Tables
  import opened ColumnNames

  /** The literal strings the script treats as a missing value. */
  const Sentinels: set<string> := {"", " ", "NA", "N/A", "null", "None"}

  predicate IsSentinel(c: Cell) {
    c.Str? && c.s in Sentinels
  }

  /** `df.replace([...sentinels...], np.nan)` on one cell. */
  function ClearSentinel(c: Cell): (d: Cell)
    ensures !IsSentinel(d)
    ensures IsSentinel(c) ==> d == Null
    ensures !IsSentinel(c) ==> d == c
  {
    if IsSentinel(c) then Null else c
  }

  /** `df.replace(["", " ", "NA", "N/A", "null", "None"], np.nan)`. */
  function ReplaceSentinels(t: Table): (u: Table)
    requires t.WellFormed()
    ensures u.WellFormed() && u.columns == t.columns && |u.rows| == |t.rows|
    ensures forall i, j | 0 <= i < |u.rows| && 0 <= j < |u.columns| :: !IsSentinel(u.rows[i][j])
    ensures forall i, j | 0 <= i < |t.rows| && 0 <= j < |t.columns| ::
              !IsSentinel(t.rows[i][j]) ==> u.rows[i][j] == t.rows[i][j]
    ensures forall i, j | 0 <= i < |t.rows| && 0 <= j < |t.columns| ::
              IsSentinel(t.rows[i][j]) ==> u.rows[i][j] == Null
  {
    Table(t.columns, seq(|t.rows|, i requires 0 <= i < |t.rows| =>
      seq(|t.rows[i]|, j requires 0 <= j < |t.rows[i]| => ClearSentinel(t.rows[i][j]))))
  }

  /** A table holding no sentinel string is left as it is. */
  lemma ReplaceSentinelsFixed(t: Table)
    requires t.WellFormed()
    requires forall i, j | 0 <= i < |t.rows| && 0 <= j < |t.columns| :: !IsSentinel(t.rows[i][j])
    ensures ReplaceSentinels(t) == t
  {
    var u := ReplaceSentinels(t);
    forall i | 0 <= i < |t.rows|
      ensures u.rows[i] == t.rows[i]
    {
    }
  }

  /** Replacing sentinels twice is replacing them once. */
  lemma ReplaceSentinelsIdempotent(t: Table)
    requires t.WellFormed()
    ensures ReplaceSentinels(ReplaceSentinels(t)) == ReplaceSentinels(t)
  {
    ReplaceSentinelsFixed(ReplaceSentinels(t));
  }

  /** `pd.to_numeric(..., errors="coerce")` on one cell: numbers and nulls stay,
      a string becomes the number `parse` reads from it, or null when it reads
      none. `parse` stands for pandas' own string-to-number reading. */
  function ToNumeric(c: Cell, parse: string -> Option<real>): (d: Cell)
    ensures !d.Str?
    ensures !c.Str? ==> d == c
    ensures c.Str? ==> (d.Num? <==> parse(c.s).Some?)
    ensures c.Str? && d.Num? ==> d.n == parse(c.s).value
  {
    match c
    case Str(s) => (match parse(s) case Some(x) => Num(x) case None => Null)
    case _ => c
  }

  /** The two labels the script coerces to numbers. */
  predicate IsNumericColumn(name: string) {
    name == "rating" || name == "duration_minutes"
  }

  /** `if name in df.columns: df[name] = pd.to_numeric(df[name], errors="coerce")`.
      A repeated label makes `df[name]` a sub-frame, which `to_numeric`
      rejects with a TypeError. */
  function CoerceColumn(t: Table, name: string, parse: string -> Option<real>): (r: Result<Table>)
    requires t.WellFormed()
    ensures r.Ok? ==> r.value.WellFormed() && r.value.columns == t.columns && |r.value.rows| == |t.rows|
    ensures r.Err? <==> Repeated(t.columns, name)
    ensures r.Err? ==> r.fault == DuplicateColumn(name)
    ensures name !in t.columns ==> r == Ok(t)
    ensures r.Ok? ==> forall i, k | 0 <= i < |t.rows| && 0 <= k < |t.columns| && t.columns[k] != name ::
              r.value.rows[i][k] == t.rows[i][k]
    ensures r.Ok? ==> forall i, k | 0 <= i < |t.rows| && 0 <= k < |t.columns| && t.columns[k] == name ::
              r.value.rows[i][k] == ToNumeric(t.rows[i][k], parse)
  {
    if name !in t.columns then Ok(t)
    else
      match Lookup(t.columns, name)
      case Ok(j) => Ok(MapColumn(t, j, c => ToNumeric(c, parse)))
      case Err(f) => Err(f)
  }

  /** Lines 45-48: `rating`, then `duration_minutes`, each only when present. */
  function CoerceTypes(t: Table, parse: string -> Option<real>): (r: Result<Table>)
    requires t.WellFormed()
    ensures r.Ok? ==> r.value.WellFormed() && r.value.columns == t.columns && |r.value.rows| == |t.rows|
    ensures r.Err? <==> Repeated(t.columns, "rating") || Repeated(t.columns, "duration_minutes")
    ensures r.Ok? ==> forall i, k | 0 <= i < |t.rows| && 0 <= k < |t.columns| && !IsNumericColumn(t.columns[k]) ::
              r.value.rows[i][k] == t.rows[i][k]
    ensures r.Ok? ==> forall i, k | 0 <= i < |t.rows| && 0 <= k < |t.columns| && IsNumericColumn(t.columns[k]) ::
              r.value.rows[i][k] == ToNumeric(t.rows[i][k], parse)
    ensures r.Ok? ==> forall i, k | 0 <= i < |t.rows| && 0 <= k < |t.columns| && IsNumericColumn(t.columns[k]) ::
              !r.value.rows[i][k].Str?
  {
    match CoerceColumn(t, "rating", parse)
    case Err(f) => Err(f)
    case Ok(rated) =>
      var r := CoerceColumn(rated, "duration_minutes", parse);
      assert r.Ok? ==> forall i, k | 0 <= i < |t.rows| && 0 <= k < |t.columns| && t.columns[k] == "rating" ::
        r.value.rows[i][k] == rated.rows[i][k];
      r
  }

  /** The default `fillna` writes into a null cell of the column `name`. */
  function FillValue(name: string): Option<string> {
    if name == "genre" || name == "country" then Some("Unknown")
    else if name == "user_review" then Some("Not Provided")
    else None
  }

  function FillCell(c: Cell, name: string): Cell {
    if c.Null? && FillValue(name).Some? then Str(FillValue(name).value) else c
  }

  /** `df.fillna({"genre": "Unknown", "country": "Unknown",
      "user_review": "Not Provided"})`: a key that labels no column is
      ignored, so no column is ever created. */
  function FillMissing(t: Table): (u: Table)
    requires t.WellFormed()
    ensures u.WellFormed() && u.columns == t.columns && |u.rows| == |t.rows|
    ensures forall i, k | 0 <= i < |t.rows| && 0 <= k < |t.columns| && FillValue(t.columns[k]).Some? ::
              !u.rows[i][k].Null?
    ensures forall i, k | 0 <= i < |t.rows| && 0 <= k < |t.columns| && !t.rows[i][k].Null? ::
              u.rows[i][k] == t.rows[i][k]
    ensures forall i, k | 0 <= i < |t.rows| && 0 <= k < |t.columns| && FillValue(t.columns[k]).None? ::
              u.rows[i][k] == t.rows[i][k]
    ensures forall i, k | 0 <= i < |t.rows| && 0 <= k < |t.columns| && t.rows[i][k].Null? && FillValue(t.columns[k]).Some? ::
              u.rows[i][k] == Str(FillValue(t.columns[k]).value)
  {
    Table(t.columns, seq(|t.rows|, i requires 0 <= i < |t.rows| =>
      seq(|t.rows[i]|, k requires 0 <= k < |t.rows[i]| => FillCell(t.rows[i][k], t.columns[k]))))
  }

  /** A table with no null in a column that has a default is left as it is. */
  lemma FillMissingFixed(t: Table)
    requires t.WellFormed()
    requires forall i, k | 0 <= i < |t.rows| && 0 <= k < |t.columns| && FillValue(t.columns[k]).Some? ::
               !t.rows[i][k].Null?
    ensures FillMissing(t) == t
  {
    var u := FillMissing(t);
    forall i | 0 <= i < |t.rows|
      ensures u.rows[i] == t.rows[i]
    {
    }
  }

  /** Properties every successfully cleaned table has. */
  predicate IsClean(t: Table) {
    && t.WellFormed()
    && (forall k | 0 <= k < |t.columns| :: IsNormalName(t.columns[k]))
    && !Repeated(t.columns, "rating") && !Repeated(t.columns, "duration_minutes")
    && (forall i, k | 0 <= i < |t.rows| && 0 <= k < |t.columns| :: !IsSentinel(t.rows[i][k]))
    && (forall i, k | 0 <= i < |t.rows| && 0 <= k < |t.columns| && IsNumericColumn(t.columns[k]) ::
          !t.rows[i][k].Str?)
    && (forall i, k | 0 <= i < |t.rows| && 0 <= k < |t.columns| && FillValue(t.columns[k]).Some? ::
          !t.rows[i][k].Null?)
  }

  /** The whole cleaning block (lines 33-55) on the table read from the CSV.
      It fails only where `to_numeric` is handed a repeated label. */
  function Clean(raw: Table, parse: string -> Option<real>): (r: Result<Table>)
    requires raw.WellFormed()
    ensures r.Err? <==> Repeated(NormalizeColumns(raw).columns, "rating")
                        || Repeated(NormalizeColumns(raw).columns, "duration_minutes")
    ensures r.Ok? ==> IsClean(r.value)
    ensures r.Ok? ==> |r.value.rows| == |raw.rows| && |r.value.columns| == |raw.columns|
    ensures r.Ok? ==> forall k | 0 <= k < |raw.columns| :: r.value.columns[k] == NormalizeName(raw.columns[k])
    ensures r.Ok? ==> forall i, k | 0 <= i < |raw.rows| && 0 <= k < |raw.columns|
                        && !IsNumericColumn(r.value.columns[k]) && FillValue(r.value.columns[k]).None? ::
                        r.value.rows[i][k] == ClearSentinel(raw.rows[i][k])
    ensures r.Ok? ==> forall i, k | 0 <= i < |raw.rows| && 0 <= k < |raw.columns|
                        && IsNumericColumn(r.value.columns[k]) ::
                        r.value.rows[i][k] == ToNumeric(ClearSentinel(raw.rows[i][k]), parse)
    ensures r.Ok? ==> forall i, k | 0 <= i < |raw.rows| && 0 <= k < |raw.columns|
                        && FillValue(r.value.columns[k]).Some? ::
                        r.value.rows[i][k] == (if ClearSentinel(raw.rows[i][k]).Null?
                                               then Str(FillValue(r.value.columns[k]).value)
                                               else ClearSentinel(raw.rows[i][k]))
  {
    var named := NormalizeColumns(raw);
    var cleared := ReplaceSentinels(named);
    match CoerceTypes(cleared, parse)
    case Err(f) => Err(f)
    case Ok(typed) =>
      CoercionKeepsSentinelsOut(cleared, typed, parse);
      FilledIsClean(typed);
      CleanedCells(raw, cleared, typed, parse);
      Ok(FillMissing(typed))
  }

  /** Cell by cell, cleaning is: clear the sentinel, then coerce a numeric
      column or fill a defaulted one. */
  lemma CleanedCells(raw: Table, cleared: Table, typed: Table, parse: string -> Option<real>)
    requires raw.WellFormed()
    requires cleared == ReplaceSentinels(NormalizeColumns(raw))
    requires CoerceTypes(cleared, parse) == Ok(typed)
    ensures forall i, k | 0 <= i < |raw.rows| && 0 <= k < |raw.columns| && IsNumericColumn(typed.columns[k]) ::
              FillMissing(typed).rows[i][k] == ToNumeric(ClearSentinel(raw.rows[i][k]), parse)
    ensures forall i, k | 0 <= i < |raw.rows| && 0 <= k < |raw.columns| && FillValue(typed.columns[k]).Some? ::
              FillMissing(typed).rows[i][k] == (if ClearSentinel(raw.rows[i][k]).Null?
                                                then Str(FillValue(typed.columns[k]).value)
                                                else ClearSentinel(raw.rows[i][k]))
  {
    CoercedCells(raw, cleared, typed, parse);
    FilledCells(typed);
  }

  /** Before filling, each cell is the raw cell with its sentinel cleared,
      coerced when its column is numeric. */
  lemma CoercedCells(raw: Table, cleared: Table, typed: Table, parse: string -> Option<real>)
    requires raw.WellFormed()
    requires cleared == ReplaceSentinels(NormalizeColumns(raw))
    requires CoerceTypes(cleared, parse) == Ok(typed)
    ensures typed.WellFormed() && typed.columns == cleared.columns && |typed.rows| == |raw.rows|
    ensures |typed.columns| == |raw.columns|
    ensures forall i, k | 0 <= i < |raw.rows| && 0 <= k < |raw.columns| ::
              typed.rows[i][k] == if IsNumericColumn(typed.columns[k])
                                  then ToNumeric(ClearSentinel(raw.rows[i][k]), parse)
                                  else ClearSentinel(raw.rows[i][k])
  {
    forall i, k | 0 <= i < |raw.rows| && 0 <= k < |raw.columns|
      ensures typed.rows[i][k] == if IsNumericColumn(typed.columns[k])
                                  then ToNumeric(ClearSentinel(raw.rows[i][k]), parse)
                                  else ClearSentinel(raw.rows[i][k])
    {
      assert cleared.rows[i][k] == ClearSentinel(raw.rows[i][k]);
    }
  }

  /** Filling touches only nulls in defaulted columns, and never a numeric
      column. */
  lemma FilledCells(t: Table)
    requires t.WellFormed()
    ensures forall i, k | 0 <= i < |t.rows| && 0 <= k < |t.columns| && IsNumericColumn(t.columns[k]) ::
              FillMissing(t).rows[i][k] == t.rows[i][k]
    ensures forall i, k | 0 <= i < |t.rows| && 0 <= k < |t.columns| && FillValue(t.columns[k]).Some? ::
              FillMissing(t).rows[i][k] == (if t.rows[i][k].Null? then Str(FillValue(t.columns[k]).value)
                                            else t.rows[i][k])
  {
  }

  /** Filling a coerced table with normal labels yields a clean table. */
  lemma FilledIsClean(t: Table)
    requires t.WellFormed()
    requires forall k | 0 <= k < |t.columns| :: IsNormalName(t.columns[k])
    requires !Repeated(t.columns, "rating") && !Repeated(t.columns, "duration_minutes")
    requires forall i, k | 0 <= i < |t.rows| && 0 <= k < |t.columns| :: !IsSentinel(t.rows[i][k])
    requires forall i, k | 0 <= i < |t.rows| && 0 <= k < |t.columns| && IsNumericColumn(t.columns[k]) ::
               !t.rows[i][k].Str?
    ensures IsClean(FillMissing(t))
  {
    FillKeepsSentinelsOut(t);
  }

  /** Coercion writes only numbers and nulls, so it brings in no sentinel. */
  lemma CoercionKeepsSentinelsOut(t: Table, typed: Table, parse: string -> Option<real>)
    requires t.WellFormed()
    requires forall i, k | 0 <= i < |t.rows| && 0 <= k < |t.columns| :: !IsSentinel(t.rows[i][k])
    requires CoerceTypes(t, parse) == Ok(typed)
    ensures forall i, k | 0 <= i < |typed.rows| && 0 <= k < |typed.columns| :: !IsSentinel(typed.rows[i][k])
  {
    forall i, k | 0 <= i < |typed.rows| && 0 <= k < |typed.columns|
      ensures !IsSentinel(typed.rows[i][k])
    {
      if !IsNumericColumn(t.columns[k]) {
        assert typed.rows[i][k] == t.rows[i][k];
      }
    }
  }

  /** The defaults "Unknown" and "Not Provided" are not sentinels. */
  lemma FillKeepsSentinelsOut(t: Table)
    requires t.WellFormed()
    requires forall i, k | 0 <= i < |t.rows| && 0 <= k < |t.columns| :: !IsSentinel(t.rows[i][k])
    ensures forall i, k | 0 <= i < |t.rows| && 0 <= k < |t.columns| :: !IsSentinel(FillMissing(t).rows[i][k])
  {
    assert "Unknown" !in Sentinels && "Not Provided" !in Sentinels;
  }

  /** Cleaning a cleaned table gives it back unchanged: every step is a no-op
      on its own output. */
  lemma {:induction false} CleanIdempotent(raw: Table, parse: string -> Option<real>)
    requires raw.WellFormed()
    requires Clean(raw, parse).Ok?
    ensures Clean(Clean(raw, parse).value, parse) == Clean(raw, parse)
  {
    CleanFixed(Clean(raw, parse).value, parse);
  }

  /** Coercion leaves a table alone when its numeric columns hold no string
      and neither numeric label repeats. */
  lemma CoerceTypesFixed(t: Table, parse: string -> Option<real>)
    requires t.WellFormed()
    requires !Repeated(t.columns, "rating") && !Repeated(t.columns, "duration_minutes")
    requires forall i, k | 0 <= i < |t.rows| && 0 <= k < |t.columns| && IsNumericColumn(t.columns[k]) ::
               !t.rows[i][k].Str?
    ensures CoerceTypes(t, parse) == Ok(t)
  {
    var typed := CoerceTypes(t, parse);
    assert typed.Ok?;
    forall i | 0 <= i < |t.rows|
      ensures typed.value.rows[i] == t.rows[i]
    {
      forall k | 0 <= k < |t.columns|
        ensures typed.value.rows[i][k] == t.rows[i][k]
      {
        if IsNumericColumn(t.columns[k]) {
          assert !t.rows[i][k].Str?;
        }
      }
    }
    assert typed.value == t;
  }

  /** Coercing a second time changes nothing. */
  lemma CoerceTypesIdempotent(t: Table, parse: string -> Option<real>)
    requires t.WellFormed()
    requires CoerceTypes(t, parse).Ok?
    ensures CoerceTypes(CoerceTypes(t, parse).value, parse) == CoerceTypes(t, parse)
  {
    CoerceTypesFixed(CoerceTypes(t, parse).value, parse);
  }

  /** A clean table is a fixed point of cleaning. */
  lemma CleanFixed(t: Table, parse: string -> Option<real>)
    requires IsClean(t)
    ensures Clean(t, parse) == Ok(t)
  {
    NormalizeColumnsFixed(t);
    ReplaceSentinelsFixed(t);
    CoerceTypesFixed(t, parse);
    FillMissingFixed(t);
  }
}
