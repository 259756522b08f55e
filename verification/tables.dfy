/** The in-memory table the dashboard script cleans and queries: an ordered
    list of column labels and rows of scalar cells, i.e. a pandas DataFrame
    seen cell by cell. Labels are kept as a sequence because pandas allows a
    label to occur more than once. */
module Tables {

  /** One scalar cell: missing (NaN / None), a number, or a string. */
  datatype Cell = Null | Num(n: real) | Str(s: string)

  type Row = seq<Cell>

  datatype Table = Table(columns: seq<string>, rows: seq<Row>) {
    /** Every row has one cell per column, as in any DataFrame. */
    predicate WellFormed() {
      forall i | 0 <= i < |rows| :: |rows[i]| == |columns|
    }
  }

  datatype Option<T> = None | Some(value: T)

  /** Why a step of the script raises instead of producing a value. */
  datatype Fault =
    | MissingColumn(name: string)    // df[name] on an absent label: KeyError
    | DuplicateColumn(name: string)  // df[name] is a sub-frame, not one column
    | UnorderableRating              // sorting strings against numbers: TypeError

  datatype Result<T> = Ok(value: T) | Err(fault: Fault)

  /** The cell of `row` in column `j`, or Null when the row is too short. */
  function At(row: Row, j: nat): Cell {
    if j < |row| then row[j] else Null
  }

  /** `name` labels more than one column. */
  predicate Repeated(names: seq<string>, name: string) {
    exists j, k | 0 <= j < k < |names| :: names[j] == name && names[k] == name
  }

  /** Position of the first column labelled `name`. */
  function FirstIndex(names: seq<string>, name: string): (j: nat)
    requires name in names
    ensures j < |names| && names[j] == name
    ensures forall k | 0 <= k < j :: names[k] != name
  {
    if names[0] == name then 0 else 1 + FirstIndex(names[1..], name)
  }

  /** Resolves a label to its one column, as `df[name]` does when it yields a
      Series: a missing label is a KeyError and a repeated label yields a
      sub-frame, which every use of it in the script cannot handle. */
  function Lookup(names: seq<string>, name: string): (r: Result<nat>)
    ensures r.Ok? ==> r.value < |names| && names[r.value] == name
    ensures r.Ok? ==> forall k | 0 <= k < |names| && k != r.value :: names[k] != name
    ensures r == Err(MissingColumn(name)) <==> name !in names
    ensures r == Err(DuplicateColumn(name)) <==> Repeated(names, name)
    ensures r.Ok? || r == Err(MissingColumn(name)) || r == Err(DuplicateColumn(name))
  {
    if name !in names then Err(MissingColumn(name))
    else
      var j := FirstIndex(names, name);
      if name in names[j + 1..] then
        // the later occurrence witnesses `Repeated`
        assert names[j + 1 + FirstIndex(names[j + 1..], name)] == name;
        Err(DuplicateColumn(name))
      else
        assert forall k | j < k < |names| :: names[k] == names[j + 1..][k - j - 1];
        Ok(j)
  }

  /** The cells of column `j`, top to bottom. */
  function Column(t: Table, j: nat): (col: seq<Cell>)
    requires t.WellFormed() && j < |t.columns|
    ensures |col| == |t.rows|
    ensures forall i | 0 <= i < |t.rows| :: col[i] == t.rows[i][j]
  {
    seq(|t.rows|, i requires 0 <= i < |t.rows| => t.rows[i][j])
  }

  /** Rewrites every cell of column `j` with `f`, leaving all else as it was. */
  function MapColumn(t: Table, j: nat, f: Cell -> Cell): (u: Table)
    requires t.WellFormed() && j < |t.columns|
    ensures u.WellFormed() && u.columns == t.columns && |u.rows| == |t.rows|
    ensures forall i | 0 <= i < |t.rows| :: u.rows[i][j] == f(t.rows[i][j])
    ensures forall i, k | 0 <= i < |t.rows| && 0 <= k < |t.columns| && k != j ::
              u.rows[i][k] == t.rows[i][k]
  {
    Table(t.columns, seq(|t.rows|, i requires 0 <= i < |t.rows| => t.rows[i][j := f(t.rows[i][j])]))
  }
}
