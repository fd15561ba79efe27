/**
 * The in-memory table the cleaning stage works on: a header of typed columns
 * and a sequence of rows. A cell is a number, a string, or missing (pandas'
 * NaN / None). The dtype of each column is taken as given: how pandas infers
 * it from the CSV text is not part of this model.
 */
module Tables {
  import opened Results

  datatype Cell = Num(value: real) | Str(text: string) | Null

  /** The dtypes `main` and `drop_outliers` ask for; `Other` stands for every other dtype. */
  datatype DType = Float64 | Int64 | Object | Other

  datatype Column = Column(name: string, dtype: DType)

  type Row = seq<Cell>

  datatype Table = Table(header: seq<Column>, rows: seq<Row>)

  /** The cell of `row` in column `j`; a short row reads as missing there. */
  function CellAt(row: Row, j: nat): Cell
  {
    if j < |row| then row[j] else Null
  }

  /** `select_dtypes(include=["float64", "int64"])` keeps exactly these columns. */
  predicate IsNumeric(d: DType)
  {
    d == Float64 || d == Int64
  }

  /** The column names in header order, `list(df.columns)`. */
  function Names(header: seq<Column>): (names: seq<string>)
    ensures |names| == |header|
    ensures forall k :: 0 <= k < |header| ==> names[k] == header[k].name
  {
    seq(|header|, k requires 0 <= k < |header| => header[k].name)
  }

  /** The set of column names, `set(df.columns)`. */
  function NameSet(header: seq<Column>): (names: set<string>)
    ensures forall k :: 0 <= k < |header| ==> header[k].name in names
    ensures forall n :: n in names ==> exists k :: 0 <= k < |header| && header[k].name == n
  {
    set k | 0 <= k < |header| :: header[k].name
  }

  /** The position of the first column called `name`, as `df[name]` looks it up. */
  function IndexOf(header: seq<Column>, name: string): (r: Option<nat>)
    ensures r.Some? ==> r.value < |header| && header[r.value].name == name
    ensures r.Some? ==> forall k :: 0 <= k < r.value ==> header[k].name != name
    ensures r.None? <==> name !in NameSet(header)
  {
    if |header| == 0 then None
    else if header[0].name == name then Some(0)
    else match IndexOf(header[1..], name)
      case None => None
      case Some(k) => Some(k + 1)
  }
}
