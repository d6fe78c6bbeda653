/**
 * The slice of a pandas `DataFrame` the core reads: named columns over rows of cells.
 * A cell is missing (`NaN`), text, or an integer; floating-point cells are not modelled.
 */
module Frame {

  datatype Cell = Missing | Str(text: string) | Num(value: int)

  type Row = seq<Cell>

  datatype Table = Table(columns: seq<string>, rows: seq<Row>)

  /** A frame as pandas holds it: one cell per column in every row. */
  predicate Rectangular(t: Table) {
    forall i :: 0 <= i < |t.rows| ==> |t.rows[i]| == |t.columns|
  }

  /** Position of the first column called `name`, or `|names|` when there is none. */
  function IndexOf(names: seq<string>, name: string): (k: nat)
    ensures k <= |names|
    ensures k == |names| <==> name !in names
    ensures k < |names| ==> names[k] == name && name !in names[..k]
  {
    if names == [] then 0
    else if names[0] == name then 0
    else
      var k := 1 + IndexOf(names[1..], name);
      assert k < |names| ==> names[..k] == [names[0]] + names[1..][..k - 1];
      k
  }

  /** Cell `j` of a row; a row shorter than the header reads as missing there. */
  function CellAt(row: Row, j: nat): Cell {
    if j < |row| then row[j] else Missing
  }

  /** `df[name]`: the cells of the first column called `name`, one per row. */
  function Column(t: Table, name: string): (cells: seq<Cell>)
    ensures |cells| == |t.rows|
  {
    var j := IndexOf(t.columns, name);
    seq(|t.rows|, i requires 0 <= i < |t.rows| => CellAt(t.rows[i], j))
  }
}
