/** A row of the reconstructed table: the Python dict from header text to the
    line stored under it. The row merger updates these dicts in place, so a
    row is an object. */
module Rows {
  import opened TextLines

  class Row {
    var entries: map<string, TextLine>

    constructor ()
      ensures entries == map[]
    {
      entries := map[];
    }
  }

  /** The dicts held by a list of rows, as values. */
  function Contents(rows: seq<Row>): (r: seq<map<string, TextLine>>)
    reads rows
    ensures |r| == |rows|
    ensures forall k | 0 <= k < |rows| :: r[k] == rows[k].entries
  {
    seq(|rows|, k requires 0 <= k < |rows| reads rows => rows[k].entries)
  }
}
