/** Region tables as the MPU loaders see them: rows of two words, copied word by word. */
module MpuTable {
  import opened Words

  /** RBAR with RLAR (Armv8-M) or RBAR with RASR (Armv7-M). */
  datatype Row = Row(rbar: U32, attr: U32)

  /** The memory image of a table. */
  function WordsOf(rows: seq<Row>): (w: seq<U32>)
    ensures |w| == 2 * |rows|
  {
    if rows == [] then []
    else
      var n := |rows| - 1;
      WordsOf(rows[..n]) + [rows[n].rbar, rows[n].attr]
  }
}
