/** Values, rows and record batches shared by the storage modules. */
module Values {

  datatype Option<+T> = None | Some(value: T)

  datatype Result<+T> = Ok(value: T) | Err(error: string)

  datatype Value = Null | Int(n: int) | Bool(b: bool) | Str(s: string)

  type Row = seq<Value>

  type Batch = seq<Row>

  /** All rows of a list of batches, in order. */
  function RowsOf(batches: seq<Batch>): seq<Row> {
    if batches == [] then [] else RowsOf(batches[..|batches| - 1]) + batches[|batches| - 1]
  }

  lemma {:induction false} RowsOfConcat(a: seq<Batch>, b: seq<Batch>)
    ensures RowsOf(a + b) == RowsOf(a) + RowsOf(b)
  {
    if b == [] {
      assert a + b == a;
    } else {
      assert (a + b)[..|a + b| - 1] == a + b[..|b| - 1];
      RowsOfConcat(a, b[..|b| - 1]);
    }
  }
}
