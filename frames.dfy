/**
  A pandas DataFrame, abstracted to its column names in order and its rows,
  each row a map from column name to cell value.
*/
module Frames {
  import Dicts

  /** A cell: text, an integer, a parsed datetime (only its year matters here), or missing (NaN / NaT). */
  datatype Value = Text(s: string) | Int(n: int) | Timestamp(year: int) | Missing

  type Row = map<string, Value>

  datatype Frame = Frame(columns: seq<string>, rows: seq<Row>)

  /** The exception raised for an absent dict key or DataFrame column. */
  datatype Error = KeyError(key: string)

  /** A frame in which the columns are distinct and every row has exactly those columns. */
  ghost predicate WellFormed(f: Frame) {
    && Dicts.Distinct(f.columns)
    && forall i :: 0 <= i < |f.rows| ==> f.rows[i].Keys == (set c | c in f.columns)
  }

  /** The cell of a row in a column, missing when the row has no such column. */
  function Cell(row: Row, c: string): Value {
    if c in row then row[c] else Missing
  }

  /** The columns `cols` without `c`, in their order. */
  function Without(cols: seq<string>, c: string): (r: seq<string>)
    ensures forall x :: x in r <==> x in cols && x != c
    ensures Dicts.Distinct(cols) ==> Dicts.Distinct(r)
    ensures forall i, j :: 0 <= i < j < |r| ==> InOrder(cols, r[i], r[j])
  {
    if cols == [] then []
    else
      var n := |cols| - 1;
      var front := Without(cols[..n], c);
      assert forall x :: x in cols <==> x in cols[..n] || x == cols[n];
      assert forall x, y :: InOrder(cols[..n], x, y) ==> InOrder(cols, x, y) by {
        forall x, y | InOrder(cols[..n], x, y) ensures InOrder(cols, x, y) {
          var p, q :| 0 <= p < q < n && cols[..n][p] == x && cols[..n][q] == y;
          assert cols[p] == x && cols[q] == y;
        }
      }
      if cols[n] == c then front
      else
        assert Dicts.Distinct(cols) ==> cols[n] !in cols[..n];
        var r := front + [cols[n]];
        forall i, j | 0 <= i < j < |r| ensures InOrder(cols, r[i], r[j]) {
          if j < |front| {
            assert InOrder(cols[..n], front[i], front[j]);
          } else {
            assert front[i] in front;
            assert front[i] in cols[..n];
            var p :| 0 <= p < n && cols[..n][p] == front[i];
            assert cols[p] == r[i] && cols[n] == r[j];
          }
        }
        r
  }

  /** `x` occurs in `cols` before an occurrence of `y`. */
  ghost predicate InOrder(cols: seq<string>, x: string, y: string) {
    exists p, q :: 0 <= p < q < |cols| && cols[p] == x && cols[q] == y
  }
}
