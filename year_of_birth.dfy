/**
  `extract_year_of_birth`, the feature step the loaded pipeline calls on
  each input frame: read the `customerdob` column as a `%Y` year, coercing
  text that does not parse to a missing value, store the year in a
  `year_of_birth` column and drop `customerdob`.
*/
module YearOfBirth {
  import opened Wrappers
  import opened Decimal
  import opened Frames
  import Dicts

  const CustomerDob := "customerdob"
  const YearOfBirthColumn := "year_of_birth"

  /**
    One cell of `pd.to_datetime(column, errors='coerce', format="%Y")`:
    text is read with `%Y`, a datetime stays as it is, and anything that
    cannot be read becomes NaT instead of raising.
  */
  function ToDatetime(v: Value): (r: Value)
    ensures r.Timestamp? || r.Missing?
    ensures v.Text? ==> (r.Timestamp? <==> ParseYear(v.s).Some?)
  {
    match v
    case Text(s) => if ParseYear(s).Some? then Timestamp(ParseYear(s).value) else Missing
    case Timestamp(_) => v
    case _ => Missing
  }

  /** One cell of `.dt.year`: the year of a datetime; NaT gives a missing value. */
  function DtYear(v: Value): (r: Value)
    ensures r.Int? <==> v.Timestamp?
  {
    match v
    case Timestamp(y) => Int(y)
    case _ => Missing
  }

  /**
    A row as the function returns it: `customerdob` gone, `year_of_birth`
    holding the year read from it, and every other column as it was.
  */
  function ExtractedRow(row: Row): (r: Row)
    ensures CustomerDob !in r && YearOfBirthColumn in r
    ensures r[YearOfBirthColumn] == DtYear(ToDatetime(Cell(row, CustomerDob)))
    ensures forall c :: c != CustomerDob && c != YearOfBirthColumn ==>
              (c in r <==> c in row) && (c in r ==> r[c] == row[c])
    ensures r.Keys == row.Keys - {CustomerDob} + {YearOfBirthColumn}
  {
    (row - {CustomerDob})[YearOfBirthColumn := DtYear(ToDatetime(Cell(row, CustomerDob)))]
  }

  /** The column list afterwards: `customerdob` dropped, `year_of_birth` kept in place or added last. */
  function ExtractedColumns(cols: seq<string>): (r: seq<string>)
    ensures CustomerDob !in r && YearOfBirthColumn in r
    ensures forall c :: c != CustomerDob && c != YearOfBirthColumn ==> (c in r <==> c in cols)
    ensures Dicts.Distinct(cols) ==> Dicts.Distinct(r)
  {
    var kept := Without(cols, CustomerDob);
    if YearOfBirthColumn in cols then kept
    else
      assert Dicts.Distinct(cols) ==> Dicts.Distinct(kept + [YearOfBirthColumn]) by {
        if Dicts.Distinct(cols) {
          Dicts.DistinctAppend(kept, YearOfBirthColumn);
        }
      }
      kept + [YearOfBirthColumn]
  }

  /** What `extract_year_of_birth(X)` returns, or the KeyError it raises when X has no `customerdob` column. */
  function ExtractedFrame(x: Frame): (r: Result<Frame, Error>)
    ensures r.Success? <==> CustomerDob in x.columns
    ensures r.Failure? ==> r.error == KeyError(CustomerDob)
    ensures r.Success? ==>
              && |r.value.rows| == |x.rows|
              && CustomerDob !in r.value.columns && YearOfBirthColumn in r.value.columns
  {
    if CustomerDob !in x.columns then Failure(KeyError(CustomerDob))
    else Success(Frame(ExtractedColumns(x.columns),
                       seq(|x.rows|, i requires 0 <= i < |x.rows| => ExtractedRow(x.rows[i]))))
  }

  lemma {:induction false} WithoutAppend(cols: seq<string>, c: string, x: string)
    requires x != c
    ensures Without(cols + [x], c) == Without(cols, c) + [x]
  {
    assert (cols + [x])[..|cols|] == cols;
  }

  /**
    `extract_year_of_birth`: on a copy of the frame, overwrite `customerdob`
    with its parsed datetimes, add `year_of_birth` from them, then drop
    `customerdob`. The argument is a value, so the caller's frame is untouched.
  */
  method ExtractYearOfBirth(x: Frame) returns (r: Result<Frame, Error>)
    ensures r == ExtractedFrame(x)
  {
    if CustomerDob !in x.columns {
      return Failure(KeyError(CustomerDob));
    }
    var columns := x.columns;
    var rows: seq<Row> := [];
    var i := 0;
    while i < |x.rows|
      invariant 0 <= i <= |x.rows|
      invariant |rows| == i
      invariant forall k :: 0 <= k < i ==> rows[k] == ExtractedRow(x.rows[k])
    {
      var row := x.rows[i];
      var stamp := ToDatetime(Cell(row, CustomerDob));
      row := row[CustomerDob := stamp];
      row := row[YearOfBirthColumn := DtYear(stamp)];
      row := row - {CustomerDob};
      assert row == ExtractedRow(x.rows[i]);
      rows := rows + [row];
      i := i + 1;
    }
    if YearOfBirthColumn !in columns {
      WithoutAppend(columns, CustomerDob, YearOfBirthColumn);
      columns := columns + [YearOfBirthColumn];
    }
    columns := Without(columns, CustomerDob);
    assert columns == ExtractedColumns(x.columns);
    assert rows == seq(|x.rows|, k requires 0 <= k < |x.rows| => ExtractedRow(x.rows[k]));
    r := Success(Frame(columns, rows));
  }

  /**
    The transformation of a well-formed frame succeeds exactly when it has
    a `customerdob` column; it keeps the number of rows and gives a
    well-formed frame whose columns are the old ones without `customerdob`
    and with `year_of_birth`.
  */
  lemma ExtractedFrameShape(x: Frame)
    requires WellFormed(x)
    ensures ExtractedFrame(x).Success? <==> CustomerDob in x.columns
    ensures ExtractedFrame(x).Failure? ==> ExtractedFrame(x).error == KeyError(CustomerDob)
    ensures ExtractedFrame(x).Success? ==>
              var y := ExtractedFrame(x).value;
              && WellFormed(y)
              && |y.rows| == |x.rows|
              && CustomerDob !in y.columns && YearOfBirthColumn in y.columns
              && forall c :: c != CustomerDob && c != YearOfBirthColumn ==> (c in y.columns <==> c in x.columns)
  {
    if CustomerDob in x.columns {
      var y := ExtractedFrame(x).value;
      var cols := set c | c in x.columns;
      assert (set c | c in y.columns) == cols - {CustomerDob} + {YearOfBirthColumn};
      forall i | 0 <= i < |y.rows| ensures y.rows[i].Keys == (set c | c in y.columns) {
        assert y.rows[i] == ExtractedRow(x.rows[i]);
        assert x.rows[i].Keys == cols;
      }
    }
  }

  /**
    The `year_of_birth` cell of every output row: the year `%Y` reads from
    the row's `customerdob` text, or a missing value (no error) when the
    text is not exactly four digits.
  */
  lemma ExtractedYear(x: Frame, i: nat, s: string)
    requires CustomerDob in x.columns && i < |x.rows|
    requires Cell(x.rows[i], CustomerDob) == Text(s)
    ensures ExtractedFrame(x).Success?
    ensures var y := ExtractedFrame(x).value.rows[i][YearOfBirthColumn];
            && (ParseYear(s).Some? ==> y == Int(ParseYear(s).value))
            && (ParseYear(s).None? ==> y == Missing)
  {
  }
}
