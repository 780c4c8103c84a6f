/** `get_error_ranges` (plot_error_heatmap.py, lines 89-106): for each listed RMSE
    column, the smallest and largest value in the table, which every heatmap of that
    column then shares as its colour scale. The table is the one built from a list of
    records, so a column exists only when some record carries that field; records
    without it hold a missing value there, which `min` and `max` skip. Asking for a
    column no record carries raises `KeyError`. */
module ErrorRanges {
  import opened Results
  import opened Extractor

  datatype Column = EnergyRmse | ForceRmse | VirialRmse

  /** The shared colour scale of one column. */
  datatype Range = Range(vmin: real, vmax: real)

  /** A record's entry in a column, None where the table holds a missing value. */
  function ColumnValue(record: Completed, column: Column): Option<real> {
    match column
    case EnergyRmse => record.energy
    case ForceRmse => record.force
    case VirialRmse => Some(record.virial)
  }

  predicate Carries(table: seq<Completed>, column: Column) {
    exists i :: 0 <= i < |table| && ColumnValue(table[i], column).Some?
  }

  function Min(a: real, b: real): real {
    if a <= b then a else b
  }

  function Max(a: real, b: real): real {
    if a <= b then b else a
  }

  /** `df[column].min()` and `df[column].max()`: None when no record carries the
      column; otherwise bounds that enclose every present value and are attained. */
  function ColumnRange(table: seq<Completed>, column: Column): (r: Option<Range>)
    ensures r.Some? <==> Carries(table, column)
    ensures r.Some? ==> r.value.vmin <= r.value.vmax
    ensures r.Some? ==> forall i :: 0 <= i < |table| && ColumnValue(table[i], column).Some? ==>
      r.value.vmin <= ColumnValue(table[i], column).value <= r.value.vmax
    ensures r.Some? ==> exists i :: 0 <= i < |table| && ColumnValue(table[i], column) == Some(r.value.vmin)
    ensures r.Some? ==> exists i :: 0 <= i < |table| && ColumnValue(table[i], column) == Some(r.value.vmax)
  {
    if |table| == 0 then None
    else
      var rest := ColumnRange(table[1..], column);
      assert forall i :: 1 <= i < |table| ==> table[i] == table[1..][i - 1];
      assert rest.Some? ==> exists i :: 0 <= i < |table| && ColumnValue(table[i], column) == Some(rest.value.vmin) by {
        if rest.Some? {
          var k :| 0 <= k < |table[1..]| && ColumnValue(table[1..][k], column) == Some(rest.value.vmin);
          assert table[k + 1] == table[1..][k];
        }
      }
      assert rest.Some? ==> exists i :: 0 <= i < |table| && ColumnValue(table[i], column) == Some(rest.value.vmax) by {
        if rest.Some? {
          var k :| 0 <= k < |table[1..]| && ColumnValue(table[1..][k], column) == Some(rest.value.vmax);
          assert table[k + 1] == table[1..][k];
        }
      }
      assert Carries(table[1..], column) ==> Carries(table, column) by {
        if Carries(table[1..], column) {
          var k :| 0 <= k < |table[1..]| && ColumnValue(table[1..][k], column).Some?;
          assert table[k + 1] == table[1..][k];
        }
      }
      match ColumnValue(table[0], column)
      case None => rest
      case Some(v) =>
        match rest
        case None => Some(Range(v, v))
        case Some(range) => Some(Range(Min(range.vmin, v), Max(range.vmax, v)))
  }

  /** The loop of lines 101-105: the ranges of the listed columns, in a dictionary,
      or the first listed column no record carries (`KeyError`). */
  function GetErrorRanges(table: seq<Completed>, columns: seq<Column>): (r: Result<map<Column, Range>, Column>)
    ensures r.Success? <==> forall k :: 0 <= k < |columns| ==> Carries(table, columns[k])
    ensures r.Success? ==> forall c :: c in r.value <==> c in columns
    ensures r.Success? ==> forall c :: c in r.value ==> ColumnRange(table, c) == Some(r.value[c])
    ensures r.Failure? ==> exists k :: FirstMissing(table, columns, k) && columns[k] == r.error
  {
    if |columns| == 0 then Success(map[])
    else if !Carries(table, columns[0]) then
      assert FirstMissing(table, columns, 0);
      Failure(columns[0])
    else
      var range := ColumnRange(table, columns[0]).value;
      var rest := GetErrorRanges(table, columns[1..]);
      if rest.Failure? then
        var k :| FirstMissing(table, columns[1..], k) && columns[1..][k] == rest.error;
        MissingLater(table, columns, k);
        Failure(rest.error)
      else
        CarriedAll(table, columns);
        ListedColumns(columns);
        Success(rest.value[columns[0] := range])
  }

  /** The first missing column among the later ones is the first missing column of
      the whole list when the first is carried. */
  lemma MissingLater(table: seq<Completed>, columns: seq<Column>, k: int)
    requires |columns| > 0 && Carries(table, columns[0]) && FirstMissing(table, columns[1..], k)
    ensures FirstMissing(table, columns, k + 1) && columns[k + 1] == columns[1..][k]
  {
  }

  lemma CarriedAll(table: seq<Completed>, columns: seq<Column>)
    requires |columns| > 0 && Carries(table, columns[0])
    ensures (forall k :: 0 <= k < |columns| ==> Carries(table, columns[k]))
        <==> (forall k :: 0 <= k < |columns[1..]| ==> Carries(table, columns[1..][k]))
  {
    assert forall k :: 1 <= k < |columns| ==> columns[k] == columns[1..][k - 1];
  }

  lemma ListedColumns(columns: seq<Column>)
    requires |columns| > 0
    ensures forall c :: c in columns <==> c == columns[0] || c in columns[1..]
  {
    assert columns == [columns[0]] + columns[1..];
  }

  /** Position `k` holds the first listed column no record carries. */
  predicate FirstMissing(table: seq<Completed>, columns: seq<Column>, k: int) {
    && 0 <= k < |columns|
    && !Carries(table, columns[k])
    && forall j :: 0 <= j < k ==> Carries(table, columns[j])
  }

  /** The values present in a column. */
  function PresentValues(table: seq<Completed>, column: Column): set<real> {
    set i | 0 <= i < |table| && ColumnValue(table[i], column).Some? :: ColumnValue(table[i], column).value
  }

  /** A column's range depends only on which values are present in it: the order of
      the records, repeated values and records with a missing entry do not matter. */
  lemma RangeDeterminedByValues(t1: seq<Completed>, t2: seq<Completed>, column: Column)
    requires PresentValues(t1, column) == PresentValues(t2, column)
    ensures ColumnRange(t1, column) == ColumnRange(t2, column)
  {
    CarriesIffPresent(t1, column);
    CarriesIffPresent(t2, column);
    if ColumnRange(t1, column).Some? {
      RangeMatches(t1, t2, column);
      RangeMatches(t2, t1, column);
    }
  }

  lemma CarriesIffPresent(table: seq<Completed>, column: Column)
    ensures Carries(table, column) <==> PresentValues(table, column) != {}
  {
    if Carries(table, column) {
      var i :| 0 <= i < |table| && ColumnValue(table[i], column).Some?;
      assert ColumnValue(table[i], column).value in PresentValues(table, column);
    }
  }

  lemma RangeMatches(t1: seq<Completed>, t2: seq<Completed>, column: Column)
    requires PresentValues(t1, column) == PresentValues(t2, column)
    requires ColumnRange(t1, column).Some? && ColumnRange(t2, column).Some?
    ensures ColumnRange(t2, column).value.vmin <= ColumnRange(t1, column).value.vmin
    ensures ColumnRange(t1, column).value.vmax <= ColumnRange(t2, column).value.vmax
  {
    var r1 := ColumnRange(t1, column).value;
    var i :| 0 <= i < |t1| && ColumnValue(t1[i], column) == Some(r1.vmin);
    assert r1.vmin in PresentValues(t2, column);
    var k :| 0 <= k < |t1| && ColumnValue(t1[k], column) == Some(r1.vmax);
    assert r1.vmax in PresentValues(t2, column);
  }

  /** Records lacking a value in a column leave its bounds unchanged, wherever they
      stand in the table. */
  lemma {:induction false} MissingEntriesIgnored(table: seq<Completed>, k: nat, record: Completed, column: Column)
    requires k <= |table| && ColumnValue(record, column).None?
    ensures ColumnRange(table[..k] + [record] + table[k..], column) == ColumnRange(table, column)
  {
    var t := table[..k] + [record] + table[k..];
    InsertedPresent(table, k, record, column);
    InsertedPresentBack(table, k, record, column);
    RangeDeterminedByValues(t, table, column);
  }

  lemma InsertedPresent(table: seq<Completed>, k: nat, record: Completed, column: Column)
    requires k <= |table| && ColumnValue(record, column).None?
    ensures PresentValues(table[..k] + [record] + table[k..], column) <= PresentValues(table, column)
  {
    var t := table[..k] + [record] + table[k..];
    forall v | v in PresentValues(t, column) ensures v in PresentValues(table, column) {
      var i :| 0 <= i < |t| && ColumnValue(t[i], column).Some? && ColumnValue(t[i], column).value == v;
      if i < k {
        assert t[i] == table[i];
      } else {
        assert t[i] == table[i - 1];
      }
    }
  }

  lemma InsertedPresentBack(table: seq<Completed>, k: nat, record: Completed, column: Column)
    requires k <= |table|
    ensures PresentValues(table, column) <= PresentValues(table[..k] + [record] + table[k..], column)
  {
    var t := table[..k] + [record] + table[k..];
    forall v | v in PresentValues(table, column) ensures v in PresentValues(t, column) {
      var i :| 0 <= i < |table| && ColumnValue(table[i], column).Some? && ColumnValue(table[i], column).value == v;
      if i < k {
        assert t[i] == table[i];
      } else {
        assert t[i + 1] == table[i];
      }
    }
  }

  /** Every record has a virial value, so that column has a range exactly when the
      table is not empty. */
  lemma VirialRangeExists(table: seq<Completed>)
    ensures ColumnRange(table, VirialRmse).Some? <==> |table| > 0
  {
    if |table| > 0 {
      assert ColumnValue(table[0], VirialRmse).Some?;
    }
  }

  /** The table of an empty log has no columns at all, so asking for any column
      raises on the first one asked for. */
  lemma EmptyTableRaises(columns: seq<Column>)
    requires |columns| > 0
    ensures GetErrorRanges([], columns) == Failure(columns[0])
  {
  }
}
