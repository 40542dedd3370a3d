/** Chart-point extraction from the chart table (MainActivity.kt, the
    `mapNotNull` in `CsvChartScreen`): one (timestamp, heart rate) point per
    row whose two cells exist and parse as numbers. The float parser
    (`toFloat`) is the parameter `parseFloat`. */
module Chart {
  import opened Wrappers
  import opened Table
  import opened Ingest

  const HEART_RATE: string := "HEART_RATE"

  /** A chart point: x is the timestamp, y the heart rate. */
  datatype Entry<F> = Entry(x: F, y: F)

  /** One row's point, or None when a cell is missing (the index is out of
      bounds) or does not parse: the exception the lambda catches. */
  function PointOf<F>(row: seq<string>, tsIndex: nat, hrIndex: nat, parseFloat: string -> Option<F>): Option<Entry<F>>
  {
    if tsIndex < |row| && hrIndex < |row| then
      match (parseFloat(row[tsIndex]), parseFloat(row[hrIndex]))
      case (Some(x), Some(y)) => Some(Entry(x, y))
      case _ => None
    else None
  }

  /** `rows.mapNotNull { ... }`: the points of the rows that have one, in
      row order. */
  function Points<F>(rows: seq<seq<string>>, tsIndex: nat, hrIndex: nat, parseFloat: string -> Option<F>): (r: seq<Entry<F>>)
    ensures |r| <= |rows|
    ensures (forall i :: 0 <= i < |rows| ==> PointOf(rows[i], tsIndex, hrIndex, parseFloat).Some?) ==> |r| == |rows|
    ensures forall e :: e in r ==> exists i :: 0 <= i < |rows| && PointOf(rows[i], tsIndex, hrIndex, parseFloat) == Some(e)
  {
    if |rows| == 0 then []
    else
      var rest := Points(rows[1..], tsIndex, hrIndex, parseFloat);
      assert forall i :: 1 <= i < |rows| ==> rows[i] == rows[1..][i - 1];
      match PointOf(rows[0], tsIndex, hrIndex, parseFloat)
      case Some(e) => [e] + rest
      case None => rest
  }

  /** The chart entries of a table: nothing when the TIMESTAMP or the
      HEART_RATE column is missing, otherwise the points of its rows. */
  function ChartEntries<F>(t: TableContent, parseFloat: string -> Option<F>): (r: seq<Entry<F>>)
    ensures TIMESTAMP !in t.columns || HEART_RATE !in t.columns ==> r == []
    ensures |r| <= |t.rows|
  {
    var timestampIndex := IndexOf(t.columns, TIMESTAMP);
    var heartRateIndex := IndexOf(t.columns, HEART_RATE);
    if timestampIndex != -1 && heartRateIndex != -1 then
      Points(t.rows, timestampIndex, heartRateIndex, parseFloat)
    else []
  }

  /** Extraction works row by row: the points of two batches of rows are
      the points of the first followed by those of the second, and a single
      row contributes its point or nothing. Together these fix the order:
      the output lists the points of the rows that have one, in row order. */
  lemma {:induction false} PointsAppend<F>(a: seq<seq<string>>, b: seq<seq<string>>, tsIndex: nat, hrIndex: nat, parseFloat: string -> Option<F>)
    ensures Points(a + b, tsIndex, hrIndex, parseFloat)
      == Points(a, tsIndex, hrIndex, parseFloat) + Points(b, tsIndex, hrIndex, parseFloat)
  {
    if |a| == 0 {
      assert a + b == b;
    } else {
      assert (a + b)[1..] == a[1..] + b;
      PointsAppend(a[1..], b, tsIndex, hrIndex, parseFloat);
    }
  }

  lemma PointsSingle<F>(row: seq<string>, tsIndex: nat, hrIndex: nat, parseFloat: string -> Option<F>)
    ensures Points([row], tsIndex, hrIndex, parseFloat)
      == match PointOf(row, tsIndex, hrIndex, parseFloat)
         case Some(e) => [e]
         case None => []
  {
    assert [row][1..] == [];
  }

  /** A row is dropped, never replaced: the rows without a point can be
      removed first without changing the output. */
  lemma {:induction false} PointsDropBadRow<F>(a: seq<seq<string>>, row: seq<string>, b: seq<seq<string>>,
                                               tsIndex: nat, hrIndex: nat, parseFloat: string -> Option<F>)
    requires PointOf(row, tsIndex, hrIndex, parseFloat).None?
    ensures Points(a + [row] + b, tsIndex, hrIndex, parseFloat) == Points(a + b, tsIndex, hrIndex, parseFloat)
  {
    PointsAppend(a + [row], b, tsIndex, hrIndex, parseFloat);
    PointsAppend(a, [row], tsIndex, hrIndex, parseFloat);
    PointsAppend(a, b, tsIndex, hrIndex, parseFloat);
    PointsSingle(row, tsIndex, hrIndex, parseFloat);
  }

  /** The worked case: of the rows ("1000","72"), ("bad","80"),
      ("2000","75") under TIMESTAMP and HEART_RATE, the middle one is
      dropped and the other two give their points in order. */
  lemma DropsUnparsableRow<F>(parseFloat: string -> Option<F>, t1: F, h1: F, t2: F, h2: F)
    requires parseFloat("1000") == Some(t1) && parseFloat("72") == Some(h1)
    requires parseFloat("2000") == Some(t2) && parseFloat("75") == Some(h2)
    requires parseFloat("bad") == None
    ensures ChartEntries(TableContent([TIMESTAMP, HEART_RATE], [["1000", "72"], ["bad", "80"], ["2000", "75"]]), parseFloat)
      == [Entry(t1, h1), Entry(t2, h2)]
  {
    var cols := [TIMESTAMP, HEART_RATE];
    assert IndexOf(cols, TIMESTAMP) == 0;
    assert IndexOf(cols[1..], HEART_RATE) == 0;
    assert IndexOf(cols, HEART_RATE) == 1;
    var rows := [["1000", "72"], ["bad", "80"], ["2000", "75"]];
    PointsDropBadRow([rows[0]], rows[1], [rows[2]], 0, 1, parseFloat);
    assert rows == [rows[0]] + [rows[1]] + [rows[2]];
    PointsAppend([rows[0]], [rows[2]], 0, 1, parseFloat);
    PointsSingle(rows[0], 0, 1, parseFloat);
    PointsSingle(rows[2], 0, 1, parseFloat);
  }
}
