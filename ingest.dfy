/** Ingestion of the bundled CSV asset (MainActivity.kt, `readCsvFromAssets`
    and `formatTimestamp`): one text becomes a display table, whose
    TIMESTAMP cells are formatted dates, and a chart table with the raw
    cells, both without the columns RAW_INTENSITY, STEPS and RAW_KIND. */
module Ingest {
  import opened Wrappers
  import opened Text
  import opened Table

  const TIMESTAMP: string := "TIMESTAMP"

  /** The columns no table ever shows. */
  const EXCLUDED: set<string> := {"RAW_INTENSITY", "STEPS", "RAW_KIND"}

  /** `List.indexOf`: the first position holding `x`, or -1. */
  function IndexOf(xs: seq<string>, x: string): (r: int)
    ensures -1 <= r < |xs|
    ensures r == -1 <==> x !in xs
    ensures r >= 0 ==> xs[r] == x && forall j :: 0 <= j < r ==> xs[j] != x
  {
    if |xs| == 0 then -1
    else if xs[0] == x then 0
    else
      var k := IndexOf(xs[1..], x);
      if k == -1 then -1 else k + 1
  }

  // ---------------------------------------------------------------------
  // Dropping cells by position
  // ---------------------------------------------------------------------

  /** `filterIndexed { index, _ -> index !in drop }`. */
  function Keep(cells: seq<string>, drop: set<int>): seq<string>
  {
    if |cells| == 0 then []
    else Keep(cells[..|cells| - 1], drop) + (if |cells| - 1 in drop then [] else [cells[|cells| - 1]])
  }

  /** The positions below n outside `drop`, in ascending order. */
  function KeptPositions(n: nat, drop: set<int>): seq<nat>
  {
    if n == 0 then [] else KeptPositions(n - 1, drop) + (if n - 1 in drop then [] else [n - 1])
  }

  /** The kept positions lie below n, ascend, and are exactly those
      outside `drop`. */
  lemma {:induction false} KeptPositionsFacts(n: nat, drop: set<int>)
    ensures var ps := KeptPositions(n, drop);
      && (forall k :: 0 <= k < |ps| ==> ps[k] < n)
      && (forall k, l :: 0 <= k < l < |ps| ==> ps[k] < ps[l])
      && (forall p :: 0 <= p < n ==> (p in ps <==> p !in drop))
  {
    if n > 0 {
      KeptPositionsFacts(n - 1, drop);
    }
  }

  /** What `Keep` means: the cell at every kept position, in the order of
      the positions (which `KeptPositionsFacts` describes). */
  lemma {:induction false} KeepIsKeptPositions(cells: seq<string>, drop: set<int>)
    ensures var ps := KeptPositions(|cells|, drop);
      && |Keep(cells, drop)| == |ps|
      && (forall k :: 0 <= k < |ps| ==> ps[k] < |cells| && Keep(cells, drop)[k] == cells[ps[k]])
  {
    if |cells| > 0 {
      var n := |cells|;
      var init := cells[..n - 1];
      KeepIsKeptPositions(init, drop);
      var ps := KeptPositions(n - 1, drop);
      var kept := Keep(init, drop);
      if n - 1 in drop {
        assert Keep(cells, drop) == kept;
        assert KeptPositions(n, drop) == ps;
      } else {
        assert Keep(cells, drop) == kept + [cells[n - 1]];
        assert KeptPositions(n, drop) == ps + [n - 1];
      }
      forall k | 0 <= k < |ps| ensures Keep(cells, drop)[k] == cells[ps[k]] {
        assert Keep(cells, drop)[k] == kept[k];
        assert init[ps[k]] == cells[ps[k]];
      }
    }
  }

  lemma {:induction false} KeepLength(c1: seq<string>, c2: seq<string>, drop: set<int>)
    requires |c1| == |c2|
    ensures |Keep(c1, drop)| == |Keep(c2, drop)|
  {
    if |c1| > 0 {
      KeepLength(c1[..|c1| - 1], c2[..|c2| - 1], drop);
    }
  }

  lemma {:induction false} KeepElements(cells: seq<string>, drop: set<int>, x: string)
    requires x in Keep(cells, drop)
    ensures x in cells
  {
    var init := cells[..|cells| - 1];
    if x in Keep(init, drop) {
      KeepElements(init, drop, x);
      assert x in init;
    }
  }

  /** Dropping from a prefix gives a prefix of the result. */
  lemma {:induction false} KeepPrefix(cells: seq<string>, drop: set<int>, n: nat)
    requires n <= |cells|
    ensures |Keep(cells[..n], drop)| <= |Keep(cells, drop)|
    ensures Keep(cells, drop)[..|Keep(cells[..n], drop)|] == Keep(cells[..n], drop)
  {
    if n < |cells| {
      var init := cells[..|cells| - 1];
      KeepPrefix(init, drop, n);
      assert init[..n] == cells[..n];
    } else {
      assert cells[..n] == cells;
    }
  }

  /** Changing a kept cell changes exactly the matching cell of the result,
      at the position given by the number of kept cells before it. */
  lemma {:induction false} KeepUpdate(cells: seq<string>, drop: set<int>, p: nat, v: string)
    requires p < |cells| && p !in drop
    ensures |Keep(cells[..p], drop)| < |Keep(cells, drop)|
    ensures Keep(cells, drop)[|Keep(cells[..p], drop)|] == cells[p]
    ensures Keep(cells[p := v], drop) == Keep(cells, drop)[|Keep(cells[..p], drop)| := v]
  {
    var n := |cells|;
    var init := cells[..n - 1];
    if p == n - 1 {
      assert cells[p := v][..n - 1] == init;
    } else {
      KeepUpdate(init, drop, p, v);
      assert cells[p := v][..n - 1] == init[p := v];
      assert init[..p] == cells[..p];
    }
  }

  /** When every dropped position lies below n, the cells from n on are all
      kept, unchanged and in order. */
  lemma {:induction false} KeepBeyond(cells: seq<string>, drop: set<int>, n: nat)
    requires n <= |cells|
    requires forall i :: i in drop ==> i < n
    ensures Keep(cells, drop) == Keep(cells[..n], drop) + cells[n..]
  {
    if n == |cells| {
      assert cells[..n] == cells;
    } else {
      var init := cells[..|cells| - 1];
      KeepBeyond(init, drop, n);
      assert init[..n] == cells[..n];
      assert cells[n..] == init[n..] + [cells[|cells| - 1]];
    }
  }

  lemma {:induction false} KeepNothing(cells: seq<string>, drop: set<int>)
    requires forall i :: 0 <= i < |cells| ==> i !in drop
    ensures Keep(cells, drop) == cells
  {
    if |cells| > 0 {
      KeepNothing(cells[..|cells| - 1], drop);
    }
  }

  // ---------------------------------------------------------------------
  // Column projection
  // ---------------------------------------------------------------------

  /** The header positions whose name is excluded. */
  function RemovedIndices(header: seq<string>): set<int>
  {
    set i | 0 <= i < |header| && header[i] in EXCLUDED
  }

  /** The columns both tables get. */
  function ProjectedHeader(header: seq<string>): seq<string>
  {
    Keep(header, RemovedIndices(header))
  }

  /** The names of `header` that are not excluded, in order: a reference
      definition by name rather than by position. */
  function WithoutExcluded(names: seq<string>): seq<string>
  {
    if |names| == 0 then []
    else
      var last := names[|names| - 1];
      WithoutExcluded(names[..|names| - 1]) + (if last in EXCLUDED then [] else [last])
  }

  /** Projection by position agrees with removal by name: every occurrence
      of an excluded name goes, duplicates included, and all other names
      stay in their order. */
  lemma {:induction false} ProjectionRemovesExcludedNames(header: seq<string>)
    ensures ProjectedHeader(header) == WithoutExcluded(header)
    ensures forall x :: x in ProjectedHeader(header) <==> x in header && x !in EXCLUDED
  {
    if |header| > 0 {
      var init := header[..|header| - 1];
      ProjectionRemovesExcludedNames(init);
      KeepRestrict(init, RemovedIndices(init), RemovedIndices(header));
    }
  }

  lemma {:induction false} KeepRestrict(cells: seq<string>, d1: set<int>, d2: set<int>)
    requires forall i :: 0 <= i < |cells| ==> (i in d1 <==> i in d2)
    ensures Keep(cells, d1) == Keep(cells, d2)
  {
    if |cells| > 0 {
      KeepRestrict(cells[..|cells| - 1], d1, d2);
    }
  }

  /** The projected header in terms of positions: the names at the header
      positions holding a non-excluded name, in ascending order. */
  lemma ProjectedHeaderPositions(header: seq<string>)
    ensures var ps := KeptPositions(|header|, RemovedIndices(header));
      && |ProjectedHeader(header)| == |ps|
      && (forall k :: 0 <= k < |ps| ==> ps[k] < |header| && ProjectedHeader(header)[k] == header[ps[k]])
      && (forall k, l :: 0 <= k < l < |ps| ==> ps[k] < ps[l])
      && (forall p :: 0 <= p < |header| ==> (p in ps <==> header[p] !in EXCLUDED))
  {
    KeepIsKeptPositions(header, RemovedIndices(header));
    KeptPositionsFacts(|header|, RemovedIndices(header));
  }

  // ---------------------------------------------------------------------
  // Timestamps
  // ---------------------------------------------------------------------

  /** `formatTimestamp`: the date formatting of the millisecond count when
      the text parses as a Long, otherwise the text itself. The
      locale- and time-zone-dependent date formatting is the parameter
      `formatMillis`. */
  function FormatTimestamp(timestamp: string, formatMillis: int -> string): string
  {
    match ParseLong(timestamp)
    case Some(millis) => formatMillis(millis)
    case None => timestamp
  }

  /** A text that can be a Long at all: digits, optionally after one sign. */
  predicate NumericShape(s: string)
  {
    && |s| >= 1
    && (IsDigit(s[0]) || (|s| >= 2 && (s[0] == '-' || s[0] == '+')))
    && forall i :: 1 <= i < |s| ==> IsDigit(s[i])
  }

  /** The passthrough: a text that is not a number comes back unchanged,
      and a rendered millisecond count is formatted exactly when it fits in
      a Long (so "0" gives the start of the epoch). */
  lemma FormatTimestampPassthrough(s: string, n: int, formatMillis: int -> string)
    ensures !NumericShape(s) ==> FormatTimestamp(s, formatMillis) == s
    ensures FormatTimestamp(Render(n), formatMillis)
      == if LONG_MIN <= n <= LONG_MAX then formatMillis(n) else Render(n)
    ensures FormatTimestamp("0", formatMillis) == formatMillis(0)
  {
    ParseRender(n, LONG_MIN, LONG_MAX);
    ParseRender(0, LONG_MIN, LONG_MAX);
    assert Render(0) == "0";
    if !NumericShape(s) && |s| >= 1 && (IsDigit(s[0]) || (|s| >= 2 && (s[0] == '-' || s[0] == '+'))) {
      var i :| 1 <= i < |s| && !IsDigit(s[i]);
    }
  }

  // ---------------------------------------------------------------------
  // Rows
  // ---------------------------------------------------------------------

  /** The chart row for one data line: its comma-separated cells without
      the cells at removed header positions. */
  function ChartRow(header: seq<string>, line: string): seq<string>
  {
    Keep(Split(line, ','), RemovedIndices(header))
  }

  /** The display row for one data line: the same, after the cell at the
      header's first TIMESTAMP position, when the line has one, went
      through `FormatTimestamp`. */
  function DisplayRow(header: seq<string>, line: string, formatMillis: int -> string): seq<string>
  {
    var cells := Split(line, ',');
    var ts := IndexOf(header, TIMESTAMP);
    var formatted := if ts != -1 && |cells| > ts then cells[ts := FormatTimestamp(cells[ts], formatMillis)] else cells;
    Keep(formatted, RemovedIndices(header))
  }

  /** The chart rows of a run of data lines, one per line, in order. */
  function ChartRows(header: seq<string>, lines: seq<string>): (r: seq<seq<string>>)
    ensures |r| == |lines|
    ensures forall i :: 0 <= i < |lines| ==> r[i] == ChartRow(header, lines[i])
  {
    if |lines| == 0 then [] else ChartRows(header, lines[..|lines| - 1]) + [ChartRow(header, lines[|lines| - 1])]
  }

  /** The display rows of a run of data lines, one per line, in order. */
  function DisplayRows(header: seq<string>, lines: seq<string>, formatMillis: int -> string): (r: seq<seq<string>>)
    ensures |r| == |lines|
    ensures forall i :: 0 <= i < |lines| ==> r[i] == DisplayRow(header, lines[i], formatMillis)
  {
    if |lines| == 0 then []
    else DisplayRows(header, lines[..|lines| - 1], formatMillis) + [DisplayRow(header, lines[|lines| - 1], formatMillis)]
  }

  /** Cells beyond the header's length are never dropped: a chart row is
      the projection of the line's first |header| cells followed by all
      the remaining cells. */
  lemma ChartRowKeepsOverflow(header: seq<string>, line: string)
    requires |Split(line, ',')| >= |header|
    ensures ChartRow(header, line)
      == Keep(Split(line, ',')[..|header|], RemovedIndices(header)) + Split(line, ',')[|header|..]
  {
    KeepBeyond(Split(line, ','), RemovedIndices(header), |header|);
  }

  /** The two rows of one line differ at most in the projected TIMESTAMP
      column: there the display row holds the formatted chart cell; when
      the header has no TIMESTAMP or the line is too short to reach it,
      the rows are equal. */
  lemma DisplayRowMatchesChartRow(header: seq<string>, line: string, formatMillis: int -> string)
    ensures var chart := ChartRow(header, line);
      var display := DisplayRow(header, line, formatMillis);
      var ts := IndexOf(header, TIMESTAMP);
      var k := IndexOf(ProjectedHeader(header), TIMESTAMP);
      && (ts == -1 || |Split(line, ',')| <= ts ==> display == chart)
      && (ts != -1 && |Split(line, ',')| > ts ==>
            0 <= k < |chart| && display == chart[k := FormatTimestamp(chart[k], formatMillis)])
  {
    var cells := Split(line, ',');
    var ts := IndexOf(header, TIMESTAMP);
    var drop := RemovedIndices(header);
    if ts != -1 && |cells| > ts {
      assert ts !in drop;
      var m := |Keep(header[..ts], drop)|;
      KeepUpdate(header, drop, ts, TIMESTAMP);
      KeepUpdate(cells, drop, ts, FormatTimestamp(cells[ts], formatMillis));
      KeepLength(header[..ts], cells[..ts], drop);
      KeepPrefix(header, drop, ts);
      var cols := ProjectedHeader(header);
      forall j | 0 <= j < m ensures cols[j] != TIMESTAMP {
        assert cols[j] == Keep(header[..ts], drop)[j];
        if cols[j] == TIMESTAMP {
          KeepElements(header[..ts], drop, TIMESTAMP);
        }
      }
    }
  }

  // ---------------------------------------------------------------------
  // The ingestion
  // ---------------------------------------------------------------------

  /** `readCsvFromAssets`. The asset is None when it cannot be opened. The
      header is the first line split on ','; every further line gives one
      chart row and one display row, in file order. A missing asset, and an
      empty one (whose first `readLine()` is null), give two empty
      tables. */
  method ReadCsvFromAssets(asset: Option<string>, formatMillis: int -> string)
    returns (display: TableContent, chart: TableContent)
    ensures asset.None? || asset.value == "" ==> display == EMPTY_TABLE && chart == EMPTY_TABLE
    ensures asset.Some? && asset.value != "" ==>
      var lines := Lines(asset.value);
      var header := Split(lines[0], ',');
      && display.columns == chart.columns == ProjectedHeader(header)
      && chart.rows == ChartRows(header, lines[1..])
      && display.rows == DisplayRows(header, lines[1..], formatMillis)
  {
    if asset.None? {
      return EMPTY_TABLE, EMPTY_TABLE;
    }
    var reader := new LineReader(asset.value);
    var first := reader.ReadLine();
    if first.None? {
      return EMPTY_TABLE, EMPTY_TABLE;
    }
    var originalHeader := Split(first.value, ',');
    var timestampIndex := IndexOf(originalHeader, TIMESTAMP);
    var indicesToRemove := RemovedIndices(originalHeader);
    var newHeader := Keep(originalHeader, indicesToRemove);
    var rowsForDisplay: seq<seq<string>> := [];
    var rowsForChart: seq<seq<string>> := [];
    var rest := reader.ReadLines();
    for j := 0 to |rest|
      invariant rowsForChart == ChartRows(originalHeader, rest[..j])
      invariant rowsForDisplay == DisplayRows(originalHeader, rest[..j], formatMillis)
    {
      assert rest[..j + 1][..j] == rest[..j];
      var originalRow := Split(rest[j], ',');
      var chartRow := Keep(originalRow, indicesToRemove);
      rowsForChart := rowsForChart + [chartRow];
      if timestampIndex != -1 && |originalRow| > timestampIndex {
        originalRow := originalRow[timestampIndex := FormatTimestamp(originalRow[timestampIndex], formatMillis)];
      }
      var displayRow := Keep(originalRow, indicesToRemove);
      rowsForDisplay := rowsForDisplay + [displayRow];
    }
    assert rest[..|rest|] == rest;
    display := TableContent(newHeader, rowsForDisplay);
    chart := TableContent(newHeader, rowsForChart);
  }

  /** Ingesting an exported table gives it back as the chart table when it
      is representable and has no excluded column. */
  lemma IngestAfterExport(t: TableContent)
    requires Representable(t)
    requires forall j :: 0 <= j < |t.columns| ==> t.columns[j] !in EXCLUDED
    ensures var lines := Lines(Serialise(t));
      var header := Split(lines[0], ',');
      && |lines| == 1 + |t.rows|
      && ProjectedHeader(header) == t.columns
      && forall i :: 0 <= i < |t.rows| ==> ChartRow(header, lines[i + 1]) == t.rows[i]
  {
    var lines := Lines(Serialise(t));
    LinesOfExport(t);
    ExportRoundTrip(t);
    var header := Split(lines[0], ',');
    assert header == t.columns;
    KeepNothing(header, RemovedIndices(header));
    forall i | 0 <= i < |t.rows| ensures ChartRow(header, lines[i + 1]) == t.rows[i] {
      assert Split(lines[i + 1], ',') == SplitAll(lines[1..])[i];
      KeepNothing(t.rows[i], RemovedIndices(header));
    }
  }
}
