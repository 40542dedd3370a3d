/** The typed reader of the activity sample file (data/CsvDataSource.kt,
    `getActivities`, building the `MiBandActivity` records of
    data/MiBandActivity.kt). */
module Activities {
  import opened Wrappers
  import opened Text

  /** One activity sample: a Long timestamp and six Int fields. */
  datatype MiBandActivity = MiBandActivity(
    timestamp: int,
    deviceId: int,
    userId: int,
    rawIntensity: int,
    steps: int,
    rawKind: int,
    heartRate: int)

  predicate IsInt(n: int)
  {
    INT_MIN <= n <= INT_MAX
  }

  /** Every field fits its Kotlin type. */
  predicate WellRanged(a: MiBandActivity)
  {
    && LONG_MIN <= a.timestamp <= LONG_MAX
    && IsInt(a.deviceId) && IsInt(a.userId) && IsInt(a.rawIntensity)
    && IsInt(a.steps) && IsInt(a.rawKind) && IsInt(a.heartRate)
  }

  /** The record built from the first seven tokens, or None when one of
      them is not a number of its field's type (`toLong` / `toInt`
      throws). */
  function ParseRecord(tokens: seq<string>): (r: Option<MiBandActivity>)
    requires |tokens| >= 7
    ensures r.Some? ==> WellRanged(r.value)
  {
    var timestamp := ParseLong(tokens[0]);
    var deviceId := ParseInt(tokens[1]);
    var userId := ParseInt(tokens[2]);
    var rawIntensity := ParseInt(tokens[3]);
    var steps := ParseInt(tokens[4]);
    var rawKind := ParseInt(tokens[5]);
    var heartRate := ParseInt(tokens[6]);
    if timestamp.Some? && deviceId.Some? && userId.Some? && rawIntensity.Some?
       && steps.Some? && rawKind.Some? && heartRate.Some?
    then Some(MiBandActivity(timestamp.value, deviceId.value, userId.value, rawIntensity.value,
                             steps.value, rawKind.value, heartRate.value))
    else None
  }

  /** What the loop makes of one data line. */
  datatype LineKind = Short | Record(activity: MiBandActivity) | Malformed

  /** Fewer than seven comma-separated tokens: skipped; seven numbers first:
      a record (later tokens are ignored); otherwise the parse throws. */
  function ClassifyLine(line: string): LineKind
  {
    var tokens := Split(line, ',');
    if |tokens| < 7 then Short
    else match ParseRecord(tokens)
      case Some(a) => Record(a)
      case None => Malformed
  }

  /** The records of the data lines, in file order, up to the first line
      whose parse throws: the exception leaves the loop, and the list built
      so far is what the function returns. */
  function Collect(lines: seq<string>): (r: seq<MiBandActivity>)
    ensures |r| <= |lines|
  {
    if |lines| == 0 then []
    else
      var rest := Collect(lines[1..]);
      match ClassifyLine(lines[0])
      case Short => rest
      case Record(a) => [a] + rest
      case Malformed => []
  }

  /** Every collected record is the record of some line. */
  lemma {:induction false} CollectFromRecords(lines: seq<string>)
    ensures forall e :: e in Collect(lines) ==> exists i :: 0 <= i < |lines| && ClassifyLine(lines[i]) == Record(e)
  {
    if |lines| > 0 {
      CollectFromRecords(lines[1..]);
      forall e | e in Collect(lines) ensures exists i :: 0 <= i < |lines| && ClassifyLine(lines[i]) == Record(e) {
        if ClassifyLine(lines[0]) == Record(e) {
          assert 0 < |lines|;
        } else {
          assert e in Collect(lines[1..]);
          var k :| 0 <= k < |lines[1..]| && ClassifyLine(lines[1..][k]) == Record(e);
          assert lines[1..][k] == lines[k + 1];
        }
      }
    }
  }

  /** One line in front of the rest. */
  lemma CollectCons(line: string, rest: seq<string>)
    ensures Collect([line] + rest) == match ClassifyLine(line)
      case Short => Collect(rest)
      case Record(a) => [a] + Collect(rest)
      case Malformed => []
  {
    assert ([line] + rest)[1..] == rest;
  }

  /** Lines before any malformed one are collected independently of what
      follows them. */
  lemma {:induction false} CollectAppend(a: seq<string>, b: seq<string>)
    requires forall i :: 0 <= i < |a| ==> !ClassifyLine(a[i]).Malformed?
    ensures Collect(a + b) == Collect(a) + Collect(b)
  {
    if |a| == 0 {
      assert a + b == b;
    } else {
      assert (a + b)[1..] == a[1..] + b;
      assert (a + b)[0] == a[0];
      CollectAppend(a[1..], b);
    }
  }

  /** A malformed line ends the records: the result is exactly the records
      of the lines before the first malformed one. */
  lemma {:induction false} CollectStopsAtMalformed(lines: seq<string>, j: nat)
    requires j < |lines| && ClassifyLine(lines[j]).Malformed?
    requires forall i :: 0 <= i < j ==> !ClassifyLine(lines[i]).Malformed?
    ensures Collect(lines) == Collect(lines[..j])
  {
    if j > 0 {
      var tail := lines[1..];
      assert tail[j - 1] == lines[j];
      assert forall i :: 0 <= i < j - 1 ==> tail[i] == lines[i + 1];
      CollectStopsAtMalformed(tail, j - 1);
      assert lines[..j][1..] == tail[..j - 1];
    }
  }

  /** A file whose every data line is a record gives one record per line,
      in file order. */
  lemma {:induction false} CollectAllRecords(lines: seq<string>)
    requires forall i :: 0 <= i < |lines| ==> ClassifyLine(lines[i]).Record?
    ensures |Collect(lines)| == |lines|
    ensures forall i :: 0 <= i < |lines| ==> Collect(lines)[i] == ClassifyLine(lines[i]).activity
  {
    if |lines| > 0 {
      CollectAllRecords(lines[1..]);
      var r := Collect(lines);
      assert r == [ClassifyLine(lines[0]).activity] + Collect(lines[1..]);
      forall i | 1 <= i < |lines| ensures r[i] == ClassifyLine(lines[i]).activity {
        assert lines[1..][i - 1] == lines[i];
      }
    }
  }

  /** A record's seven fields as decimal text, in file order. */
  function RenderedFields(a: MiBandActivity): seq<string>
  {
    [Render(a.timestamp), Render(a.deviceId), Render(a.userId), Render(a.rawIntensity),
     Render(a.steps), Render(a.rawKind), Render(a.heartRate)]
  }

  /** The seven fields written out in order, separated by ','. */
  function RenderRecord(a: MiBandActivity): string
  {
    Join(RenderedFields(a), ',')
  }

  lemma RenderHasNoComma(n: int)
    ensures ',' !in Render(n)
  {
    var ds := Decimal(if n < 0 then -n else n);
    assert forall i :: 0 <= i < |ds| ==> IsDigit(ds[i]);
    if n < 0 {
      assert Render(n) == "-" + ds;
    }
  }

  lemma SplitRenderRecord(a: MiBandActivity)
    ensures Split(RenderRecord(a), ',') == RenderedFields(a)
  {
    var fields := RenderedFields(a);
    forall i | 0 <= i < 7 ensures ',' !in fields[i] {
      RenderHasNoComma(if i == 0 then a.timestamp else if i == 1 then a.deviceId
        else if i == 2 then a.userId else if i == 3 then a.rawIntensity
        else if i == 4 then a.steps else if i == 5 then a.rawKind else a.heartRate);
    }
    SplitJoin(fields, ',');
  }

  lemma ParseRenderedFields(a: MiBandActivity)
    requires WellRanged(a)
    ensures ParseRecord(RenderedFields(a)) == Some(a)
  {
    ParseRender(a.timestamp, LONG_MIN, LONG_MAX);
    ParseRender(a.deviceId, INT_MIN, INT_MAX);
    ParseRender(a.userId, INT_MIN, INT_MAX);
    ParseRender(a.rawIntensity, INT_MIN, INT_MAX);
    ParseRender(a.steps, INT_MIN, INT_MAX);
    ParseRender(a.rawKind, INT_MIN, INT_MAX);
    ParseRender(a.heartRate, INT_MIN, INT_MAX);
  }

  /** Tokens map to fields by position: a line holding a record's seven
      fields in order, possibly followed by more tokens, reads back as that
      record. */
  lemma RecordLineRoundTrip(a: MiBandActivity, rest: string)
    requires WellRanged(a)
    ensures ClassifyLine(RenderRecord(a)) == Record(a)
    ensures ClassifyLine(RenderRecord(a) + "," + rest) == Record(a)
  {
    var fields := RenderedFields(a);
    SplitRenderRecord(a);
    ParseRenderedFields(a);
    SplitConcat(RenderRecord(a), rest, ',');
    var tokens := Split(RenderRecord(a) + "," + rest, ',');
    assert RenderRecord(a) + "," + rest == RenderRecord(a) + [','] + rest;
    assert tokens == fields + Split(rest, ',');
    assert tokens[..7] == fields;
    assert ParseRecord(tokens) == ParseRecord(fields);
  }

  /** The data lines of a text: every line after the first (the header). */
  function DataLines(text: string): seq<string>
  {
    var lines := Lines(text);
    if |lines| == 0 then [] else lines[1..]
  }

  /** `getActivities`. The asset is None when it cannot be opened, which
      gives the empty list. The header line is read and dropped; then every
      further line is split on ',' and, with at least seven tokens, parsed
      into a record and appended. A token that is not a number ends the
      loop, and the records appended so far are the result. */
  method GetActivities(asset: Option<string>) returns (activities: seq<MiBandActivity>)
    ensures asset.None? ==> activities == []
    ensures asset.Some? ==> activities == Collect(DataLines(asset.value))
  {
    activities := [];
    if asset.None? {
      return;
    }
    var reader := new LineReader(asset.value);
    ghost var data := DataLines(asset.value);
    var header := reader.ReadLine();
    assert reader.lines[reader.pos..] == data;
    while true
      invariant reader.Valid() && reader.lines == Lines(asset.value)
      invariant Collect(data) == activities + Collect(reader.lines[reader.pos..])
      decreases |reader.lines| - reader.pos
    {
      ghost var remaining := reader.lines[reader.pos..];
      var line := reader.ReadLine();
      if line.None? {
        break;
      }
      assert remaining == [line.value] + reader.lines[reader.pos..];
      CollectCons(line.value, reader.lines[reader.pos..]);
      var tokens := Split(line.value, ',');
      if |tokens| >= 7 {
        var activity := ParseRecord(tokens);
        if activity.None? {
          return;
        }
        activities := activities + [activity.value];
      }
    }
  }
}
