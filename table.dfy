/** The table shared by ingestion, display, charting and export, the three
    export formats, and the export itself (ui/TableUtils.kt). */
module Table {
  import opened Wrappers
  import opened Text

  /** `TableContent`: column names and rows of cells, both in order. Its
      default value, used on every failure, has neither. */
  datatype TableContent = TableContent(columns: seq<string>, rows: seq<seq<string>>)

  const EMPTY_TABLE: TableContent := TableContent([], [])

  /** The export formats. All three write the same text; only the file
      extension and the registered content type differ (an "xls" file is
      comma-separated text under another name). */
  datatype FileType = CSV | XLS | TXT
  {
    function Extension(): string
    {
      match this
      case CSV => "csv"
      case XLS => "xls"
      case TXT => "txt"
    }

    function MimeType(): string
    {
      match this
      case CSV => "text/csv"
      case XLS => "application/vnd.ms-excel"
      case TXT => "text/plain"
    }
  }

  /** The display name of the exported file: base name, '.', extension. */
  function FileName(baseFileName: string, fileType: FileType): string
  {
    baseFileName + "." + fileType.Extension()
  }

  /** The format can be told from the file name alone, and from its content
      type alone: the extension is the last '.'-separated piece of the
      name, what comes before it is the base name, and no two formats share
      an extension or a content type. */
  lemma FileNameIdentifiesFormat(baseFileName: string, fileType: FileType, other: FileType)
    ensures var pieces := Split(FileName(baseFileName, fileType), '.');
      pieces[|pieces| - 1] == fileType.Extension()
      && Join(pieces[..|pieces| - 1], '.') == baseFileName
    ensures FileName(baseFileName, fileType) == FileName(baseFileName, other) <==> fileType == other
    ensures fileType.MimeType() == other.MimeType() <==> fileType == other
  {
    var ext := fileType.Extension();
    assert '.' !in ext;
    SplitAppendPiece(baseFileName, ext, '.');
    JoinSplit(baseFileName, '.');
    var pieces := Split(FileName(baseFileName, fileType), '.');
    assert FileName(baseFileName, fileType) == baseFileName + ['.'] + ext;
    assert pieces[..|pieces| - 1] == Split(baseFileName, '.');
    if FileName(baseFileName, fileType) == FileName(baseFileName, other) {
      var n := |baseFileName| + 1;
      assert FileName(baseFileName, fileType)[n..] == ext;
      assert FileName(baseFileName, other)[n..] == other.Extension();
    }
  }

  // ---------------------------------------------------------------------
  // Serialisation
  // ---------------------------------------------------------------------

  /** Each row's cells joined by ','. */
  function JoinedRows(rows: seq<seq<string>>): (r: seq<string>)
    ensures |r| == |rows|
    ensures forall i :: 0 <= i < |rows| ==> r[i] == Join(rows[i], ',')
  {
    if |rows| == 0 then [] else JoinedRows(rows[..|rows| - 1]) + [Join(rows[|rows| - 1], ',')]
  }

  /** What one `writer.write` call writes for a header or a row: the cells
      joined by ',' and a '\n'. */
  function LineOf(cells: seq<string>): string
  {
    Join(cells, ',') + "\n"
  }

  /** The rows' lines, one after the other, in row order. */
  function RowsText(rows: seq<seq<string>>): string
  {
    if |rows| == 0 then "" else RowsText(rows[..|rows| - 1]) + LineOf(rows[|rows| - 1])
  }

  /** The exported text: the header line, then the rows' lines. It does not
      depend on the file type. */
  function Serialise(t: TableContent): string
  {
    LineOf(t.columns) + RowsText(t.rows)
  }

  lemma {:induction false} RowsTextStep(rows: seq<seq<string>>, i: nat)
    requires i < |rows|
    ensures RowsText(rows[..i + 1]) == RowsText(rows[..i]) + LineOf(rows[i])
  {
    assert rows[..i + 1][..i] == rows[..i];
  }

  lemma {:induction false} RowsTextLines(rows: seq<seq<string>>)
    ensures RowsText(rows) == Terminated(JoinedRows(rows))
  {
    if |rows| > 0 {
      RowsTextLines(rows[..|rows| - 1]);
      var j := JoinedRows(rows);
      assert j[..|j| - 1] == JoinedRows(rows[..|rows| - 1]);
    }
  }

  /** The exported text is the export's lines, each ended by '\n'. */
  lemma SerialiseLines(t: TableContent)
    ensures Serialise(t) == Terminated([Join(t.columns, ',')] + JoinedRows(t.rows))
  {
    var h := Join(t.columns, ',');
    var rest := JoinedRows(t.rows);
    RowsTextLines(t.rows);
    assert Terminated([h]) == LineOf(t.columns) by {
      assert [h][..0] == [];
    }
    TerminatedAppend([h], rest);
  }

  /** No line break inside any column name or cell. */
  predicate SingleLineCells(t: TableContent)
  {
    && (forall j :: 0 <= j < |t.columns| ==> '\n' !in t.columns[j])
    && (forall i, j :: 0 <= i < |t.rows| && 0 <= j < |t.rows[i]| ==> '\n' !in t.rows[i][j])
  }

  /** A table that the comma-separated text can carry: no ',' and no line
      break in any name or cell, and no empty column list or empty row
      (either would be written as an empty line, which splits to [""]). */
  predicate Representable(t: TableContent)
  {
    && SingleLineCells(t)
    && (forall j :: 0 <= j < |t.columns| ==> ',' !in t.columns[j])
    && (forall i, j :: 0 <= i < |t.rows| && 0 <= j < |t.rows[i]| ==> ',' !in t.rows[i][j])
    && |t.columns| >= 1
    && (forall i :: 0 <= i < |t.rows| ==> |t.rows[i]| >= 1)
  }

  /** How often `c` occurs in `s`. */
  function Count(s: string, c: char): nat
  {
    if |s| == 0 then 0 else Count(s[..|s| - 1], c) + (if s[|s| - 1] == c then 1 else 0)
  }

  lemma {:induction false} CountAppend(a: string, b: string, c: char)
    ensures Count(a + b, c) == Count(a, c) + Count(b, c)
  {
    if |b| == 0 {
      assert a + b == a;
    } else {
      assert (a + b)[..|a + b| - 1] == a + b[..|b| - 1];
      CountAppend(a, b[..|b| - 1], c);
    }
  }

  lemma {:induction false} CountAbsent(s: string, c: char)
    requires c !in s
    ensures Count(s, c) == 0
  {
    if |s| > 0 {
      CountAbsent(s[..|s| - 1], c);
    }
  }

  /** Joining pieces free of `c` with a separator other than `c` gives a
      text free of `c`. */
  lemma {:induction false} JoinAvoids(xs: seq<string>, sep: char, c: char)
    requires sep != c
    requires forall i :: 0 <= i < |xs| ==> c !in xs[i]
    ensures c !in Join(xs, sep)
  {
    if |xs| > 1 {
      JoinAvoids(xs[..|xs| - 1], sep, c);
    }
  }

  lemma {:induction false} CountTerminated(ls: seq<string>)
    requires forall i :: 0 <= i < |ls| ==> '\n' !in ls[i]
    ensures Count(Terminated(ls), '\n') == |ls|
  {
    if |ls| > 0 {
      var init := ls[..|ls| - 1];
      CountTerminated(init);
      CountAppend(Terminated(init), ls[|ls| - 1], '\n');
      CountAppend(Terminated(init) + ls[|ls| - 1], "\n", '\n');
      CountAbsent(ls[|ls| - 1], '\n');
      assert Count("\n", '\n') == Count("", '\n') + 1;
    }
  }

  /** The lines of the export: header line first, then one per row. */
  function ExportLines(t: TableContent): (ls: seq<string>)
    ensures |ls| == 1 + |t.rows|
  {
    [Join(t.columns, ',')] + JoinedRows(t.rows)
  }

  lemma ExportLinesSingle(t: TableContent)
    requires SingleLineCells(t)
    ensures forall i :: 0 <= i < |ExportLines(t)| ==> '\n' !in ExportLines(t)[i]
  {
    var ls := ExportLines(t);
    JoinAvoids(t.columns, ',', '\n');
    forall i | 1 <= i < |ls| ensures '\n' !in ls[i] {
      assert ls[i] == Join(t.rows[i - 1], ',');
      JoinAvoids(t.rows[i - 1], ',', '\n');
    }
  }

  /** Without line breaks in names or cells, reading the export line by
      line gives the header line and then one line per row. */
  lemma LinesOfExport(t: TableContent)
    requires SingleLineCells(t)
    ensures Lines(Serialise(t)) == ExportLines(t)
  {
    SerialiseLines(t);
    ExportLinesSingle(t);
    LinesOfTerminated(ExportLines(t));
  }

  /** Without line breaks in names or cells the export has exactly one
      '\n' per row plus one for the header. */
  lemma NewlineCount(t: TableContent)
    requires SingleLineCells(t)
    ensures Count(Serialise(t), '\n') == 1 + |t.rows|
  {
    SerialiseLines(t);
    ExportLinesSingle(t);
    CountTerminated(ExportLines(t));
  }

  /** Each line split on ','. */
  function SplitAll(ls: seq<string>): (r: seq<seq<string>>)
    ensures |r| == |ls|
    ensures forall i :: 0 <= i < |ls| ==> r[i] == Split(ls[i], ',')
  {
    if |ls| == 0 then [] else SplitAll(ls[..|ls| - 1]) + [Split(ls[|ls| - 1], ',')]
  }

  /** Reads an exported text back: its lines, each split on ','. The first
      line gives the columns and the rest the rows; a text without lines
      gives the empty table. */
  function ParseExport(text: string): TableContent
  {
    var ls := Lines(text);
    if |ls| == 0 then EMPTY_TABLE else TableContent(Split(ls[0], ','), SplitAll(ls[1..]))
  }

  /** Splitting the joined rows gives the rows back. */
  lemma SplitJoinedRows(rows: seq<seq<string>>)
    requires forall i :: 0 <= i < |rows| ==> |rows[i]| >= 1
    requires forall i, j :: 0 <= i < |rows| && 0 <= j < |rows[i]| ==> ',' !in rows[i][j]
    ensures SplitAll(JoinedRows(rows)) == rows
  {
    var back := SplitAll(JoinedRows(rows));
    forall i | 0 <= i < |rows| ensures back[i] == rows[i] {
      SplitJoin(rows[i], ',');
    }
  }

  /** Reading a table back from text whose lines are a representable
      table's export lines gives that table. */
  lemma ParseExportLines(t: TableContent, text: string)
    requires Representable(t)
    requires Lines(text) == ExportLines(t)
    ensures ParseExport(text) == t
  {
    var ls := ExportLines(t);
    assert ls[1..] == JoinedRows(t.rows);
    SplitJoin(t.columns, ',');
    SplitJoinedRows(t.rows);
  }

  /** Round trip: a representable table comes back unchanged. */
  lemma ExportRoundTrip(t: TableContent)
    requires Representable(t)
    ensures ParseExport(Serialise(t)) == t
  {
    LinesOfExport(t);
    ParseExportLines(t, Serialise(t));
  }

  // ---------------------------------------------------------------------
  // The downloads store and the export
  // ---------------------------------------------------------------------

  /** One registered file: display name, content type, folder, content. */
  datatype MediaEntry = MediaEntry(displayName: string, mimeType: string, relativePath: string, content: string)

  /** What the platform does during one export, chosen by the environment. */
  datatype Fault =
    | NoFault
      /** `insert` gives no Uri. */
    | InsertReturnsNull
      /** `insert` throws; it is called outside the `try`, so the exception
          leaves the export. */
    | InsertThrows(message: Option<string>)
      /** `openOutputStream` gives null. */
    | OpenReturnsNull
      /** `openOutputStream` throws. */
    | OpenThrows(message: Option<string>)
      /** The write call numbered `at` (0 is the header) throws. */
    | WriteThrows(at: nat, message: Option<string>)

  datatype InsertOutcome = Inserted(uri: nat) | NullUri | InsertFailed(message: Option<string>)

  datatype OpenOutcome = Stream | NullStream | OpenFailed(message: Option<string>)

  datatype WriteOutcome = Written | WriteFailed(message: Option<string>)

  /** `Pair<Boolean, String?>`: the success flag and the error message. */
  datatype SaveResult = SaveResult(success: bool, message: Option<string>)

  /** How the export ends: it returns its pair, or an exception raised
      outside its `try` leaves it with that exception's message. */
  datatype SaveOutcome = Returned(result: SaveResult) | Thrown(message: Option<string>)

  const DIRECTORY_DOWNLOADS: string := "Download"
  const MSG_NOT_MOUNTED: string := "External storage is not available."
  const MSG_INSERT_FAILED: string := "Failed to create new MediaStore record."

  /** The shared downloads collection as the export sees it: whether
      external storage is mounted, the entries registered so far by Uri,
      and the fault the platform has in store. */
  class DownloadsStore {
    var mounted: bool
    var entries: map<nat, MediaEntry>
    var nextUri: nat
    var fault: Fault
    var writes: nat

    ghost predicate Valid()
      reads this
    {
      forall u :: u in entries ==> u < nextUri
    }

    constructor (mounted: bool, fault: Fault)
      ensures Valid() && entries == map[] && nextUri == 0 && writes == 0
      ensures this.mounted == mounted && this.fault == fault
    {
      this.mounted := mounted;
      this.fault := fault;
      entries := map[];
      nextUri := 0;
      writes := 0;
    }

    /** `insert`: registers a new empty entry and gives its Uri, or gives
        null, or throws. */
    method Insert(displayName: string, mimeType: string, relativePath: string) returns (r: InsertOutcome)
      requires Valid()
      modifies this
      ensures Valid() && mounted == old(mounted) && fault == old(fault) && writes == old(writes)
      ensures fault.InsertReturnsNull? ==> r == NullUri && entries == old(entries) && nextUri == old(nextUri)
      ensures fault.InsertThrows? ==>
        r == InsertFailed(fault.message) && entries == old(entries) && nextUri == old(nextUri)
      ensures !fault.InsertReturnsNull? && !fault.InsertThrows? ==>
        && r == Inserted(old(nextUri))
        && old(nextUri) !in old(entries)
        && entries == old(entries)[old(nextUri) := MediaEntry(displayName, mimeType, relativePath, "")]
        && nextUri == old(nextUri) + 1
    {
      match fault
      case InsertReturnsNull =>
        r := NullUri;
      case InsertThrows(m) =>
        r := InsertFailed(m);
      case _ =>
        r := Inserted(nextUri);
        entries := entries[nextUri := MediaEntry(displayName, mimeType, relativePath, "")];
        nextUri := nextUri + 1;
    }

    /** `openOutputStream`: a stream that starts counting writes at 0, or
        null, or an exception. */
    method OpenOutputStream(uri: nat) returns (r: OpenOutcome)
      modifies this
      ensures mounted == old(mounted) && fault == old(fault)
      ensures entries == old(entries) && nextUri == old(nextUri)
      ensures r == match fault
        case OpenReturnsNull => NullStream
        case OpenThrows(m) => OpenFailed(m)
        case _ => Stream
      ensures r.Stream? ==> writes == 0
    {
      match fault
      case OpenReturnsNull =>
        r := NullStream;
      case OpenThrows(m) =>
        r := OpenFailed(m);
      case _ =>
        r := Stream;
        writes := 0;
    }

    /** `writer.write(text)`: appends to the entry's content unless this is
        the write the fault makes throw. */
    method Write(uri: nat, text: string) returns (r: WriteOutcome)
      requires Valid() && uri in entries
      modifies this
      ensures Valid() && mounted == old(mounted) && fault == old(fault) && nextUri == old(nextUri)
      ensures writes == old(writes) + 1
      ensures fault.WriteThrows? && fault.at == old(writes) ==>
        r == WriteFailed(fault.message) && entries == old(entries)
      ensures !(fault.WriteThrows? && fault.at == old(writes)) ==>
        r == Written
        && entries == old(entries)[uri := old(entries[uri]).(content := old(entries[uri].content) + text)]
    {
      if fault.WriteThrows? && fault.at == writes {
        r := WriteFailed(fault.message);
      } else {
        r := Written;
        entries := entries[uri := entries[uri].(content := entries[uri].content + text)];
      }
      writes := writes + 1;
    }

    /** `delete`: removes the entry. */
    method Delete(uri: nat)
      requires Valid()
      modifies this
      ensures Valid() && mounted == old(mounted) && fault == old(fault) && nextUri == old(nextUri)
      ensures entries == old(entries) - {uri}
    {
      entries := entries - {uri};
    }
  }

  /** The fault makes the export throw once the entry exists: opening the
      stream throws, or one of the 1 + rowCount writes does. */
  predicate ThrowsWhileWriting(fault: Fault, rowCount: nat)
  {
    fault.OpenThrows? || (fault.WriteThrows? && fault.at <= rowCount)
  }

  /** The `forEach` over the rows: writes each row's line and stops at the
      first write that throws. Only the entry at `uri` changes. */
  method WriteRows(store: DownloadsStore, uri: nat, rows: seq<seq<string>>) returns (r: WriteOutcome)
    requires store.Valid() && uri in store.entries
    modifies store
    ensures store.Valid() && store.mounted == old(store.mounted) && store.fault == old(store.fault)
    ensures store.nextUri == old(store.nextUri) && uri in store.entries
    ensures store.entries == old(store.entries)[uri := store.entries[uri]]
    ensures r.Written? <==>
      !(store.fault.WriteThrows? && old(store.writes) <= store.fault.at < old(store.writes) + |rows|)
    ensures r.WriteFailed? ==> r.message == store.fault.message
    ensures r.Written? ==>
      && store.writes == old(store.writes) + |rows|
      && store.entries[uri] == old(store.entries[uri]).(content := old(store.entries[uri].content) + RowsText(rows))
  {
    ghost var w0 := store.writes;
    ghost var e0 := store.entries;
    ghost var c0 := e0[uri].content;
    var i := 0;
    assert rows[..0] == [];
    assert c0 + "" == c0;
    while i < |rows|
      invariant 0 <= i <= |rows|
      invariant store.Valid() && store.mounted == old(store.mounted) && store.fault == old(store.fault)
      invariant store.nextUri == old(store.nextUri) && uri in store.entries
      invariant store.writes == w0 + i
      invariant !(store.fault.WriteThrows? && w0 <= store.fault.at < w0 + i)
      invariant store.entries == e0[uri := e0[uri].(content := c0 + RowsText(rows[..i]))]
    {
      ghost var written := RowsText(rows[..i]);
      var line := LineOf(rows[i]);
      r := store.Write(uri, line);
      if r.WriteFailed? {
        return;
      }
      RowsTextStep(rows, i);
      assert (c0 + written) + line == c0 + (written + line);
      i := i + 1;
    }
    assert rows[..i] == rows;
    r := Written;
  }

  /** `saveTableContentToDownloads`: checks that storage is mounted,
      registers `<base>.<extension>` with the format's content type under
      the downloads folder, writes the header line and then one line per
      row, and on any exception while writing deletes the entry again. An
      exception from `insert`, which sits outside the `try`, leaves the
      function without a result. */
  method SaveTableContentToDownloads(store: DownloadsStore, t: TableContent, baseFileName: string, fileType: FileType)
    returns (outcome: SaveOutcome)
    requires store.Valid()
    modifies store
    ensures store.Valid() && store.mounted == old(store.mounted) && store.fault == old(store.fault)
    ensures !store.mounted ==>
      outcome == Returned(SaveResult(false, Some(MSG_NOT_MOUNTED))) && store.entries == old(store.entries)
    ensures store.mounted && store.fault.InsertThrows? ==>
      outcome == Thrown(store.fault.message) && store.entries == old(store.entries)
    ensures store.mounted && store.fault.InsertReturnsNull? ==>
      outcome == Returned(SaveResult(false, Some(MSG_INSERT_FAILED))) && store.entries == old(store.entries)
    ensures store.mounted && ThrowsWhileWriting(store.fault, |t.rows|) ==>
      outcome == Returned(SaveResult(false, store.fault.message)) && store.entries == old(store.entries)
    ensures store.mounted && store.fault.OpenReturnsNull? ==>
      && outcome == Returned(SaveResult(true, None))
      && store.entries == old(store.entries)[old(store.nextUri) :=
           MediaEntry(FileName(baseFileName, fileType), fileType.MimeType(), DIRECTORY_DOWNLOADS, "")]
    ensures store.mounted && !store.fault.InsertReturnsNull? && !store.fault.InsertThrows?
            && !store.fault.OpenReturnsNull? && !ThrowsWhileWriting(store.fault, |t.rows|) ==>
      && outcome == Returned(SaveResult(true, None))
      && store.entries == old(store.entries)[old(store.nextUri) :=
           MediaEntry(FileName(baseFileName, fileType), fileType.MimeType(), DIRECTORY_DOWNLOADS, Serialise(t))]
  {
    if !store.mounted {
      return Returned(SaveResult(false, Some(MSG_NOT_MOUNTED)));
    }
    var fileName := FileName(baseFileName, fileType);
    var inserted := store.Insert(fileName, fileType.MimeType(), DIRECTORY_DOWNLOADS);
    match inserted {
      case InsertFailed(m) =>
        return Thrown(m);
      case NullUri =>
        return Returned(SaveResult(false, Some(MSG_INSERT_FAILED)));
      case Inserted(_) =>
    }
    var uri := inserted.uri;
    var stream := store.OpenOutputStream(uri);
    match stream {
      case NullStream =>
        return Returned(SaveResult(true, None));
      case OpenFailed(m) =>
        store.Delete(uri);
        assert store.entries == old(store.entries);
        return Returned(SaveResult(false, m));
      case Stream =>
    }
    var w := store.Write(uri, LineOf(t.columns));
    if w.WriteFailed? {
      store.Delete(uri);
      assert store.entries == old(store.entries);
      return Returned(SaveResult(false, w.message));
    }
    w := WriteRows(store, uri, t.rows);
    if w.WriteFailed? {
      store.Delete(uri);
      assert store.entries == old(store.entries);
      return Returned(SaveResult(false, w.message));
    }
    assert store.entries[uri].content == Serialise(t);
    return Returned(SaveResult(true, None));
  }
}
