# MyNewApp data pipeline, modelled in Dafny

MyNewApp is a small Android front end for a Mi Band activity export. Its
logic is one string-and-list pipeline plus a screen selector:

- **Ingestion** (`readCsvFromAssets`): the bundled CSV asset is read line by
  line; the header is split on `','`; every column named `RAW_INTENSITY`,
  `STEPS` or `RAW_KIND` is dropped by position; each data line gives a
  *chart* row (raw cells) and a *display* row (the `TIMESTAMP` cell passed
  through `formatTimestamp`). Any failure gives two empty tables.
- **Timestamp formatting** (`formatTimestamp`): a millisecond count that
  parses as a `Long` is formatted as a date; anything else is returned
  unchanged.
- **Chart points** (`CsvChartScreen`): one (timestamp, heart rate) entry per
  row whose two cells exist and parse as floats; nothing when a column is
  missing.
- **Export** (`saveTableContentToDownloads`): the table is written as
  comma-joined, newline-terminated lines into a new entry of the shared
  downloads collection, named `<base>.<extension>`; storage not mounted,
  entry creation failure and exceptions while writing (with the entry
  deleted again) each give a defined result; an exception from creating the
  entry is not caught and leaves the export.
- **Record parser** (`CsvDataSource.getActivities`): skips the header and
  short lines, turns the first seven tokens of every other line into a
  `MiBandActivity`, and stops at the first token that is not a number,
  keeping what it has collected.
- **Navigation** (`MainContent`): three screens and four transitions,
  starting at the database table.

The project has seven modules, one file each:

- `wrappers.dfy` (`Option`);
- `text.dfy`, Kotlin's `split`, `joinToString`, `BufferedReader.readLine`
  and `toLong`/`toInt`;
- `table.dfy`, `TableUtils.kt`;
- `ingest.dfy`, `readCsvFromAssets` and `formatTimestamp`;
- `chart.dfy`, the extraction in `CsvChartScreen`;
- `activities.dfy`, `CsvDataSource` and `MiBandActivity`;
- `navigation.dfy`, `Screen` and `MainContent`.

Platform services become parameters or an abstract store:

- the date formatter is a function `formatMillis: int -> string`;
- `toFloat` is a function `parseFloat: string -> Option<F>` over an
  unspecified number type `F`;
- an asset is an `Option<string>`, where `None` means it cannot be opened;
- `MediaStore` with its `ContentResolver` is the class
  `Table.DownloadsStore`. It has a mounted flag, its entries by Uri, and a
  `Fault` chosen by the environment: insert returns null, insert throws,
  the stream is null, opening throws, or the write numbered *n* throws.

Source paths below are relative to the repository root.

## Model

| member | source | states |
|---|---|---|
| Text.Split | app/src/main/java/com/example/mynewapp/MainActivity.kt:780 | `split(',')` never gives an empty list: "" gives one empty piece |
| Text.SplitPieces | app/src/main/java/com/example/mynewapp/MainActivity.kt:796 | no piece of a split contains the separator |
| Text.JoinSplit | app/src/main/java/com/example/mynewapp/MainActivity.kt:796 | joining the pieces of a split with the separator gives the original text back |
| Text.SplitJoin | app/src/main/java/com/example/mynewapp/ui/TableUtils.kt:49-52 | splitting `joinToString(",")` of at least one separator-free piece gives exactly those pieces back |
| Text.SplitConcat | app/src/main/java/com/example/mynewapp/data/CsvDataSource.kt:19-20 | splitting at a separator splits the two sides independently, so the tokens of a line's first part are not affected by what follows |
| Text.Lines | app/src/main/java/com/example/mynewapp/data/CsvDataSource.kt:16-18 | the lines `readLine()` delivers contain no '\n', and a text has no line exactly when it is empty; with Text.JoinLinesUnterminated and Text.TerminatedLinesOfTerminated, which fix the lines of every non-empty text, these pin the lines down completely |
| Text.LinesOfTerminated | app/src/main/java/com/example/mynewapp/ui/TableUtils.kt:49-53 | reading back '\n'-terminated single-line texts gives exactly those lines |
| Text.JoinLinesUnterminated | app/src/main/java/com/example/mynewapp/data/CsvDataSource.kt:16-18 | when the text's last character is not '\n', the lines rejoined with '\n' are the whole text: the unterminated last line is read up to the end |
| Text.TerminatedLinesOfTerminated | app/src/main/java/com/example/mynewapp/data/CsvDataSource.kt:16-18 | when the text ends in '\n', the lines each followed by '\n' are the whole text: the final '\n' opens no further line |
| Text.LineReader.constructor | app/src/main/java/com/example/mynewapp/MainActivity.kt:778-779 | a fresh reader is positioned before the first line of the text |
| Text.LineReader.ReadLine | app/src/main/java/com/example/mynewapp/data/CsvDataSource.kt:16-18 | `readLine()` gives the next line and advances, or null at the end without moving |
| Text.LineReader.ReadLines | app/src/main/java/com/example/mynewapp/MainActivity.kt:795 | `readLines()` gives all the lines not read yet, in order, and leaves the reader at the end |
| Text.ParseInteger | app/src/main/java/com/example/mynewapp/data/CsvDataSource.kt:22-28 | a parsed value lies in the type's range; the empty text, a lone sign and a text starting with anything but a sign or digit are rejected |
| Text.ParseIntegerRejectsNonDigit | app/src/main/java/com/example/mynewapp/data/CsvDataSource.kt:22-28 | any non-digit after the first character makes `toLong`/`toInt` fail |
| Text.ParseRender | app/src/main/java/com/example/mynewapp/MainActivity.kt:824 | the decimal rendering of n parses back to n exactly when n is in range, and fails otherwise |
| Table.FileNameIdentifiesFormat | app/src/main/java/com/example/mynewapp/ui/TableUtils.kt:15-31 | the file name is the base name, '.', then the extension: its last '.'-piece is the extension and the rest joins back to the base name; different formats give different names and different MIME types |
| Table.JoinedRows | app/src/main/java/com/example/mynewapp/ui/TableUtils.kt:51-52 | one joined line per row, in row order, each the row's cells joined by ',' |
| Table.RowsTextLines | app/src/main/java/com/example/mynewapp/ui/TableUtils.kt:51-53 | the rows' text is each joined row followed by '\n', in row order |
| Table.SerialiseLines | app/src/main/java/com/example/mynewapp/ui/TableUtils.kt:49-53 | the written text is the joined header and then each joined row, each followed by '\n'; the file type plays no part |
| Table.ExportLines | app/src/main/java/com/example/mynewapp/ui/TableUtils.kt:49-53 | the export has one line for the header and one per row |
| Table.LinesOfExport | app/src/main/java/com/example/mynewapp/ui/TableUtils.kt:49-53 | without '\n' in names or cells, reading the export line by line gives the header line and then one line per row |
| Table.NewlineCount | app/src/main/java/com/example/mynewapp/ui/TableUtils.kt:49-53 | without '\n' in names or cells, the export holds exactly 1 + rows.size newline characters |
| Table.ParseExportLines | app/src/main/java/com/example/mynewapp/ui/TableUtils.kt:49-53 | a text whose lines are a representable table's export lines splits back into that table |
| Table.ExportRoundTrip | app/src/main/java/com/example/mynewapp/ui/TableUtils.kt:49-53 | with no ',' or '\n' in names or cells and a non-empty header and rows, splitting the export on '\n' and then on ',' recovers columns and rows exactly |
| Table.DownloadsStore.constructor | app/src/main/java/com/example/mynewapp/ui/TableUtils.kt:27 | a store starts with no entries, in the given mounted state and with the given fault |
| Table.DownloadsStore.Insert | app/src/main/java/com/example/mynewapp/ui/TableUtils.kt:33-43 | `insert` returns null or throws, changing nothing in either case, or registers a new empty entry with the given name, type and folder under a fresh Uri |
| Table.DownloadsStore.OpenOutputStream | app/src/main/java/com/example/mynewapp/ui/TableUtils.kt:46 | `openOutputStream` gives a stream, null or an exception as the fault says, and changes no entry |
| Table.DownloadsStore.Write | app/src/main/java/com/example/mynewapp/ui/TableUtils.kt:49-52 | a write appends its text to the entry, unless it is the write the fault makes throw, which changes no entry |
| Table.DownloadsStore.Delete | app/src/main/java/com/example/mynewapp/ui/TableUtils.kt:60 | `delete` removes exactly that entry |
| Table.WriteRows | app/src/main/java/com/example/mynewapp/ui/TableUtils.kt:51-53 | the `forEach` writes every row's line in order and fails exactly when one of its writes throws; only the target entry changes |
| Table.SaveTableContentToDownloads | app/src/main/java/com/example/mynewapp/ui/TableUtils.kt:21-63 | an exception from `insert` is not caught: it leaves the export with its message, no entry created and none deleted; every other case returns a pair: not mounted gives (false, "External storage is not available.") and a failed insert gives (false, "Failed to create new MediaStore record."), both with no entry created; an exception while opening or writing gives (false, its message) with the entry deleted again; a null stream gives (true, null) with an empty entry; otherwise (true, null) with one new entry `<base>.<ext>` of the format's MIME type in "Download" holding the serialised table |
| Ingest.IndexOf | app/src/main/java/com/example/mynewapp/MainActivity.kt:781 | `indexOf` gives -1 exactly when the name is absent, and otherwise the first position holding it |
| Ingest.KeepIsKeptPositions | app/src/main/java/com/example/mynewapp/MainActivity.kt:790 | `filterIndexed` keeps the cell at every position outside the removed set, in ascending position order |
| Ingest.KeepUpdate | app/src/main/java/com/example/mynewapp/MainActivity.kt:803-806 | overwriting a kept cell before filtering changes exactly the matching cell of the filtered row |
| Ingest.KeepBeyond | app/src/main/java/com/example/mynewapp/MainActivity.kt:796-799 | when every removed position lies below n, the cells from n on are all kept, unchanged and in order |
| Ingest.ProjectionRemovesExcludedNames | app/src/main/java/com/example/mynewapp/MainActivity.kt:784-790 | the projected header is the header with every occurrence of an excluded name removed, duplicates included, the others in order; a name is in it exactly when it is in the header and not excluded |
| Ingest.ProjectedHeaderPositions | app/src/main/java/com/example/mynewapp/MainActivity.kt:784-790 | the projected header holds the names at the positions of non-excluded names, in ascending order |
| Ingest.FormatTimestampPassthrough | app/src/main/java/com/example/mynewapp/MainActivity.kt:821-829 | a text that is not a number comes back unchanged; a rendered count is formatted exactly when it fits in a Long and returned as is otherwise; "0" is formatted as millisecond 0 |
| Ingest.ChartRows | app/src/main/java/com/example/mynewapp/MainActivity.kt:795-800 | one chart row per data line, in file order |
| Ingest.DisplayRows | app/src/main/java/com/example/mynewapp/MainActivity.kt:795-807 | one display row per data line, in file order |
| Ingest.ChartRowKeepsOverflow | app/src/main/java/com/example/mynewapp/MainActivity.kt:796-800 | cells past the header's length are never dropped from a chart row |
| Ingest.DisplayRowMatchesChartRow | app/src/main/java/com/example/mynewapp/MainActivity.kt:781-806 | a display row equals its chart row, except that when the header has TIMESTAMP and the line reaches it, the cell at TIMESTAMP's projected position is `formatTimestamp` of the raw cell |
| Ingest.ReadCsvFromAssets | app/src/main/java/com/example/mynewapp/MainActivity.kt:776-819 | a missing or empty asset gives two empty tables; otherwise both tables have the projected header as columns and one row per line after the header, in file order, the chart rows raw and the display rows with the formatted timestamp |
| Ingest.IngestAfterExport | app/src/main/java/com/example/mynewapp/MainActivity.kt:780-800 | ingesting the export of a representable table without excluded columns gives that table back as the chart table |
| Chart.Points | app/src/main/java/com/example/mynewapp/MainActivity.kt:756-764 | never more points than rows; one point per row when every row has one; every point comes from some row |
| Chart.PointsAppend | app/src/main/java/com/example/mynewapp/MainActivity.kt:756-764 | the points of two batches of rows are the first batch's points followed by the second's |
| Chart.PointsDropBadRow | app/src/main/java/com/example/mynewapp/MainActivity.kt:761-763 | a row without a point is dropped, never replaced: removing it leaves the output unchanged |
| Chart.ChartEntries | app/src/main/java/com/example/mynewapp/MainActivity.kt:752-767 | no entries when TIMESTAMP or HEART_RATE is missing; never more entries than rows |
| Chart.DropsUnparsableRow | app/src/main/java/com/example/mynewapp/MainActivity.kt:752-767 | of the rows ("1000","72"), ("bad","80"), ("2000","75") the unparsable one is dropped and the others give their points in order |
| Navigation.NextIsTransitions | app/src/main/java/com/example/mynewapp/MainActivity.kt:148-162 | some callback leads from one screen to another exactly when the pair is one of the four transitions CsvTable→DbTable, DbTable→DbChart, DbTable→CsvTable, DbChart→DbTable |
| Navigation.EveryChangePassesDbTable | app/src/main/java/com/example/mynewapp/MainActivity.kt:148-162 | along any sequence of callbacks, every change of screen goes to or from the database table |
| Navigation.Navigator.constructor | app/src/main/java/com/example/mynewapp/MainActivity.kt:141 | the selector starts at DbTable |
| Navigation.Navigator.Handle | app/src/main/java/com/example/mynewapp/MainActivity.kt:148-162 | a callback moves the selector along one of the four transitions, or leaves it where it is |
| Activities.ParseRecord | app/src/main/java/com/example/mynewapp/data/CsvDataSource.kt:21-29 | a built record has a Long timestamp and six Int fields in range |
| Activities.ParseRenderedFields | app/src/main/java/com/example/mynewapp/data/CsvDataSource.kt:21-29 | tokens 0..6 map by position to timestamp, deviceId, userId, rawIntensity, steps, rawKind, heartRate |
| Activities.RecordLineRoundTrip | app/src/main/java/com/example/mynewapp/data/CsvDataSource.kt:19-29 | a line holding a record's seven fields reads back as that record, whatever tokens follow the seventh |
| Activities.Collect | app/src/main/java/com/example/mynewapp/data/CsvDataSource.kt:17-32 | never more records than data lines |
| Activities.CollectFromRecords | app/src/main/java/com/example/mynewapp/data/CsvDataSource.kt:17-31 | every record comes from some data line that parses to it |
| Activities.CollectAppend | app/src/main/java/com/example/mynewapp/data/CsvDataSource.kt:17-32 | records appear in file order: lines before any malformed one contribute independently of what follows |
| Activities.CollectStopsAtMalformed | app/src/main/java/com/example/mynewapp/data/CsvDataSource.kt:17-38 | the result is exactly the records of the lines before the first malformed one |
| Activities.CollectAllRecords | app/src/main/java/com/example/mynewapp/data/CsvDataSource.kt:17-31 | when every data line is a record, there is one record per line, in file order |
| Activities.GetActivities | app/src/main/java/com/example/mynewapp/data/CsvDataSource.kt:10-39 | a missing asset gives the empty list; otherwise the header line is consumed and the result is the collected records of the remaining lines |
| Text.Join | app/src/main/java/com/example/mynewapp/ui/TableUtils.kt:49-52 | definition of `joinToString`; stated by Text.JoinSplit and Text.SplitJoin: it inverts `split` on separator-free pieces |
| Text.ParseLong | app/src/main/java/com/example/mynewapp/data/CsvDataSource.kt:22 | definition of `toLong`; stated by Text.ParseInteger, Text.ParseIntegerRejectsNonDigit and Text.ParseRender over the Long range |
| Text.ParseInt | app/src/main/java/com/example/mynewapp/data/CsvDataSource.kt:23-28 | definition of `toInt`; stated by Text.ParseInteger, Text.ParseIntegerRejectsNonDigit and Text.ParseRender over the Int range |
| Table.FileType.Extension | app/src/main/java/com/example/mynewapp/ui/TableUtils.kt:15-19 | definition; stated by Table.FileNameIdentifiesFormat: the two formats have different extensions |
| Table.FileType.MimeType | app/src/main/java/com/example/mynewapp/ui/TableUtils.kt:15-19 | definition; stated by Table.FileNameIdentifiesFormat: the two formats have different MIME types |
| Table.FileName | app/src/main/java/com/example/mynewapp/ui/TableUtils.kt:31 | definition; stated by Table.FileNameIdentifiesFormat: the base name and the format can be read back from the name |
| Table.Serialise | app/src/main/java/com/example/mynewapp/ui/TableUtils.kt:49-53 | definition; stated by Table.SerialiseLines, Table.NewlineCount and Table.ExportRoundTrip |
| Ingest.Keep | app/src/main/java/com/example/mynewapp/MainActivity.kt:790 | definition of `filterIndexed`; stated by Ingest.KeepIsKeptPositions, Ingest.KeepUpdate and Ingest.KeepBeyond |
| Ingest.RemovedIndices | app/src/main/java/com/example/mynewapp/MainActivity.kt:785-789 | definition; stated by Ingest.ProjectionRemovesExcludedNames and Ingest.ProjectedHeaderPositions |
| Ingest.ProjectedHeader | app/src/main/java/com/example/mynewapp/MainActivity.kt:790 | definition; stated by Ingest.ProjectionRemovesExcludedNames and Ingest.ProjectedHeaderPositions |
| Ingest.FormatTimestamp | app/src/main/java/com/example/mynewapp/MainActivity.kt:821-829 | definition; stated by Ingest.FormatTimestampPassthrough |
| Ingest.ChartRow | app/src/main/java/com/example/mynewapp/MainActivity.kt:796-800 | definition; stated by Ingest.ChartRowKeepsOverflow, Ingest.DisplayRowMatchesChartRow and Ingest.IngestAfterExport |
| Ingest.DisplayRow | app/src/main/java/com/example/mynewapp/MainActivity.kt:801-806 | definition; stated by Ingest.DisplayRowMatchesChartRow |
| Chart.PointOf | app/src/main/java/com/example/mynewapp/MainActivity.kt:757-763 | definition; stated by Chart.PointsDropBadRow and Chart.DropsUnparsableRow |
| Navigation.Next | app/src/main/java/com/example/mynewapp/MainActivity.kt:148-162 | definition; stated by Navigation.NextIsTransitions |
| Navigation.Step | app/src/main/java/com/example/mynewapp/MainActivity.kt:148-162 | definition; stated by Navigation.EveryChangePassesDbTable and Navigation.Navigator.Handle |
| Activities.ClassifyLine | app/src/main/java/com/example/mynewapp/data/CsvDataSource.kt:19-28 | definition; stated by Activities.RecordLineRoundTrip and Activities.CollectStopsAtMalformed |

## Left out

- User interface: Compose layouts, the table screens, the sticky header,
  the splash delay, the chart library's configuration, the zoom arithmetic,
  the axis formatter and the snackbar. These are presentation only.
- Date formatting: `SimpleDateFormat` depends on locale and time zone. It is
  the parameter `formatMillis`, about which nothing is assumed.
- Float parsing: `toFloat` is the parameter `parseFloat`; rounding is not
  modelled.
- Line terminators: `readLine()` also ends a line at '\r' and "\r\n". The
  model treats '\n' as the only terminator.
- Number parsing: Java's `toLong`/`toInt` also accept non-ASCII Unicode
  digits. The model accepts ASCII digits only, with an optional leading
  '-' or '+'.
- I/O errors while reading an asset part-way through are not modelled. An
  asset is either unreadable (`None`) or a complete text.
- The export store: `MediaStore`, `ContentResolver` and `Environment` are
  the abstract `DownloadsStore`. Exceptions from the writer's flush or
  close are modelled as one of the numbered writes throwing. The
  `delete` in the exception handler always succeeds; an exception from
  `delete` itself is not modelled.
- Table.SaveTableContentToDownloads: when `openOutputStream` returns null
  nothing is written; the empty entry stays and the result is (true, null),
  as in the code.
- Table.SaveTableContentToDownloads: `getExternalStorageState()` is taken
  never to throw. It is called outside the `try` too, so an exception from
  it would leave the export the way one from `insert` does.
- Ingest.ReadCsvFromAssets: a data row is not required to have as many
  cells as the header, as in the code.
- Room database, DAOs, `MainViewModel` flows, `MyApplication`, and the
  `Device` and `User` entities are not part of this model.
  `MiBandActivity` appears only as the parser's record type.
