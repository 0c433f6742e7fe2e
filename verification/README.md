# Solar panel performance: location files, fetch loop, publisher and map lookup

This project models the logic of the three programs that make up the solar
panel performance map:

- The batch fetcher `fetchAllSolarDataAndExportCsv.py`.
  - It reads a list of Korean localities, one `"<name>": (<lat>, <lon>)` line
    each, and checks the list's format.
  - It works out which localities were already fetched or failed before.
  - It asks the solar irradiance API for each locality, with three attempts.
  - It keeps the twelve monthly values and appends them in batches of 50
    rows to a CSV file, writing a column header only into an empty file.
  - It appends a locality whose final attempt is refused to a failure log,
    in the same line format.
- The publisher `csvToJJsonOnJs.py`.
  - It keeps a list of published rows and a count of the CSV rows taken.
  - On each poll it appends the CSV rows it has not yet taken.
  - It rewrites a JavaScript file holding `var solarData = ` followed by the
    list's JSON.
- The map page `script.js`.
  - It indexes the rows by their `Location`.
  - It paints a region grey when the region has no row.
  - For a region with a row, it charts the first twelve values of
    `Object.values(row)`.

The model is a set of pure functions over immutable data:

- Files are sequences of lines or records.
- Python dicts and JavaScript objects are insertion-ordered sequences of
  key/value fields.
- Coordinates and monthly values stay the decimal text they were read as.
- An HTTP reply is `NonOk` or `Ok(series)`.
- The JSON codec is a pair of function parameters.

The modules follow the programs:

- `Common`: Python's `str.strip`, ASCII digits, and ordered dicts with
  `dict[k] = v` and `dict.update`.
- `StringOrder`: Python's string order and a sorted, duplicate-free list
  built by insertion, which is what `sorted(set(...))` gives.
- `LocationLine`: the location pattern as `re.match` applies it, and the
  failure-log line.
- `LocationFiles`: the resume scan, the validator and the loader.
- `Rows`: the month filter, the row built for a locality, the CSV header
  and one batch written by `csv.DictWriter`.
- `CsvText`: the text of the CSV file's lines, as far as the resume scan
  sees it.
- `FetchRun`: the retry loop, the skip rule, batching and the whole script.
- `Publisher`: the wrapper, loading, and the polling step.
- `JsObject`: the own-property order of section 10.1.11.1 of ECMA-262
  (OrdinaryOwnPropertyKeys), `Object.values` and `.slice(0, 12)`.
- `FrontEnd`: `processData`, the fill, the tooltip's presence check and the
  bar layout.

## Model

| member | source | states |
|---|---|---|
| Common.StripPadded | batch-scripts/fetchAllSolarDataAndExportCsv.py:23 | Stripping whitespace padding from a trimmed text gives back exactly that text. |
| Common.StripKeepsFirst | batch-scripts/fetchAllSolarDataAndExportCsv.py:23 | A line whose first character is not whitespace keeps that first character after stripping. |
| Common.PutSpec | batch-scripts/fetchAllSolarDataAndExportCsv.py:96 | Each assignment `dict.update` makes, `d[key] = value`, makes `key` map to `value`, leaves every other key's value alone, adds `key` to the keys and keeps keys unique. |
| Common.PutAllSpec | batch-scripts/fetchAllSolarDataAndExportCsv.py:96 | After `dict.update(fields)`, the keys are those of either dict. A key absent from `fields` keeps its old value, and a key of `fields` takes the value from `fields`. |
| Common.PutAllFresh | batch-scripts/fetchAllSolarDataAndExportCsv.py:95-96 | Updating a dict with fields whose keys are all new appends them in their order. |
| StringOrder.SortedSet | batch-scripts/fetchAllSolarDataAndExportCsv.py:102 | `sorted(set(xs))` is strictly increasing in Python's string order and holds exactly the strings of `xs`. |
| StringOrder.StrictlySortedUnique | batch-scripts/fetchAllSolarDataAndExportCsv.py:102 | Two strictly sorted lists with the same elements are equal, so the sorted key list is determined by the key set. |
| LocationLine.DecimalPrefixSound | batch-scripts/fetchAllSolarDataAndExportCsv.py:24 | When `\d+\.\d+` matches at the start of a text, the match is a decimal and is followed by the end of the text or by a non-digit. |
| LocationLine.DecimalPrefixOf | batch-scripts/fetchAllSolarDataAndExportCsv.py:24 | If a decimal starts the text and no digit follows it, `\d+\.\d+` matches exactly that decimal. |
| LocationLine.MatchPiecesSound | batch-scripts/fetchAllSolarDataAndExportCsv.py:24 | A pattern of literals and decimal groups that matches yields one decimal per group, and the pattern filled with them is a prefix of the text. |
| LocationLine.MatchPiecesComplete | batch-scripts/fetchAllSolarDataAndExportCsv.py:24 | When every group is followed by a literal starting with neither a digit nor a dot, any decimals that fill the pattern to a prefix of the text are exactly what the match yields. |
| LocationLine.MatchCoordsSound | batch-scripts/fetchAllSolarDataAndExportCsv.py:24 | When `": (\d+\.\d+, \d+\.\d+)` matches at the start of a text, it yields two decimals that rebuild a prefix of the text. |
| LocationLine.MatchCoordsComplete | batch-scripts/fetchAllSolarDataAndExportCsv.py:24 | Whenever the coordinate part written with two decimals starts a text, the match yields exactly those two decimals. |
| LocationLine.NameRunSound | batch-scripts/fetchAllSolarDataAndExportCsv.py:24 | The first greedy attempt of `.+` takes only characters other than a line feed, and stops at the end of the text or at a line feed. |
| LocationLine.BacktrackFinds | batch-scripts/fetchAllSolarDataAndExportCsv.py:24 | Backtracking from the longest attempt finds a length that works whenever one exists, and that length is at least as long as any other that works. |
| LocationLine.ParseLineSound | batch-scripts/fetchAllSolarDataAndExportCsv.py:24-26 | A line that matches starts with a quote, then a non-empty name without a line feed, then `": (`, a decimal, `, `, a decimal and `)`. The groups are that name and those decimals, and any text after `)` is ignored. |
| LocationLine.ParseLineComplete | batch-scripts/fetchAllSolarDataAndExportCsv.py:24-26 | A line that can be split as the pattern demands at some name length matches, and the captured name is at least that long. Together with ParseLineSound this is the if-and-only-if, with the greedy name being the longest split. |
| LocationLine.NoQuoteNoMatch | batch-scripts/fetchAllSolarDataAndExportCsv.py:24 | A line that is empty or does not start with a double quote never matches. |
| LocationLine.StripFailureLine | batch-scripts/fetchAllSolarDataAndExportCsv.py:56 | Stripping a failure-log line of a valid entry removes exactly its line feed. |
| LocationLine.ParseEntryText | batch-scripts/fetchAllSolarDataAndExportCsv.py:56 | The line written for a valid entry matches and gives back that entry's name and coordinates. No longer name is captured, because no later character is a double quote. |
| LocationLine.FailureLineRoundTrip | batch-scripts/fetchAllSolarDataAndExportCsv.py:54-56 | Reading back a failure-log line as `load_existing_data` does recovers exactly the name and coordinates written, provided the name is non-empty and has no line feed and both coordinates are decimals. |
| LocationFiles.ReadSound | batch-scripts/fetchAllSolarDataAndExportCsv.py:43-50 | A line is blank exactly when it strips to nothing. It is a location exactly when the pattern matches its stripped text, and then the entry is valid. Otherwise it is malformed and keeps its stripped text. |
| LocationFiles.ReadAllAt | batch-scripts/fetchAllSolarDataAndExportCsv.py:22-23 | Reading a file reads each of its lines in place. |
| LocationFiles.LoadExistingSpec | batch-scripts/fetchAllSolarDataAndExportCsv.py:18-28 | A missing file gives no names. Otherwise a name is in the set exactly when some line's stripped text matches with that name. |
| LocationFiles.ValidateFlagsOnlyRejected | batch-scripts/fetchAllSolarDataAndExportCsv.py:31-36 | Every report names a 1-based line number of the file whose stripped text the pattern rejects, blank lines included, and carries that stripped text. |
| LocationFiles.ValidateFlagsAllRejected | batch-scripts/fetchAllSolarDataAndExportCsv.py:33-36 | Every line whose stripped text the pattern rejects is reported with its 1-based number and its stripped text. |
| LocationFiles.ValidateInFileOrder | batch-scripts/fetchAllSolarDataAndExportCsv.py:33 | Reports come in increasing line order, one per line at most. |
| LocationFiles.Upsert | batch-scripts/fetchAllSolarDataAndExportCsv.py:48 | Assigning a location replaces the entry with the same name in place, or appends it when the name is new, and names stay distinct. |
| LocationFiles.LoaderNames | batch-scripts/fetchAllSolarDataAndExportCsv.py:39-51 | The loader's names are exactly the names captured from the lines read so far. |
| LocationFiles.LoaderLastWins | batch-scripts/fetchAllSolarDataAndExportCsv.py:48 | Every loaded entry is the one from the last line that captured its name. |
| LocationFiles.LoaderSpec | batch-scripts/fetchAllSolarDataAndExportCsv.py:39-51 | The loaded names are distinct, are exactly the names the resume scan would find in the same file, and each carries the coordinates of its last line. |
| LocationFiles.LoaderFirstLines | batch-scripts/fetchAllSolarDataAndExportCsv.py:39-51 | After any number of lines, every loaded name has a first line that captures it, and the loaded names are ordered by those first lines, as a Python dict keeps keys in the order they were first set. |
| LocationFiles.LoaderFileOrder | batch-scripts/fetchAllSolarDataAndExportCsv.py:39-51 | For a whole file, `load_neighbourhoods` returns the locations in the order of the lines where each name first appears. |
| LocationFiles.LoaderEntriesValid | batch-scripts/fetchAllSolarDataAndExportCsv.py:45-48 | Every loaded entry has a non-empty name without a line feed and decimal coordinates. |
| LocationFiles.LoaderWarnsWhatValidatorFlags | batch-scripts/fetchAllSolarDataAndExportCsv.py:44-50 | The loader's warnings are, in order, the texts of the validator's reports with the blank lines dropped. |
| LocationFiles.WarningsSpec | batch-scripts/fetchAllSolarDataAndExportCsv.py:31-50 | The loader warns about exactly the non-blank rejected lines. The validator also reports every blank line, with an empty text. |
| Rows.MonthKeyExamples | batch-scripts/fetchAllSolarDataAndExportCsv.py:93 | `"202301"`, `"202312"` and `"202300"` pass the month filter. The annual key `"202313"`, the empty key and `Latitude` do not. |
| Rows.MonthKeyNotFixed | batch-scripts/fetchAllSolarDataAndExportCsv.py:93-96 | No key that passes the month filter is one of the three fixed columns. |
| Rows.MonthsOnly | batch-scripts/fetchAllSolarDataAndExportCsv.py:93 | The filtered series holds exactly the series' fields whose key is all digits with last two digits at most 12. |
| Rows.MakeRow | batch-scripts/fetchAllSolarDataAndExportCsv.py:95-96 | A row starts with Latitude, Longitude and Location from the entry. Its keys are those three and the series' month keys, and each month key has the series' value. |
| Rows.MakeRowIsUpdate | batch-scripts/fetchAllSolarDataAndExportCsv.py:95-96 | The row is the three fixed fields updated with the filtered series. |
| Rows.HeaderSpec | batch-scripts/fetchAllSolarDataAndExportCsv.py:102 | After the three fixed columns, the header is strictly sorted and holds exactly the batch's other keys, and no column repeats. |
| Rows.Header | batch-scripts/fetchAllSolarDataAndExportCsv.py:102 | The header starts with the three fixed columns and holds every key of every row of the batch. |
| Rows.HeaderExample | batch-scripts/fetchAllSolarDataAndExportCsv.py:102 | A batch whose other keys are `202301`, `202305` and `202312` gets the header `Latitude, Longitude, Location, 202301, 202305, 202312`. |
| Rows.RenderRow | batch-scripts/fetchAllSolarDataAndExportCsv.py:103-106 | A row with a key outside the field names is refused. Otherwise the record has one cell per field name, holding the row's value or an empty cell. |
| Rows.HeaderFitsBatch | batch-scripts/fetchAllSolarDataAndExportCsv.py:102-106 | Every row of a batch can be written under that batch's header. |
| Rows.WriteBatch | batch-scripts/fetchAllSolarDataAndExportCsv.py:101-106 | Writing a batch keeps the file's records and adds the header exactly when the file was empty. Then comes one record per row, in order. |
| Rows.WrittenRowStartsWithEntry | batch-scripts/fetchAllSolarDataAndExportCsv.py:95-106 | A locality's written record starts with its latitude, longitude and name. |
| CsvText.CsvScanFindsNothing | batch-scripts/fetchAllSolarDataAndExportCsv.py:18-28 | The resume scan finds no name in a CSV file whose every record starts with a latitude or with the word Latitude. |
| CsvText.WriteBatchLatitudeFirst | batch-scripts/fetchAllSolarDataAndExportCsv.py:101-106 | Appending a batch of rows built from locations keeps every record of the file starting with a latitude or with the header. |
| CsvText.EscapeRoundTrip | batch-scripts/fetchAllSolarDataAndExportCsv.py:103-106 | Doubling the quotes of a quoted cell loses nothing: undoing the doubling gives the cell back. |
| FetchRun.FetchSpec | batch-scripts/fetchAllSolarDataAndExportCsv.py:83-114 | The retry loop makes one to three requests and gets data exactly when some reply is 200 with a non-empty series. The data is the first such series, after one request per reply up to it. A failure line is recorded exactly when no reply has data and the third is not 200. |
| FetchRun.ThreeFailures | batch-scripts/fetchAllSolarDataAndExportCsv.py:110-114 | Three non-200 replies make three requests, give no data and record the failure. |
| FetchRun.OutcomeOf | batch-scripts/fetchAllSolarDataAndExportCsv.py:72-114 | A location is skipped exactly when already processed. Otherwise a row is stored exactly when the fetch got data, or else the failure line is logged exactly when the third reply was not 200. |
| FetchRun.StepSkipRule | batch-scripts/fetchAllSolarDataAndExportCsv.py:73-78 | A processed location leaves the state as it is. Any other location is fetched, even one that failed before. |
| FetchRun.StepThreeFailures | batch-scripts/fetchAllSolarDataAndExportCsv.py:110-114 | A location refused three times adds exactly its failure line and three requests, and no row. |
| FetchRun.Flush | batch-scripts/fetchAllSolarDataAndExportCsv.py:100-108 | A flush loses and repeats no row: the rows flushed so far followed by the pending batch are the same before and after. The failure log and the request count are untouched. |
| FetchRun.ApplyAllSpec | batch-scripts/fetchAllSolarDataAndExportCsv.py:72-114 | Across the loop, the flushes followed by the pending batch are the stored rows in order. Every flush has 50 rows, and the failure log gains the failure lines in order. |
| FetchRun.FinishSpec | batch-scripts/fetchAllSolarDataAndExportCsv.py:117-123 | The closing flush empties the batch and loses no row. Every flush but the last holds 50 rows and the last holds 1 to 50. A closing flush, when there is one, holds fewer than 50, and the file is the old one with every flush written. |
| FetchRun.CompleteRun | batch-scripts/fetchAllSolarDataAndExportCsv.py:72-123 | From the start, the flushes read in order are exactly the stored rows. The batch sizes are as above, and the failure log holds exactly the recorded failure lines. |
| FetchRun.ScriptSpec | batch-scripts/fetchAllSolarDataAndExportCsv.py:59-123 | A whole run visits the loaded locations in the loader's order, which LoaderFileOrder shows is the order of each name's first line. Its flushes are the rows of the locations that got data, in batches of 50 with a final one of 1 to 50. The CSV file gains the flushes, and the failure log gains exactly the failure lines. |
| FetchRun.ResumeNeverSkips | batch-scripts/fetchAllSolarDataAndExportCsv.py:65-75 | Over a CSV file the script itself wrote, the resume scan finds nothing and no location is skipped. The file stays in that form, so every rerun fetches everything again. |
| Publisher.Wrap | batch-scripts/csvToJJsonOnJs.py:38-40 | The written file is the prefix `var solarData = `, then the JSON text, then a line feed. |
| Publisher.Unwrap | batch-scripts/csvToJJsonOnJs.py:16-18 | Loading strips the file, removes the prefix once if the stripped text starts with it and strips again. Text without the prefix is kept as stripped. |
| Publisher.UnwrapWrap | batch-scripts/csvToJJsonOnJs.py:16-18 | Loading a written file gives back the JSON text written, when that text is non-empty and has no surrounding whitespace. |
| Publisher.UnwrapWrapEmpty | batch-scripts/csvToJJsonOnJs.py:16-18 | An empty JSON text does not survive the round trip, because the first strip eats the prefix's trailing space. |
| Publisher.StepSpec | batch-scripts/csvToJJsonOnJs.py:26-40 | The file is rewritten exactly when the CSV has more rows than were taken. Then the untaken rows are appended in order, earlier items are unchanged, every row counts as taken, and the file is the prefix, the whole list's encoding and a line feed. Otherwise the state is unchanged. |
| Publisher.Step | batch-scripts/csvToJJsonOnJs.py:31-34 | A poll only extends the published list and never lowers the count of rows taken. |
| Publisher.ReloadAfterWrite | batch-scripts/csvToJJsonOnJs.py:9-23 | With a codec that round-trips, a restart after a rewrite loads exactly the list written, with no row counted as taken. |
| Publisher.RestartRepublishes | batch-scripts/csvToJJsonOnJs.py:9-33 | After a restart, the first poll appends the whole CSV again after the rows already published from it. |
| Publisher.StepFollows | batch-scripts/csvToJJsonOnJs.py:31-34 | While the CSV file only grows, one poll keeps the published list equal to the starting list followed by the CSV rows taken, and takes them all. |
| Publisher.PollsFollow | batch-scripts/csvToJJsonOnJs.py:25-34 | Over any growing sequence of CSV snapshots, the list ends as the starting list followed by every row of the last snapshot once, in file order. |
| Publisher.GrowthExample | batch-scripts/csvToJJsonOnJs.py:31-34 | With 12 rows taken and 15 in the file, rows 12 to 14 are appended, 15 count as taken and the file is rewritten. |
| JsObject.ArrayIndexInjective | script.js:74 | Two array-index keys with the same numeric value are the same key, so ordering keys by value is a strict order. |
| JsObject.SortIndexKeys | script.js:74 | The array-index keys come out in ascending numeric order, each once, and they are exactly the array-index keys given. |
| JsObject.OtherKeysAppend | script.js:74 | Dropping the array-index keys distributes over concatenation, so the other keys keep their creation order. |
| JsObject.OwnPropertyKeys | script.js:74 | The own keys enumerated are exactly the object's keys, each listed once, so there are as many as the object has fields. |
| JsObject.OtherKeys | script.js:74 | The keys kept after dropping the array indices are exactly the non-index keys, and none repeats when the keys given had no repeats. |
| JsObject.OwnPropertyKeysOrder | script.js:74 | The own keys are the array-index keys in ascending numeric order, followed only by keys that are not array indices. |
| JsObject.Values | script.js:74 | `Object.values` gives, at each position, the value of the key enumerated at that position. |
| JsObject.SelectedValues | script.js:74 | Each selected value belongs to the key at the same position among the first twelve keys enumerated. |
| JsObject.SelectedKeysSorted | script.js:74 | With at least twelve array-index keys, the selected keys are the first twelve of them in ascending order. |
| JsObject.SelectedAreSmallestIndices | script.js:74 | With at least twelve array-index keys, exactly twelve are selected, in ascending order, and every array-index key left out has a larger value than each of them. |
| JsObject.MonthKeyIsIndex | script.js:74 | A month key such as `"202301"` is an array index, with value 202301. |
| JsObject.ExampleOrder | script.js:74 | For keys created as `Location`, `10`, `9`, the index keys enumerate as `9`, `10` and then `Location` follows. |
| JsObject.ValuesExample | script.js:74 | For such an object, `Object.values` lists the value of `9`, then `10`, then `Location`. |
| FrontEnd.ProcessDataCovers | script.js:1-7 | Every entry's location is a key of the dictionary. |
| FrontEnd.ProcessDataFrom | script.js:1-7 | Every key of the dictionary is the location of some entry, and it maps to such an entry unchanged. |
| FrontEnd.ProcessDataLastWins | script.js:3-5 | An entry with no later entry of the same location is the value stored for it. |
| FrontEnd.LastEntryWins | script.js:3-5 | Of two entries with the same location, the second is kept. |
| FrontEnd.PresenceSpec | script.js:32-73 | A region is painted `#f0f0f0` exactly when no entry has its name as location. The tooltip chart is missing exactly then too. |
| FrontEnd.BarsLayout | script.js:91-95 | Bar `i` is at x = 50 + 20·i, with its label, month `i + 1`, at x = 58 + 20·i, and shows value `i`. Bars are 15 wide, never overlap and stay between x = 40 and x = 300. |
| FrontEnd.SelectedSkipsFixedColumns | script.js:74 | With at least twelve array-index keys, none of Latitude, Longitude or Location is among the keys shown. |
| FrontEnd.TooltipShowsMonths | script.js:73-95 | For a region whose row has at least twelve array-index keys, the chart has twelve bars. They are labelled with the months in order and show the values of the twelve smallest array-index keys. |

## Left out

- HTTP requests, `response.json()` and the path lookup into the reply. A reply is `NonOk` or `Ok(series)`. A 200 reply whose body is a JSON object with the path missing, or with empty data, is `Ok` with an empty series.
- Exceptions the fetch script does not catch. Lines 84-93 of `fetchAllSolarDataAndExportCsv.py` have no `try`. Each of these ends the whole script: a failed connection from `requests.get`; a 200 body that is not JSON; a 200 body that is JSON but not an object, where `data.get` at line 89 raises; a `properties` or `parameter` value that is not an object; and an `ALLSKY_SFC_SW_DWN` value that is truthy but not an object, where `.items()` at line 93 raises. The model has no such reply. It does not show that such a crash makes no retry and writes no failure line, or that the unflushed batch of up to 49 rows is lost.
- A missing location file. `open` at lines 32 and 41 of `fetchAllSolarDataAndExportCsv.py` raises before any request is made. The model takes the location file's lines as given and has no case for its absence.
- `sleep`, the URL text and every `print` except the validator's and the loader's messages, which are modelled as reports and warnings. The API's per-location replies are a parameter of the script.
- File I/O. Files are sequences of lines or records. A missing CSV file is the same as an empty one, and the failure log's state holds only the lines a run appends.
- The `csv` module's line splitting and quoting across lines. Records are sequences of cells, and only each line's first characters are modelled, since the resume scan looks at nothing else.
- `float()` conversion and float `repr`. Coordinates stay the decimal text that matched and are written back as that text.
- Unicode forms of `\d`, `isdigit` and `strip`. Digits are ASCII `0`-`9`, and whitespace is the ASCII characters `str.strip` removes.
- The internals of `json.dumps` and `json.loads`. They are function parameters, and the publisher is generic in the row type.
- The publisher's `while True` loop, its `except` and the backup copy. One poll is modelled, and `Polls` chains polls over given snapshots.
- Interaction between the fetcher and the publisher through the shared CSV file. It is unsynchronised.
- D3 in `script.js`: projection, zoom, transitions, the colour scale, `d3.mean`, the average and `toFixed`, the bar heights and the y-axis tick loop. All of it is float arithmetic or drawing.
- Inherited JavaScript properties, `__proto__`, symbol keys and the truthiness of a non-object value. An entry is present exactly when its key is in the dictionary.
- The `Number` conversion of the values shown. They stay text.
- A general regular-expression engine. Only the one location pattern is modelled, with `.` excluding the line feed, since the scripts pass no flags.
