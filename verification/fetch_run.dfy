/** The main loop of the fetch script with HTTP replaced by scripted
    replies: the skip rule, the three-attempt retry, the failure log, and
    the flushes of the row batch to the CSV file. */
module FetchRun {
  import opened Common
  import opened LocationLine
  import opened Rows
  import opened LocationFiles
  import opened CsvText

  /** Rows are flushed once this many have accumulated. */
  const BatchSize: nat := 50

  /** One reply of the API: a non-200 status, or a 200 whose body yields the
      series found at `properties.parameter.ALLSKY_SFC_SW_DWN` (empty when
      any level of that path is missing). */
  datatype Response = NonOk | Ok(series: Dict)

  /** A reply that carries data (`if allsky_data:`). */
  predicate HasData(r: Response) {
    r.Ok? && |r.series| > 0
  }

  /** The replies the API gives to the three attempts for one location;
      replies after the first with data are never asked for. */
  type Replies = s: seq<Response> | |s| == 3 witness [NonOk, NonOk, NonOk]

  /** What the retry loop did for one location: how many requests it made,
      the series it kept, and whether it appended a failure line. */
  datatype Fetched = Fetched(requests: nat, data: Option<Dict>, recorded: bool)

  /** The retry loop from attempt `a` on. */
  function Attempts(replies: Replies, a: nat): (f: Fetched)
    requires a <= 3
    ensures f.requests == 0 <==> a == 3
    ensures f.requests <= 3 - a
    ensures f.data.Some? ==>
      (a <= a + f.requests - 1 < 3 &&
       HasData(replies[a + f.requests - 1]) && f.data.value == replies[a + f.requests - 1].series)
    ensures forall b | a <= b < a + f.requests - 1 :: !HasData(replies[b])
    ensures f.data.None? ==> forall b | a <= b < 3 :: !HasData(replies[b])
    ensures f.data.None? ==> f.requests == 3 - a
    ensures f.recorded <==> f.data.None? && a < 3 && replies[2].NonOk?
    decreases 3 - a
  {
    if a == 3 then Fetched(0, None, false)
    else if HasData(replies[a]) then Fetched(1, Some(replies[a].series), false)
    else
      var rest := Attempts(replies, a + 1);
      Fetched(1 + rest.requests, rest.data, rest.recorded || (a == 2 && replies[a].NonOk?))
  }

  /** `for attempt in range(3)` for one location. */
  function Fetch(replies: Replies): Fetched {
    Attempts(replies, 0)
  }

  /** At most three requests; data is kept from the first reply with data;
      a failure line is written exactly when no reply had data and the
      third was not a 200. A 200 without data is retried, and on the third
      attempt it leaves no trace. */
  lemma FetchSpec(replies: Replies)
    ensures 1 <= Fetch(replies).requests <= 3
    ensures Fetch(replies).data.Some? <==> exists a | 0 <= a < 3 :: HasData(replies[a])
    ensures forall a | 0 <= a < 3 && HasData(replies[a]) ::
      (forall b | 0 <= b < a :: !HasData(replies[b])) ==>
        Fetch(replies) == Fetched(a + 1, Some(replies[a].series), false)
    ensures Fetch(replies).recorded <==>
      (forall a | 0 <= a < 3 :: !HasData(replies[a])) && replies[2].NonOk?
  {
    var f := Fetch(replies);
    forall a | 0 <= a < 3 && HasData(replies[a]) && (forall b | 0 <= b < a :: !HasData(replies[b]))
      ensures f == Fetched(a + 1, Some(replies[a].series), false)
    {
      assert f.data.Some?;
    }
  }

  /** Three non-200 replies: three requests, no data, one failure line. */
  lemma ThreeFailures()
    ensures Fetch([NonOk, NonOk, NonOk]) == Fetched(3, None, true)
  {
  }

  /** One location of `korea_locations` with the replies it would get. */
  datatype Visit = Visit(entry: Entry, replies: Replies)

  /** What one pass of the loop body amounts to: the location is skipped,
      or its row is stored, or no row comes back and perhaps a failure line
      is written. */
  datatype Outcome = Skipped | Stored(row: Row, requests: nat) | Missed(requests: nat, line: Option<string>)

  function OutcomeOf(v: Visit, processed: set<string>): (o: Outcome)
    ensures o.Skipped? <==> v.entry.name in processed
    ensures o.Stored? <==> v.entry.name !in processed && Fetch(v.replies).data.Some?
    ensures o.Stored? ==> o.row == MakeRow(v.entry, Fetch(v.replies).data.value)
    ensures !o.Skipped? ==> o.requests == Fetch(v.replies).requests
    ensures o.Missed? ==> o.requests == 3
    ensures o.Missed? ==> (o.line.Some? <==> v.replies[2].NonOk?)
    ensures o.Missed? && o.line.Some? ==> o.line.value == FailureLine(v.entry)
  {
    if v.entry.name in processed then Skipped
    else
      var f := Fetch(v.replies);
      match f.data
      case Some(series) => Stored(MakeRow(v.entry, series), f.requests)
      case None => Missed(f.requests, if f.recorded then Some(FailureLine(v.entry)) else None)
  }

  /** The loop's state: the unflushed batch, every flush so far (in order),
      the CSV records, the failure log's lines and the requests made. */
  datatype FetchState = FetchState(
    batch: seq<Row>,
    flushes: seq<seq<Row>>,
    csv: seq<Record>,
    failureLog: seq<string>,
    requests: nat)

  function Start(csv: seq<Record>, failureLog: seq<string>): FetchState {
    FetchState([], [], csv, failureLog, 0)
  }

  /** Write the batch to the CSV file and remember it as one flush; no row
      is lost or repeated on the way. */
  function Flush(st: FetchState): (r: FetchState)
    ensures r.batch == [] && r.flushes == st.flushes + [st.batch]
    ensures r.csv == WriteBatch(st.csv, st.batch)
    ensures r.failureLog == st.failureLog && r.requests == st.requests
    ensures Flatten(r.flushes) + r.batch == Flatten(st.flushes) + st.batch
  {
    FlattenSnoc(st.flushes, st.batch);
    st.(batch := [], flushes := st.flushes + [st.batch], csv := WriteBatch(st.csv, st.batch))
  }

  function LineOf(o: Outcome): seq<string> {
    if o.Missed? && o.line.Some? then [o.line.value] else []
  }

  function RowsOf(o: Outcome): seq<Row> {
    if o.Stored? then [o.row] else []
  }

  /** The effect of one outcome on the state. */
  function Apply(st: FetchState, o: Outcome): (r: FetchState)
    ensures r.failureLog == st.failureLog + LineOf(o)
    ensures o.Skipped? ==> r == st
  {
    match o
    case Skipped => st
    case Stored(row, n) =>
      var st' := st.(requests := st.requests + n, batch := st.batch + [row]);
      if |st'.batch| >= BatchSize then Flush(st') else st'
    case Missed(n, line) =>
      st.(requests := st.requests + n, failureLog := st.failureLog + LineOf(o))
  }

  /** One iteration of the location loop. `failed` is only reported on:
      a location that failed before is fetched again. */
  function Step(st: FetchState, v: Visit, processed: set<string>, failed: set<string>): FetchState {
    Apply(st, OutcomeOf(v, processed))
  }

  /** A location already in the CSV is skipped without a request; any other
      location, failed before or not, is fetched. */
  lemma StepSkipRule(st: FetchState, v: Visit, processed: set<string>, failed: set<string>)
    ensures v.entry.name in processed ==> Step(st, v, processed, failed) == st
    ensures v.entry.name !in processed ==>
      Step(st, v, processed, failed).requests == st.requests + Fetch(v.replies).requests
  {
  }

  /** A location whose three replies are all non-200 adds exactly its
      failure line and no row. */
  lemma StepThreeFailures(st: FetchState, e: Entry, processed: set<string>, failed: set<string>)
    requires e.name !in processed
    ensures var r := Step(st, Visit(e, [NonOk, NonOk, NonOk]), processed, failed);
      r.failureLog == st.failureLog + [FailureLine(e)] && r.batch == st.batch &&
      r.flushes == st.flushes && r.csv == st.csv && r.requests == st.requests + 3
  {
    ThreeFailures();
  }

  /** The outcomes of the visits, in order. */
  function Outcomes(visits: seq<Visit>, processed: set<string>): (os: seq<Outcome>)
    ensures |os| == |visits|
    ensures forall i | 0 <= i < |visits| :: os[i] == OutcomeOf(visits[i], processed)
  {
    seq(|visits|, i requires 0 <= i < |visits| => OutcomeOf(visits[i], processed))
  }

  function ApplyAll(st: FetchState, os: seq<Outcome>): FetchState
    decreases |os|
  {
    if |os| == 0 then st else ApplyAll(Apply(st, os[0]), os[1..])
  }

  /** The whole location loop: one `Step` per visit, in order. */
  function Run(st: FetchState, visits: seq<Visit>, processed: set<string>, failed: set<string>): FetchState {
    ApplyAll(st, Outcomes(visits, processed))
  }

  /** The loop is the visits' steps one after another. */
  lemma RunSteps(st: FetchState, visits: seq<Visit>, processed: set<string>, failed: set<string>)
    requires |visits| > 0
    ensures Run(st, visits, processed, failed)
      == Run(Step(st, visits[0], processed, failed), visits[1..], processed, failed)
  {
    assert Outcomes(visits, processed)[1..] == Outcomes(visits[1..], processed);
  }

  /** The closing `if data_list:` flush. */
  function Finish(st: FetchState): (r: FetchState)
    ensures |st.batch| > 0 ==> r == Flush(st)
    ensures |st.batch| == 0 ==> r == st
  {
    if |st.batch| > 0 then Flush(st) else st
  }

  /** Reference: the rows of the stored outcomes, in order. */
  function StoredRows(os: seq<Outcome>): seq<Row>
    decreases |os|
  {
    if |os| == 0 then [] else RowsOf(os[0]) + StoredRows(os[1..])
  }

  /** Reference: the failure lines of the outcomes, in order. */
  function FailureLines(os: seq<Outcome>): seq<string>
    decreases |os|
  {
    if |os| == 0 then [] else LineOf(os[0]) + FailureLines(os[1..])
  }

  function Flatten(flushes: seq<seq<Row>>): seq<Row>
    decreases |flushes|
  {
    if |flushes| == 0 then [] else Flatten(flushes[..|flushes| - 1]) + flushes[|flushes| - 1]
  }

  /** The CSV file after writing the given flushes in order. */
  function WriteAll(csv: seq<Record>, flushes: seq<seq<Row>>): seq<Record>
    decreases |flushes|
  {
    if |flushes| == 0 then csv else WriteBatch(WriteAll(csv, flushes[..|flushes| - 1]), flushes[|flushes| - 1])
  }

  /** What the loop keeps true: the batch stays under the flush size, every
      flush holds exactly `BatchSize` rows, and the CSV is the starting file
      with the flushes written in order. */
  predicate Good(st: FetchState, csv0: seq<Record>) {
    |st.batch| < BatchSize &&
    (forall i | 0 <= i < |st.flushes| :: |st.flushes[i]| == BatchSize) &&
    st.csv == WriteAll(csv0, st.flushes)
  }

  lemma Assoc<T>(a: seq<T>, b: seq<T>, c: seq<T>)
    ensures a + b + c == a + (b + c)
  {
  }

  lemma FlattenSnoc(fs: seq<seq<Row>>, b: seq<Row>)
    ensures Flatten(fs + [b]) == Flatten(fs) + b
  {
    assert (fs + [b])[..|fs|] == fs;
  }

  lemma WriteAllSnoc(csv0: seq<Record>, fs: seq<seq<Row>>, b: seq<Row>)
    ensures WriteAll(csv0, fs + [b]) == WriteBatch(WriteAll(csv0, fs), b)
  {
    assert (fs + [b])[..|fs|] == fs;
  }

  lemma FlushGood(st: FetchState, csv0: seq<Record>)
    requires |st.batch| == BatchSize
    requires forall i | 0 <= i < |st.flushes| :: |st.flushes[i]| == BatchSize
    requires st.csv == WriteAll(csv0, st.flushes)
    ensures Good(Flush(st), csv0)
    ensures Flatten(Flush(st).flushes) + Flush(st).batch == Flatten(st.flushes) + st.batch
  {
    FlattenSnoc(st.flushes, st.batch);
    WriteAllSnoc(csv0, st.flushes, st.batch);
    assert Flatten(st.flushes) + st.batch + [] == Flatten(st.flushes) + st.batch;
  }

  lemma ApplyGood(st: FetchState, o: Outcome, csv0: seq<Record>)
    requires Good(st, csv0)
    ensures Good(Apply(st, o), csv0)
    ensures Flatten(Apply(st, o).flushes) + Apply(st, o).batch
      == Flatten(st.flushes) + st.batch + RowsOf(o)
  {
    if o.Stored? {
      var st' := st.(requests := st.requests + o.requests, batch := st.batch + [o.row]);
      Assoc(Flatten(st.flushes), st.batch, [o.row]);
      if |st'.batch| >= BatchSize {
        FlushGood(st', csv0);
      }
    } else {
      assert st.batch + RowsOf(o) == st.batch;
    }
  }

  /** The loop's guarantees, from any state it keeps true: the flushed
      batches followed by the pending one are the stored rows in order, and
      the failure log gains exactly the failure lines in order. */
  lemma {:induction false} ApplyAllSpec(st: FetchState, os: seq<Outcome>, csv0: seq<Record>)
    requires Good(st, csv0)
    ensures Good(ApplyAll(st, os), csv0)
    ensures Flatten(ApplyAll(st, os).flushes) + ApplyAll(st, os).batch
      == Flatten(st.flushes) + st.batch + StoredRows(os)
    ensures ApplyAll(st, os).failureLog == st.failureLog + FailureLines(os)
    decreases |os|
  {
    if |os| > 0 {
      var s1 := Apply(st, os[0]);
      ApplyGood(st, os[0], csv0);
      ApplyAllSpec(s1, os[1..], csv0);
      Assoc(Flatten(st.flushes) + st.batch, RowsOf(os[0]), StoredRows(os[1..]));
      Assoc(st.failureLog, LineOf(os[0]), FailureLines(os[1..]));
    }
  }

  /** The closing flush writes what is left, which is never a full batch,
      and leaves nothing pending. */
  lemma FinishSpec(st: FetchState, csv0: seq<Record>)
    requires Good(st, csv0)
    ensures Finish(st).batch == []
    ensures Flatten(Finish(st).flushes) == Flatten(st.flushes) + st.batch
    ensures Finish(st).csv == WriteAll(csv0, Finish(st).flushes)
    ensures forall i | 0 <= i < |Finish(st).flushes| :: 0 < |Finish(st).flushes[i]| <= BatchSize
    ensures forall i | 0 <= i < |Finish(st).flushes| - 1 :: |Finish(st).flushes[i]| == BatchSize
    ensures |Finish(st).flushes| > |st.flushes| ==>
      |Finish(st).flushes| == |st.flushes| + 1 && |Finish(st).flushes[|st.flushes|]| < BatchSize
  {
    var fl := Finish(st).flushes;
    if |st.batch| > 0 {
      FlattenSnoc(st.flushes, st.batch);
      WriteAllSnoc(csv0, st.flushes, st.batch);
      assert fl == st.flushes + [st.batch];
      forall i | 0 <= i < |fl| ensures 0 < |fl[i]| <= BatchSize {
        if i < |st.flushes| {
          assert fl[i] == st.flushes[i];
        }
      }
      forall i | 0 <= i < |fl| - 1 ensures |fl[i]| == BatchSize {
        assert fl[i] == st.flushes[i];
      }
    } else {
      assert Flatten(st.flushes) + st.batch == Flatten(st.flushes);
    }
  }

  predicate CsvLatitudeFirst(csv: seq<Record>) {
    forall i | 0 <= i < |csv| :: LatitudeFirst(csv[i])
  }

  /** The rows of a valid location start with its latitude. */
  lemma MakeRowLatitude(e: Entry, series: Dict)
    requires ValidEntry(e)
    ensures LatitudeRow(MakeRow(e, series))
  {
    var r := MakeRow(e, series);
    assert r[0] == r[..3][0];
  }

  predicate StoresLatitudeRows(os: seq<Outcome>) {
    forall i | 0 <= i < |os| && os[i].Stored? :: LatitudeRow(os[i].row)
  }

  /** The CSV file starts every record with "Latitude" or a latitude, and
      so do the pending rows. */
  predicate LatitudeState(st: FetchState) {
    CsvLatitudeFirst(st.csv) && forall i | 0 <= i < |st.batch| :: LatitudeRow(st.batch[i])
  }

  lemma ApplyLatitude(st: FetchState, o: Outcome)
    requires LatitudeState(st)
    requires o.Stored? ==> LatitudeRow(o.row)
    ensures LatitudeState(Apply(st, o))
  {
    if o.Stored? {
      var b := st.batch + [o.row];
      if |b| >= BatchSize {
        WriteBatchLatitudeFirst(st.csv, b);
      }
    }
  }

  /** Every record the loop appends to the CSV file starts with "Latitude"
      or a latitude, so a file that was like that stays like that. */
  lemma {:induction false} ApplyAllLatitude(st: FetchState, os: seq<Outcome>)
    requires LatitudeState(st)
    requires StoresLatitudeRows(os)
    ensures LatitudeState(ApplyAll(st, os))
    decreases |os|
  {
    if |os| > 0 {
      ApplyLatitude(st, os[0]);
      assert StoresLatitudeRows(os[1..]) by {
        forall i | 0 <= i < |os[1..]| && os[1..][i].Stored? ensures LatitudeRow(os[1..][i].row) {
          assert os[1..][i] == os[i + 1];
        }
      }
      ApplyAllLatitude(Apply(st, os[0]), os[1..]);
    }
  }

  /** The script's outcome for a run: the location file's lines, the CSV
      file's records (none when it does not exist), the failure log's lines
      if it exists, and the API's replies for each location. */
  datatype Script = Script(
    processed: set<string>,
    failed: set<string>,
    visits: seq<Visit>,
    final: FetchState)

  /** The whole fetch script: validation only reports, so it is left to
      `Validate`; then load the locations and both resume sets, run the
      loop over the locations in the loader's order (that of each name's
      first line, by `LoaderFileOrder`), and flush what remains. The
      failure log in the state holds the lines this run appends. */
  function FetchScript(locationLines: seq<string>, csv: seq<Record>,
                       failureFile: Option<seq<string>>, server: Entry -> Replies): (r: Script)
    ensures r.final.batch == []
    ensures |r.visits| == |LoadNeighbourhoods(locationLines).locations|
  {
    var locations := LoadNeighbourhoods(locationLines).locations;
    var processed := LoadExisting(Some(FileLines(csv)));
    var failed := LoadExisting(failureFile);
    var visits := seq(|locations|, i requires 0 <= i < |locations| => Visit(locations[i], server(locations[i])));
    var st := Run(Start(csv, []), visits, processed, failed);
    Script(processed, failed, visits, Finish(st))
  }

  /** The loop followed by the closing flush, from the script's start. */
  lemma CompleteRun(csv: seq<Record>, os: seq<Outcome>)
    ensures var fin := Finish(ApplyAll(Start(csv, []), os));
      Flatten(fin.flushes) == StoredRows(os) &&
      (forall i | 0 <= i < |fin.flushes| :: 0 < |fin.flushes[i]| <= BatchSize) &&
      (forall i | 0 <= i < |fin.flushes| - 1 :: |fin.flushes[i]| == BatchSize) &&
      fin.csv == WriteAll(csv, fin.flushes) &&
      fin.failureLog == FailureLines(os)
  {
    var st0 := Start(csv, []);
    ApplyAllSpec(st0, os, csv);
    FinishSpec(ApplyAll(st0, os), csv);
  }

  /** A whole run: locations are visited in the loader's order; the flushes, read
      in order, are exactly the rows of the locations that got data; every
      flush but the closing one holds `BatchSize` rows and the closing one
      between 1 and `BatchSize`; the CSV file is the old one with the
      flushes appended; the failure log gains exactly the failure lines. */
  lemma ScriptSpec(locationLines: seq<string>, csv: seq<Record>,
                   failureFile: Option<seq<string>>, server: Entry -> Replies)
    ensures var r := FetchScript(locationLines, csv, failureFile, server);
      forall i | 0 <= i < |r.visits| :: r.visits[i].entry == LoadNeighbourhoods(locationLines).locations[i]
    ensures var r := FetchScript(locationLines, csv, failureFile, server);
      Flatten(r.final.flushes) == StoredRows(Outcomes(r.visits, r.processed))
    ensures var fl := FetchScript(locationLines, csv, failureFile, server).final.flushes;
      forall i | 0 <= i < |fl| :: 0 < |fl[i]| <= BatchSize
    ensures var fl := FetchScript(locationLines, csv, failureFile, server).final.flushes;
      forall i | 0 <= i < |fl| - 1 :: |fl[i]| == BatchSize
    ensures var r := FetchScript(locationLines, csv, failureFile, server);
      r.final.csv == WriteAll(csv, r.final.flushes)
    ensures var r := FetchScript(locationLines, csv, failureFile, server);
      r.final.failureLog == FailureLines(Outcomes(r.visits, r.processed))
  {
    var r := FetchScript(locationLines, csv, failureFile, server);
    var os := Outcomes(r.visits, r.processed);
    assert r.final == Finish(ApplyAll(Start(csv, []), os));
    CompleteRun(csv, os);
  }

  /** The scan for names already in the CSV file looks for lines starting
      with a quoted name, but every line the script writes there starts
      with "Latitude" or a latitude. So a file the script wrote gives no
      names, no location is skipped, and the file stays that way: a rerun
      fetches and appends every location again. */
  lemma ResumeNeverSkips(locationLines: seq<string>, csv: seq<Record>,
                         failureFile: Option<seq<string>>, server: Entry -> Replies)
    requires CsvLatitudeFirst(csv)
    ensures var r := FetchScript(locationLines, csv, failureFile, server);
      r.processed == {} &&
      (forall i | 0 <= i < |r.visits| :: !OutcomeOf(r.visits[i], r.processed).Skipped?) &&
      CsvLatitudeFirst(r.final.csv)
  {
    var r := FetchScript(locationLines, csv, failureFile, server);
    CsvScanFindsNothing(csv);
    var os := Outcomes(r.visits, r.processed);
    LoaderEntriesValid(locationLines);
    var locations := LoadNeighbourhoods(locationLines).locations;
    forall i | 0 <= i < |os| && os[i].Stored? ensures LatitudeRow(os[i].row) {
      assert r.visits[i].entry == locations[i];
      assert locations[i] in locations;
      MakeRowLatitude(locations[i], Fetch(r.visits[i].replies).data.value);
    }
    var st0 := Start(csv, []);
    ApplyAllLatitude(st0, os);
    var st := ApplyAll(st0, os);
    if |st.batch| > 0 {
      WriteBatchLatitudeFirst(st.csv, st.batch);
    }
  }
}
