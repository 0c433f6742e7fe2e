/** The three readers of location files in the fetch script: the resume
    scan `load_existing_data`, the format check `validate_neighbourhoods`
    and the location loader `load_neighbourhoods`. A file is the sequence
    of its lines as Python's line iteration yields them; every reader strips
    each line and applies the location pattern to it, so the readers are
    stated over the resulting `Reading`s. Each reader walks the lines front
    to back; `...UpTo(rs, n)` is its state after the first `n` lines. */
module LocationFiles {
  import opened Common
  import opened LocationLine

  /** A line after `line.strip()` and `re.match`: blank, a location, or a
      non-empty line the pattern rejects. */
  datatype Reading = Blank | Located(entry: Entry) | Malformed(text: string)

  function Read(line: string): Reading {
    var s := Strip(line);
    if s == "" then Blank
    else
      match ParseLine(s)
      case Some(e) => Located(e)
      case None => Malformed(s)
  }

  /** A line reads as blank exactly when it strips to nothing, as a location
      exactly when the pattern matches its stripped text, and as malformed
      otherwise, keeping that text. */
  lemma ReadSound(line: string)
    ensures var r := Read(line);
      && (r.Blank? <==> Strip(line) == "")
      && (r.Located? <==> ParseLine(Strip(line)).Some?)
      && (r.Located? ==> Some(r.entry) == ParseLine(Strip(line)) && ValidEntry(r.entry))
      && (r.Malformed? ==> r.text == Strip(line) && r.text != "")
  {
    ParseLineSound(Strip(line));
  }

  function ReadAll(lines: seq<string>): (rs: seq<Reading>)
    ensures |rs| == |lines|
  {
    if |lines| == 0 then [] else ReadAll(lines[..|lines| - 1]) + [Read(lines[|lines| - 1])]
  }

  /** Reading a file reads each of its lines. */
  lemma {:induction false} ReadAllAt(lines: seq<string>, i: nat)
    requires i < |lines|
    ensures ReadAll(lines)[i] == Read(lines[i])
  {
    if i < |lines| - 1 {
      ReadAllAt(lines[..|lines| - 1], i);
    }
  }

  predicate NamedAt(rs: seq<Reading>, i: nat, name: string)
    requires i < |rs|
  {
    rs[i].Located? && rs[i].entry.name == name
  }

  /** Names captured from the first `n` lines. */
  function NamesUpTo(rs: seq<Reading>, n: nat): (names: set<string>)
    requires n <= |rs|
    ensures forall x :: x in names <==> exists i | 0 <= i < n :: NamedAt(rs, i, x)
  {
    if n == 0 then {}
    else if rs[n - 1].Located? then
      assert NamedAt(rs, n - 1, rs[n - 1].entry.name);
      NamesUpTo(rs, n - 1) + {rs[n - 1].entry.name}
    else NamesUpTo(rs, n - 1)
  }

  /** `load_existing_data`: the set of names on matching lines of a file,
      empty when the file does not exist. */
  function LoadExisting(file: Option<seq<string>>): set<string> {
    match file
    case None => {}
    case Some(lines) => NamesUpTo(ReadAll(lines), |lines|)
  }

  /** The resume scan finds no name in a missing file, and in an existing
      one exactly the names of the lines the pattern matches. */
  lemma LoadExistingSpec(file: Option<seq<string>>)
    ensures file.None? ==> LoadExisting(file) == {}
    ensures file.Some? ==> forall x :: x in LoadExisting(file) <==>
      exists i | 0 <= i < |file.value| :: Read(file.value[i]).Located? && Read(file.value[i]).entry.name == x
  {
    if file.Some? {
      var lines := file.value;
      var rs := ReadAll(lines);
      assert LoadExisting(file) == NamesUpTo(rs, |rs|);
      forall x ensures x in LoadExisting(file) <==>
        exists i | 0 <= i < |lines| :: Read(lines[i]).Located? && Read(lines[i]).entry.name == x
      {
        if x in LoadExisting(file) {
          var i :| 0 <= i < |rs| && NamedAt(rs, i, x);
          ReadAllAt(lines, i);
        }
        if exists i | 0 <= i < |lines| :: Read(lines[i]).Located? && Read(lines[i]).entry.name == x {
          var i :| 0 <= i < |lines| && Read(lines[i]).Located? && Read(lines[i]).entry.name == x;
          ReadAllAt(lines, i);
          assert NamedAt(rs, i, x);
        }
      }
    }
  }

  /** A warning of `validate_neighbourhoods`: 1-based line number and the
      stripped line. */
  datatype Report = Report(lineNo: nat, text: string)

  /** The stripped text of a line that is not a location. */
  function TextOf(r: Reading): string {
    match r
    case Malformed(t) => t
    case _ => ""
  }

  /** `validate_neighbourhoods` over the first `n` lines: one report per
      line that does not match, blank lines included, in file order. */
  function ValidateUpTo(rs: seq<Reading>, n: nat): (r: seq<Report>)
    requires n <= |rs|
    ensures forall j | 0 <= j < |r| :: 1 <= r[j].lineNo <= n
  {
    if n == 0 then []
    else if rs[n - 1].Located? then ValidateUpTo(rs, n - 1)
    else ValidateUpTo(rs, n - 1) + [Report(n, TextOf(rs[n - 1]))]
  }

  function Validate(lines: seq<string>): seq<Report> {
    ValidateUpTo(ReadAll(lines), |lines|)
  }

  /** Every report names a line that does not match, with its stripped
      text. */
  lemma {:induction false} ValidateSound(rs: seq<Reading>, n: nat, j: nat)
    requires n <= |rs| && j < |ValidateUpTo(rs, n)|
    ensures var r := ValidateUpTo(rs, n)[j];
      !rs[r.lineNo - 1].Located? && r.text == TextOf(rs[r.lineNo - 1])
  {
    var prev := ValidateUpTo(rs, n - 1);
    if j < |prev| {
      ValidateSound(rs, n - 1, j);
    }
  }

  /** Every line that does not match is reported. */
  lemma {:induction false} ValidateComplete(rs: seq<Reading>, n: nat, i: nat)
    requires i < n <= |rs| && !rs[i].Located?
    ensures Report(i + 1, TextOf(rs[i])) in ValidateUpTo(rs, n)
  {
    if i < n - 1 {
      ValidateComplete(rs, n - 1, i);
    }
  }

  /** Reports come in increasing line order. */
  lemma {:induction false} ValidateOrdered(rs: seq<Reading>, n: nat, j: nat, j': nat)
    requires n <= |rs| && j < j' < |ValidateUpTo(rs, n)|
    ensures ValidateUpTo(rs, n)[j].lineNo < ValidateUpTo(rs, n)[j'].lineNo
  {
    var prev := ValidateUpTo(rs, n - 1);
    if j' < |prev| {
      ValidateOrdered(rs, n - 1, j, j');
    }
  }

  /** `validate_neighbourhoods` flags only lines the pattern rejects, blank
      ones included, by 1-based line number and with the stripped text. */
  lemma ValidateFlagsOnlyRejected(lines: seq<string>)
    ensures forall j | 0 <= j < |Validate(lines)| ::
      var r := Validate(lines)[j];
      1 <= r.lineNo <= |lines|
      && ParseLine(Strip(lines[r.lineNo - 1])) == None
      && r.text == Strip(lines[r.lineNo - 1])
  {
    forall j | 0 <= j < |Validate(lines)| ensures
      var r := Validate(lines)[j];
      1 <= r.lineNo <= |lines|
      && ParseLine(Strip(lines[r.lineNo - 1])) == None
      && r.text == Strip(lines[r.lineNo - 1])
    {
      ValidateReportSound(lines, j);
      var i := Validate(lines)[j].lineNo - 1;
      ReadAllAt(lines, i);
      Rejected(lines[i]);
    }
  }

  /** `validate_neighbourhoods` flags every line the pattern rejects. */
  lemma ValidateFlagsAllRejected(lines: seq<string>)
    ensures forall i | 0 <= i < |lines| && ParseLine(Strip(lines[i])) == None ::
      Report(i + 1, Strip(lines[i])) in Validate(lines)
  {
    forall i | 0 <= i < |lines| && ParseLine(Strip(lines[i])) == None
      ensures Report(i + 1, Strip(lines[i])) in Validate(lines)
    {
      ValidateReportComplete(lines, i);
    }
  }

  /** `validate_neighbourhoods` reports in file order. */
  lemma ValidateInFileOrder(lines: seq<string>)
    ensures forall j, j' | 0 <= j < j' < |Validate(lines)| ::
      Validate(lines)[j].lineNo < Validate(lines)[j'].lineNo
  {
    forall j, j' | 0 <= j < j' < |Validate(lines)|
      ensures Validate(lines)[j].lineNo < Validate(lines)[j'].lineNo
    {
      ValidateOrdered(ReadAll(lines), |lines|, j, j');
    }
  }

  /** Report `j` of a file names a line that does not read as a location,
      with its text. */
  lemma ValidateReportSound(lines: seq<string>, j: nat)
    requires j < |Validate(lines)|
    ensures var r := Validate(lines)[j];
      1 <= r.lineNo <= |lines|
      && !ReadAll(lines)[r.lineNo - 1].Located?
      && r.text == TextOf(ReadAll(lines)[r.lineNo - 1])
  {
    ValidateSound(ReadAll(lines), |lines|, j);
  }

  /** A line reads as something other than a location exactly when the
      pattern rejects its stripped text, and then its text is that. */
  lemma Rejected(line: string)
    ensures !Read(line).Located? <==> ParseLine(Strip(line)) == None
    ensures !Read(line).Located? ==> TextOf(Read(line)) == Strip(line)
  {
  }

  /** A rejected line `i` of a file is reported. */
  lemma ValidateReportComplete(lines: seq<string>, i: nat)
    requires i < |lines| && ParseLine(Strip(lines[i])) == None
    ensures Report(i + 1, Strip(lines[i])) in Validate(lines)
  {
    var rs := ReadAll(lines);
    ReadAllAt(lines, i);
    Rejected(lines[i]);
    ValidateComplete(rs, |lines|, i);
  }

  predicate DistinctNames(locs: seq<Entry>) {
    forall i, j | 0 <= i < j < |locs| :: locs[i].name != locs[j].name
  }

  function Names(locs: seq<Entry>): set<string> {
    set e | e in locs :: e.name
  }

  /** Position of `name` among the locations, if present. */
  function IndexOfName(locs: seq<Entry>, name: string): (r: Option<nat>)
    ensures r.Some? ==> r.value < |locs| && locs[r.value].name == name
    ensures r.None? ==> forall i | 0 <= i < |locs| :: locs[i].name != name
    decreases |locs|
  {
    if |locs| == 0 then None
    else if locs[|locs| - 1].name == name then Some(|locs| - 1)
    else IndexOfName(locs[..|locs| - 1], name)
  }

  /** `locations[name] = (lat, lon)` on an insertion-ordered dictionary: an
      existing name keeps its position and takes the new coordinates; a new
      name goes at the end. */
  function Upsert(locs: seq<Entry>, e: Entry): (r: seq<Entry>)
    requires DistinctNames(locs)
    ensures DistinctNames(r)
    ensures e in r
    ensures |r| == |locs| || r == locs + [e]
    ensures forall i | 0 <= i < |locs| :: r[i] == (if locs[i].name == e.name then e else locs[i])
  {
    match IndexOfName(locs, e.name)
    case Some(i) =>
      var r := locs[i := e];
      assert forall k | 0 <= k < |locs| :: r[k].name == locs[k].name;
      r
    case None =>
      var r := locs + [e];
      assert forall k | 0 <= k < |locs| :: r[k] == locs[k];
      r
  }

  /** What `load_neighbourhoods` returns and prints: the locations in
      dictionary order and the text of every ignored line. */
  datatype Loaded = Loaded(locations: seq<Entry>, warnings: seq<string>)

  /** `load_neighbourhoods` after the first `n` lines: blank lines are
      skipped, matching lines set their name's coordinates, other lines are
      ignored with a warning. */
  function LoadUpTo(rs: seq<Reading>, n: nat): (r: Loaded)
    requires n <= |rs|
    ensures DistinctNames(r.locations)
  {
    if n == 0 then Loaded([], [])
    else
      var prev := LoadUpTo(rs, n - 1);
      match rs[n - 1]
      case Blank => prev
      case Located(e) => prev.(locations := Upsert(prev.locations, e))
      case Malformed(s) => prev.(warnings := prev.warnings + [s])
  }

  function LoadNeighbourhoods(lines: seq<string>): Loaded {
    LoadUpTo(ReadAll(lines), |lines|)
  }

  /** Setting a name's coordinates adds the name and no other. */
  lemma UpsertNames(prev: seq<Entry>, e: Entry)
    requires DistinctNames(prev)
    ensures Names(Upsert(prev, e)) == Names(prev) + {e.name}
  {
    var r := Upsert(prev, e);
    forall x | x in Names(r) ensures x in Names(prev) + {e.name} {
      var y :| y in r && y.name == x;
      var k :| 0 <= k < |r| && r[k] == y;
      if k < |prev| && prev[k].name != e.name {
        assert prev[k] == y;
      }
    }
    forall x | x in Names(prev) ensures x in Names(r) {
      var y :| y in prev && y.name == x;
      var k :| 0 <= k < |prev| && prev[k] == y;
      assert r[k].name == x;
    }
  }

  /** The loader keeps a location for exactly the names the resume scan
      would find in the same file. */
  lemma {:induction false} LoaderNames(rs: seq<Reading>, n: nat)
    requires n <= |rs|
    ensures Names(LoadUpTo(rs, n).locations) == NamesUpTo(rs, n)
  {
    if n > 0 {
      LoaderNames(rs, n - 1);
      if rs[n - 1].Located? {
        UpsertNames(LoadUpTo(rs, n - 1).locations, rs[n - 1].entry);
      }
    }
  }

  /** The first of the first `n` lines that captures `name`, if any. */
  function FirstLine(rs: seq<Reading>, n: nat, name: string): (r: Option<nat>)
    requires n <= |rs|
    ensures r.Some? ==> r.value < n && NamedAt(rs, r.value, name)
    ensures r.Some? ==> forall q | 0 <= q < r.value :: !NamedAt(rs, q, name)
    ensures r.None? ==> forall q | 0 <= q < n :: !NamedAt(rs, q, name)
  {
    if n == 0 then None
    else
      match FirstLine(rs, n - 1, name)
      case Some(p) => Some(p)
      case None => if NamedAt(rs, n - 1, name) then Some(n - 1) else None
  }

  /** A line that captures a name the loader does not hold yet is that
      name's first line. */
  lemma NewNameFirstLine(rs: seq<Reading>, n: nat, e: Entry)
    requires 0 < n <= |rs| && rs[n - 1] == Located(e)
    requires e.name !in Names(LoadUpTo(rs, n - 1).locations)
    ensures FirstLine(rs, n, e.name) == Some(n - 1)
  {
    LoaderNames(rs, n - 1);
    assert e.name !in NamesUpTo(rs, n - 1);
    assert forall q | 0 <= q < n - 1 :: !NamedAt(rs, q, e.name);
    assert FirstLine(rs, n - 1, e.name).None?;
    assert NamedAt(rs, n - 1, e.name);
  }

  /** A name already captured keeps its first line. */
  lemma FirstLineKept(rs: seq<Reading>, n: nat, name: string)
    requires 0 < n <= |rs| && FirstLine(rs, n - 1, name).Some?
    ensures FirstLine(rs, n, name) == FirstLine(rs, n - 1, name)
  {
  }

  /** One more line either keeps the loader's names where they are or
      appends a name it did not hold. */
  lemma LoadStep(rs: seq<Reading>, n: nat)
    requires 0 < n <= |rs|
    ensures var prev := LoadUpTo(rs, n - 1).locations;
      var cur := LoadUpTo(rs, n).locations;
      || (|cur| == |prev| && forall k | 0 <= k < |prev| :: cur[k].name == prev[k].name)
      || (rs[n - 1].Located? && cur == prev + [rs[n - 1].entry]
          && rs[n - 1].entry.name !in Names(prev))
  {
    var prev := LoadUpTo(rs, n - 1).locations;
    var cur := LoadUpTo(rs, n).locations;
    if rs[n - 1].Located? {
      var e := rs[n - 1].entry;
      if |cur| != |prev| {
        assert cur == prev + [e];
        forall y | y in prev ensures y.name != e.name {
          var k :| 0 <= k < |prev| && prev[k] == y;
          assert cur[k] == prev[k];
        }
      }
    }
  }

  /** The loader holds its names in the order of their first lines, as a
      Python dictionary keeps keys in the order they were first set. */
  lemma {:induction false} LoaderFirstLines(rs: seq<Reading>, n: nat)
    requires n <= |rs|
    ensures forall i | 0 <= i < |LoadUpTo(rs, n).locations| ::
      FirstLine(rs, n, LoadUpTo(rs, n).locations[i].name).Some?
    ensures forall i, j | 0 <= i < j < |LoadUpTo(rs, n).locations| ::
      FirstLine(rs, n, LoadUpTo(rs, n).locations[i].name).value
        < FirstLine(rs, n, LoadUpTo(rs, n).locations[j].name).value
  {
    if n > 0 {
      LoaderFirstLines(rs, n - 1);
      LoadStep(rs, n);
      var prev := LoadUpTo(rs, n - 1).locations;
      var cur := LoadUpTo(rs, n).locations;
      forall i | 0 <= i < |prev|
        ensures FirstLine(rs, n, prev[i].name) == FirstLine(rs, n - 1, prev[i].name)
      {
        FirstLineKept(rs, n, prev[i].name);
      }
      if |cur| != |prev| || exists k | 0 <= k < |prev| :: cur[k].name != prev[k].name {
        NewNameFirstLine(rs, n, rs[n - 1].entry);
      }
    }
  }

  /** `load_neighbourhoods` returns the locations in the order of the lines
      where each name first appears. */
  lemma LoaderFileOrder(lines: seq<string>)
    ensures var locs := LoadNeighbourhoods(lines).locations;
      forall i | 0 <= i < |locs| :: FirstLine(ReadAll(lines), |lines|, locs[i].name).Some?
    ensures var locs := LoadNeighbourhoods(lines).locations;
      forall i, j | 0 <= i < j < |locs| ::
        FirstLine(ReadAll(lines), |lines|, locs[i].name).value
          < FirstLine(ReadAll(lines), |lines|, locs[j].name).value
  {
    LoaderFirstLines(ReadAll(lines), |lines|);
  }

  /** Line `i` is the last of the first `n` to carry `x`'s name, and it
      carries exactly `x`. */
  predicate LastWithAt(rs: seq<Reading>, n: nat, x: Entry, i: nat)
    requires n <= |rs|
  {
    i < n && rs[i] == Located(x) && forall j | i < j < n :: !NamedAt(rs, j, x.name)
  }

  ghost predicate LastWith(rs: seq<Reading>, n: nat, x: Entry)
    requires n <= |rs|
  {
    exists i :: LastWithAt(rs, n, x, i)
  }

  /** For a duplicated name the coordinates of its last matching line win. */
  lemma {:induction false} LoaderLastWins(rs: seq<Reading>, n: nat)
    requires n <= |rs|
    ensures forall x | x in LoadUpTo(rs, n).locations :: LastWith(rs, n, x)
  {
    if n > 0 {
      LoaderLastWins(rs, n - 1);
      var prev := LoadUpTo(rs, n - 1).locations;
      var cur := LoadUpTo(rs, n).locations;
      forall x | x in cur
        ensures LastWith(rs, n, x)
      {
        if rs[n - 1] == Located(x) {
          assert LastWithAt(rs, n, x, n - 1);
        } else {
          var k :| 0 <= k < |cur| && cur[k] == x;
          assert k < |prev| && x == prev[k];
          assert !NamedAt(rs, n - 1, x.name);
          assert x in prev;
          assert LastWith(rs, n - 1, x);
          var i: nat :| LastWithAt(rs, n - 1, x, i);
          assert LastWithAt(rs, n, x, i);
        }
      }
    }
  }

  /** The loader's result for a file: distinct names, exactly the names
      the resume scan finds in the same file, and each name with the
      coordinates of the last line that carries it. */
  lemma LoaderSpec(lines: seq<string>)
    ensures DistinctNames(LoadNeighbourhoods(lines).locations)
    ensures Names(LoadNeighbourhoods(lines).locations) == LoadExisting(Some(lines))
    ensures forall x | x in LoadNeighbourhoods(lines).locations :: LastWith(ReadAll(lines), |lines|, x)
  {
    var rs := ReadAll(lines);
    LoaderNames(rs, |lines|);
    LoaderLastWins(rs, |lines|);
  }

  /** Every loaded location is one the pattern can produce. */
  lemma LoaderEntriesValid(lines: seq<string>)
    ensures forall x | x in LoadNeighbourhoods(lines).locations :: ValidEntry(x)
  {
    var rs := ReadAll(lines);
    LoaderLastWins(rs, |lines|);
    forall x | x in LoadNeighbourhoods(lines).locations ensures ValidEntry(x) {
      assert LastWith(rs, |lines|, x);
      var i: nat :| LastWithAt(rs, |lines|, x, i);
      ReadAllAt(lines, i);
      ReadSound(lines[i]);
    }
  }

  /** The stripped texts of the reports for non-blank lines. */
  function NonBlankTexts(reports: seq<Report>): seq<string> {
    if |reports| == 0 then []
    else
      NonBlankTexts(reports[..|reports| - 1])
        + (if reports[|reports| - 1].text == "" then [] else [reports[|reports| - 1].text])
  }

  lemma NonBlankTextsSnoc(reports: seq<Report>, r: Report)
    ensures NonBlankTexts(reports + [r]) == NonBlankTexts(reports) + (if r.text == "" then [] else [r.text])
  {
    assert (reports + [r])[..|reports|] == reports;
  }

  /** A line with a reading produced by `Read`: malformed lines are never
      blank. */
  predicate WellRead(rs: seq<Reading>) {
    forall i | 0 <= i < |rs| :: rs[i].Malformed? ==> rs[i].text != ""
  }

  lemma ReadAllWellRead(lines: seq<string>)
    ensures WellRead(ReadAll(lines))
  {
    forall i | 0 <= i < |lines| ensures ReadAll(lines)[i].Malformed? ==> ReadAll(lines)[i].text != "" {
      ReadAllAt(lines, i);
      ReadSound(lines[i]);
    }
  }

  /** One line's effect on the loader's warnings: a malformed line adds its
      text, any other line adds nothing. */
  lemma LoadWarningsStep(rs: seq<Reading>, n: nat)
    requires 0 < n <= |rs|
    ensures LoadUpTo(rs, n).warnings
      == LoadUpTo(rs, n - 1).warnings + (if rs[n - 1].Malformed? then [rs[n - 1].text] else [])
  {
  }

  /** The loader warns about exactly the lines the validator flags, except
      the blank ones, and in the same order. */
  lemma {:induction false} LoaderWarnsWhatValidatorFlags(rs: seq<Reading>, n: nat)
    requires n <= |rs| && WellRead(rs)
    ensures LoadUpTo(rs, n).warnings == NonBlankTexts(ValidateUpTo(rs, n))
  {
    if n > 0 {
      LoaderWarnsWhatValidatorFlags(rs, n - 1);
      LoadWarningsStep(rs, n);
      if !rs[n - 1].Located? {
        NonBlankTextsSnoc(ValidateUpTo(rs, n - 1), Report(n, TextOf(rs[n - 1])));
      }
    }
  }

  /** Blank lines pass the loader silently but the validator flags them;
      every other rejected line draws a warning from both, in file order. */
  lemma WarningsSpec(lines: seq<string>)
    ensures LoadNeighbourhoods(lines).warnings == NonBlankTexts(Validate(lines))
    ensures forall i | 0 <= i < |lines| && Strip(lines[i]) == "" :: Report(i + 1, "") in Validate(lines)
  {
    var rs := ReadAll(lines);
    ReadAllWellRead(lines);
    LoaderWarnsWhatValidatorFlags(rs, |lines|);
    forall i | 0 <= i < |lines| && Strip(lines[i]) == "" ensures Report(i + 1, "") in Validate(lines) {
      ReadAllAt(lines, i);
      ReadSound(lines[i]);
      ValidateComplete(rs, |lines|, i);
    }
  }
}
