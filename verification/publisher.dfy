/** The publisher that turns the growing CSV file into a JavaScript file
    `var solarData = [...]` for the map page. Its state is the published
    list and the number of CSV rows already taken; one poll appends the
    CSV's new rows by position and rewrites the output file. JSON encoding
    and decoding are parameters, and so is the row type. */
module Publisher {
  import opened Common

  /** The assignment the output file starts with. */
  const Prefix: string := "var solarData = "

  predicate StartsWith(s: string, p: string) {
    |p| <= |s| && s[..|p|] == p
  }

  /** The content of the output file for a JSON text. */
  function Wrap(json: string): (r: string)
    ensures StartsWith(r, Prefix) && |r| == |Prefix| + |json| + 1
    ensures r[|Prefix|..|r| - 1] == json && r[|r| - 1] == '\n'
  {
    Prefix + json + "\n"
  }

  /** The text handed to the JSON decoder on load: the file stripped, and
      when it starts with the prefix, the prefix dropped and the rest
      stripped again. A file without the prefix is decoded as it is. */
  function Unwrap(file: string): (r: string)
    ensures Trimmed(r)
    ensures !StartsWith(Strip(file), Prefix) ==> r == Strip(file)
    ensures StartsWith(Strip(file), Prefix) ==> r == Strip(Strip(file)[|Prefix|..])
  {
    var c := Strip(file);
    if StartsWith(c, Prefix) then Strip(c[|Prefix|..]) else c
  }

  /** Loading gives back any non-empty JSON text without surrounding
      whitespace that was written. */
  lemma UnwrapWrap(json: string)
    requires |json| > 0 && Trimmed(json)
    ensures Unwrap(Wrap(json)) == json
  {
    var core := Prefix + json;
    assert Trimmed(core);
    assert Wrap(json) == "" + core + "\n";
    StripPadded("", core, "\n");
    assert core[|Prefix|..] == json;
    StripTrimmed(json);
  }

  /** The empty text does not come back: stripping the file also eats the
      space at the end of the prefix, so the prefix is no longer found. */
  lemma UnwrapWrapEmpty()
    ensures Unwrap(Wrap("")) == "var solarData ="
  {
    var core := "var solarData =";
    assert Wrap("") == "" + core + " \n";
    StripPadded("", core, " \n");
  }

  /** What `json.loads` made of a text: an error, a value that is not a
      list, or a list. */
  datatype Decoded<R> = Malformed | NotAList | List(items: seq<R>)

  /** The published list found in the output file at start-up, if the file
      exists; anything but a decodable list gives the empty list. */
  function LoadPublished<R>(file: Option<string>, decode: string -> Decoded<R>): (r: seq<R>)
    ensures file.None? ==> r == []
    ensures file.Some? && !decode(Unwrap(file.value)).List? ==> r == []
    ensures file.Some? && decode(Unwrap(file.value)).List? ==> r == decode(Unwrap(file.value)).items
  {
    match file
    case None => []
    case Some(text) =>
      match decode(Unwrap(text))
      case List(items) => items
      case _ => []
  }

  /** `existing_data` and `last_line_count`. */
  datatype State<R> = State(published: seq<R>, taken: nat)

  /** Start-up: the loaded list, and no CSV row counted as taken. */
  function Init<R>(file: Option<string>, decode: string -> Decoded<R>): (st: State<R>)
    ensures st.taken == 0 && st.published == LoadPublished(file, decode)
  {
    State(LoadPublished(file, decode), 0)
  }

  /** The state after a poll and the new content of the output file, if it
      was rewritten. */
  datatype Polled<R> = Polled(state: State<R>, written: Option<string>)

  /** One poll of the CSV file (`None` when it does not exist; otherwise
      its rows as the dictionary reader yields them). */
  function Step<R>(st: State<R>, csv: Option<seq<R>>, encode: seq<R> -> string): (p: Polled<R>)
    ensures st.published <= p.state.published
    ensures st.taken <= p.state.taken
  {
    match csv
    case Some(rows) =>
      if |rows| > st.taken then
        var published := st.published + rows[st.taken..];
        Polled(State(published, |rows|), Some(Wrap(encode(published))))
      else Polled(st, None)
    case None => Polled(st, None)
  }

  /** The file is rewritten exactly when the CSV has more rows than were
      taken; then the rows after the taken ones are appended in order,
      all rows count as taken, and the file holds the prefix, the whole
      list's encoding and a newline. Otherwise nothing changes. */
  lemma StepSpec<R>(st: State<R>, csv: Option<seq<R>>, encode: seq<R> -> string)
    ensures var p := Step(st, csv, encode);
      p.written.Some? <==> csv.Some? && |csv.value| > st.taken
    ensures var p := Step(st, csv, encode);
      p.written.None? ==> p.state == st
    ensures var p := Step(st, csv, encode);
      p.written.Some? ==>
        |p.state.published| == |st.published| + |csv.value| - st.taken &&
        (forall i | 0 <= i < |st.published| :: p.state.published[i] == st.published[i]) &&
        (forall i | st.taken <= i < |csv.value| ::
           p.state.published[|st.published| + i - st.taken] == csv.value[i]) &&
        p.state.taken == |csv.value| &&
        p.written.value == Prefix + encode(p.state.published) + "\n"
  {
  }

  /** A codec whose encodings are loaded back as the same list. */
  ghost predicate RoundTrips<R(!new)>(encode: seq<R> -> string, decode: string -> Decoded<R>) {
    forall xs: seq<R> :: |encode(xs)| > 0 && Trimmed(encode(xs)) && decode(encode(xs)) == List(xs)
  }

  /** A restart after a rewrite loads exactly the list that was written,
      but counts no CSV row as taken. */
  lemma ReloadAfterWrite<R(!new)>(st: State<R>, csv: seq<R>,
                            encode: seq<R> -> string, decode: string -> Decoded<R>)
    requires RoundTrips(encode, decode)
    requires |csv| > st.taken
    ensures var p := Step(st, Some(csv), encode);
      Init(p.written, decode) == State(p.state.published, 0)
  {
    var p := Step(st, Some(csv), encode);
    UnwrapWrap(encode(p.state.published));
  }

  /** Because a restart counts no row as taken, its first poll appends the
      whole CSV again after the rows already published from it. */
  lemma RestartRepublishes<R(!new)>(st: State<R>, csv: seq<R>,
                              encode: seq<R> -> string, decode: string -> Decoded<R>)
    requires RoundTrips(encode, decode)
    requires |csv| > st.taken
    ensures var p := Step(st, Some(csv), encode);
      var q := Step(Init(p.written, decode), Some(csv), encode);
      q.state.published == st.published + csv[st.taken..] + csv
  {
    ReloadAfterWrite(st, csv, encode, decode);
    assert csv[0..] == csv;
  }

  /** The state follows an append-only CSV file: everything taken is the
      CSV's first rows, published after the list it started from. */
  ghost predicate Follows<R>(st: State<R>, base: seq<R>, rows: seq<R>) {
    st.taken <= |rows| && st.published == base + rows[..st.taken]
  }

  lemma StepFollows<R>(st: State<R>, base: seq<R>, rows: seq<R>, next: seq<R>,
                       encode: seq<R> -> string)
    requires Follows(st, base, rows)
    requires rows <= next
    ensures Follows(Step(st, Some(next), encode).state, base, next)
    ensures Step(st, Some(next), encode).state.taken == |next|
  {
    assert rows[..st.taken] == next[..st.taken];
    if |next| > st.taken {
      assert next[..st.taken] + next[st.taken..] == next[..|next|];
      assert base + next[..st.taken] + next[st.taken..] == base + (next[..st.taken] + next[st.taken..]);
    }
  }

  /** Polls over a sequence of snapshots of the CSV file. */
  function Polls<R>(st: State<R>, snapshots: seq<seq<R>>, encode: seq<R> -> string): State<R>
    decreases |snapshots|
  {
    if |snapshots| == 0 then st
    else Polls(Step(st, Some(snapshots[0]), encode).state, snapshots[1..], encode)
  }

  /** Each snapshot extends the one before. */
  ghost predicate Growing<R>(rows: seq<R>, snapshots: seq<seq<R>>) {
    (|snapshots| > 0 ==> rows <= snapshots[0]) &&
    forall i | 0 <= i < |snapshots| - 1 :: snapshots[i] <= snapshots[i + 1]
  }

  /** While the CSV file only grows, the published list is the starting
      list followed by every CSV row once, in file order. */
  lemma {:induction false} PollsFollow<R>(st: State<R>, base: seq<R>, rows: seq<R>,
                                          snapshots: seq<seq<R>>, encode: seq<R> -> string)
    requires Follows(st, base, rows)
    requires Growing(rows, snapshots)
    ensures |snapshots| > 0 ==>
      Polls(st, snapshots, encode).published == base + snapshots[|snapshots| - 1]
    decreases |snapshots|
  {
    if |snapshots| > 0 {
      var next := snapshots[0];
      StepFollows(st, base, rows, next, encode);
      var st' := Step(st, Some(next), encode).state;
      assert Growing(next, snapshots[1..]) by {
        forall i | 0 <= i < |snapshots[1..]| - 1 ensures snapshots[1..][i] <= snapshots[1..][i + 1] {
          assert snapshots[1..][i] == snapshots[i + 1];
        }
      }
      PollsFollow(st', base, next, snapshots[1..], encode);
      if |snapshots| == 1 {
        assert next[..|next|] == next;
      }
    }
  }

  /** Twelve rows taken and fifteen in the file: rows 12 to 14 are
      appended and fifteen count as taken. */
  lemma GrowthExample<R>(published: seq<R>, csv: seq<R>, encode: seq<R> -> string)
    requires |csv| == 15
    ensures var p := Step(State(published, 12), Some(csv), encode);
      p.state == State(published + [csv[12], csv[13], csv[14]], 15) && p.written.Some?
  {
    assert csv[12..] == [csv[12], csv[13], csv[14]];
  }
}
