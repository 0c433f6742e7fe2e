/** One line of the location list or of the failure log:
    `"<name>": (<lat>, <lon>)`, read with Python's `re.match` against the
    pattern `"(.+)": \((\d+\.\d+), (\d+\.\d+)\)`, and written back by
    `save_failed_request`.

    `re.match` anchors the pattern at the start of the line only, so text
    after the closing parenthesis is ignored. The name group `.+` is greedy:
    it first takes every character up to the first line feed and then gives
    characters back one at a time until the rest of the pattern matches, so
    the captured name is the longest one that works. Each coordinate
    `\d+\.\d+` is followed by a character that is neither a digit nor a dot,
    so once the name is fixed the coordinates are fixed too. */
module LocationLine {
  import opened Common

  /** A location with its coordinates kept as the decimal text that
      matched. */
  datatype Entry = Entry(name: string, lat: string, lon: string)

  /** What follows the name: closing quote, colon, space, parenthesis. */
  const Separator: string := "\": ("

  /** The regular expression `.` matches every character but a line feed. */
  predicate NoNewline(s: string) {
    forall k | 0 <= k < |s| :: s[k] != '\n'
  }

  /** `s` in full matches `\d+\.\d+`. */
  predicate IsDecimal(s: string) {
    exists p | 0 < p < |s| - 1 :: s[p] == '.' && AllDigits(s[..p]) && AllDigits(s[p + 1..])
  }

  /** The part of a line after the name. */
  function CoordsText(lat: string, lon: string): string {
    Separator + (lat + (", " + (lon + ")")))
  }

  /** An entry the pattern can produce: a non-empty name without line
      feeds and two decimals. */
  predicate ValidEntry(e: Entry) {
    |e.name| > 0 && NoNewline(e.name) && IsDecimal(e.lat) && IsDecimal(e.lon)
  }

  /** The pattern matches at the start of `line` with a name of length `k`
      and the given coordinate texts; whatever follows is ignored. */
  predicate SplitsAt(line: string, k: nat, lat: string, lon: string) {
    && 0 < k && 1 + k <= |line| && line[0] == '"'
    && NoNewline(line[1..1 + k])
    && IsDecimal(lat) && IsDecimal(lon)
    && CoordsText(lat, lon) <= line[1 + k..]
  }

  /** `a + b` is a prefix of `s` iff `a` is and `b` is a prefix of what
      follows it. */
  lemma PrefixConcat(a: string, b: string, s: string)
    ensures a + b <= s <==> a <= s && b <= s[|a|..]
  {
    if a <= s && b <= s[|a|..] {
      assert (a + b)[..|a|] == a && (a + b)[|a|..] == b;
      assert s[..|a| + |b|] == s[..|a|] + s[|a|..][..|b|];
    }
    if a + b <= s {
      assert (a + b)[..|a|] == a && (a + b)[|a|..] == b;
      assert s[|a|..][..|b|] == s[..|a| + |b|][|a|..];
    }
  }

  /** Length of the `\d+\.\d+` match at the start of `s`, if any. */
  function DecimalPrefix(s: string): (r: Option<nat>)
    ensures r.Some? ==> r.value <= |s|
  {
    var a := DigitRun(s);
    if a == 0 || a == |s| || s[a] != '.' then None
    else
      var b := DigitRun(s[a + 1..]);
      if b == 0 then None else Some(a + 1 + b)
  }

  /** What `DecimalPrefix` finds is a decimal that no further digit
      extends. */
  lemma DecimalPrefixSound(s: string)
    ensures var r := DecimalPrefix(s);
      r.Some? ==> r.value <= |s| && IsDecimal(s[..r.value]) && (r.value == |s| || !IsDigit(s[r.value]))
  {
    if DecimalPrefix(s).Some? {
      var a := DigitRun(s);
      var b := DigitRun(s[a + 1..]);
      var d := s[..a + 1 + b];
      assert d[..a] == s[..a];
      assert d[a + 1..] == s[a + 1..][..b];
      assert d[a] == '.';
    }
  }

  lemma IntegerPartRun(d: string, s: string, p: nat)
    requires d <= s && 0 < p < |d| && d[p] == '.' && AllDigits(d[..p])
    ensures p < |s| && s[p] == '.' && DigitRun(s) == p
  {
    assert s[..p] == d[..p] && s[p] == d[p];
    DigitRunIs(s, p);
  }

  lemma FractionRun(d: string, s: string, p: nat)
    requires d <= s && p + 1 < |d| && AllDigits(d[p + 1..])
    requires |s| == |d| || !IsDigit(s[|d|])
    ensures DigitRun(s[p + 1..]) == |d| - p - 1
  {
    var s1 := s[p + 1..];
    var b := |d| - p - 1;
    assert s1[..b] == d[p + 1..];
    assert b < |s1| ==> s1[b] == s[|d|];
    DigitRunIs(s1, b);
  }

  /** A decimal at the start of `s`, followed by a non-digit or by nothing,
      is exactly what `DecimalPrefix` finds. */
  lemma DecimalPrefixOf(d: string, s: string)
    requires IsDecimal(d) && d <= s
    requires |s| == |d| || !IsDigit(s[|d|])
    ensures DecimalPrefix(s) == Some(|d|)
  {
    var p :| 0 < p < |d| - 1 && d[p] == '.' && AllDigits(d[..p]) && AllDigits(d[p + 1..]);
    IntegerPartRun(d, s, p);
    FractionRun(d, s, p);
  }

  /** A piece of the pattern after the name: literal text, or a group
      `(\d+\.\d+)`. */
  datatype Piece = Lit(text: string) | Group

  /** `": \((\d+\.\d+), (\d+\.\d+)\)` */
  const CoordsPattern: seq<Piece> := [Lit(Separator), Group, Lit(", "), Group, Lit(")")]

  /** Number of groups among the pieces. */
  function Groups(p: seq<Piece>): nat {
    if |p| == 0 then 0 else (if p[0].Group? then 1 else 0) + Groups(p[1..])
  }

  /** The text the pieces match when the groups capture `gs`. */
  function Render(p: seq<Piece>, gs: seq<string>): string
    requires |gs| == Groups(p)
  {
    if |p| == 0 then ""
    else
      match p[0]
      case Lit(t) => t + Render(p[1..], gs)
      case Group => gs[0] + Render(p[1..], gs[1..])
  }

  /** Matches the pieces at the start of `s` and returns the captured
      groups in order. A group takes the longest decimal there; since the
      regex engine could only give digits back, and every group here is
      followed by a literal that starts with neither a digit nor a dot, no
      shorter choice would let the rest match. */
  function MatchPieces(p: seq<Piece>, s: string): Option<seq<string>> {
    if |p| == 0 then Some([])
    else
      match p[0]
      case Lit(t) => if t <= s then MatchPieces(p[1..], s[|t|..]) else None
      case Group =>
        match DecimalPrefix(s)
        case None => None
        case Some(b) =>
          match MatchPieces(p[1..], s[b..])
          case None => None
          case Some(gs) => Some([s[..b]] + gs)
  }

  predicate AllDecimal(gs: seq<string>) {
    forall i | 0 <= i < |gs| :: IsDecimal(gs[i])
  }

  /** Whatever the pieces match is one group per `Group`, each a decimal,
      laid out at the start of `s` as the pattern says. */
  lemma {:induction false} MatchPiecesSound(p: seq<Piece>, s: string)
    ensures var r := MatchPieces(p, s);
      r.Some? ==> |r.value| == Groups(p) && AllDecimal(r.value) && Render(p, r.value) <= s
    decreases |p|
  {
    if |p| > 0 && MatchPieces(p, s).Some? {
      match p[0]
      case Lit(t) =>
        MatchPiecesSound(p[1..], s[|t|..]);
        PrefixConcat(t, Render(p[1..], MatchPieces(p, s).value), s);
      case Group =>
        var b := DecimalPrefix(s).value;
        DecimalPrefixSound(s);
        MatchPiecesSound(p[1..], s[b..]);
        var gs := MatchPieces(p[1..], s[b..]).value;
        var r := [s[..b]] + gs;
        assert r[1..] == gs;
        PrefixConcat(s[..b], Render(p[1..], gs), s);
    }
  }

  /** Every group is followed by literal text that starts with neither a
      digit nor a dot. */
  predicate Separated(p: seq<Piece>) {
    forall i | 0 <= i < |p| && p[i].Group? ::
      i + 1 < |p| && p[i + 1].Lit? && |p[i + 1].text| > 0
      && !IsDigit(p[i + 1].text[0]) && p[i + 1].text[0] != '.'
  }

  lemma SeparatedTail(p: seq<Piece>)
    requires |p| > 0 && Separated(p)
    ensures Separated(p[1..])
  {
    forall i | 0 <= i < |p[1..]| && p[1..][i].Group?
      ensures i + 1 < |p[1..]| && p[1..][i + 1].Lit? && |p[1..][i + 1].text| > 0
      && !IsDigit(p[1..][i + 1].text[0]) && p[1..][i + 1].text[0] != '.'
    {
      assert p[1..][i] == p[i + 1];
    }
  }

  /** Decimals laid out as separated pieces say are exactly what the pieces
      match: the match is unique. */
  lemma {:induction false} MatchPiecesComplete(p: seq<Piece>, gs: seq<string>, s: string)
    requires Separated(p) && |gs| == Groups(p) && AllDecimal(gs)
    requires Render(p, gs) <= s
    ensures MatchPieces(p, s) == Some(gs)
    decreases |p|
  {
    if |p| > 0 {
      SeparatedTail(p);
      match p[0]
      case Lit(t) =>
        PrefixConcat(t, Render(p[1..], gs), s);
        MatchPiecesComplete(p[1..], gs, s[|t|..]);
      case Group =>
        var d := gs[0];
        var rest := Render(p[1..], gs[1..]);
        PrefixConcat(d, rest, s);
        var t := p[1].text;
        assert rest == t + Render(p[2..], gs[1..]);
        assert s[|d|] == rest[0] == t[0];
        DecimalPrefixOf(d, s);
        assert s[..|d|] == d;
        assert forall i | 0 <= i < |gs[1..]| :: gs[1..][i] == gs[i + 1];
        MatchPiecesComplete(p[1..], gs[1..], s[|d|..]);
        assert gs == [d] + gs[1..];
    }
  }

  /** Matches `": \((\d+\.\d+), (\d+\.\d+)\)` at the start of `s` and
      returns the two coordinate groups. */
  function MatchCoords(s: string): Option<seq<string>> {
    MatchPieces(CoordsPattern, s)
  }

  lemma CoordsGroups()
    ensures Groups(CoordsPattern) == 2
  {
    var p := CoordsPattern;
    assert p[1..][1..][1..][1..][1..] == [];
    assert Groups(p[1..][1..][1..][1..]) == 0;
    assert Groups(p[1..][1..][1..]) == 1;
    assert Groups(p[1..][1..]) == 1;
    assert Groups(p[1..]) == 2;
  }

  /** The pattern with its two groups filled in is the coordinates part of
      a line. */
  lemma RenderCoords(lat: string, lon: string)
    ensures Groups(CoordsPattern) == 2
    ensures Render(CoordsPattern, [lat, lon]) == CoordsText(lat, lon)
  {
    CoordsGroups();
    var p := CoordsPattern;
    var p4 := p[1..][1..][1..][1..];
    assert p4[1..] == [];
    assert Render(p4, []) == ")";
    var p3 := p[1..][1..][1..];
    assert Render(p3, [lon]) == lon + ")" by {
      assert [lon][1..] == [];
    }
    assert Render(p[1..][1..], [lon]) == ", " + (lon + ")");
    assert Render(p[1..], [lat, lon]) == lat + (", " + (lon + ")")) by {
      assert [lat, lon][1..] == [lon];
    }
  }

  /** What `MatchCoords` returns is two decimals laid out as the pattern
      wants at the start of `s`. */
  lemma MatchCoordsSound(s: string)
    ensures var r := MatchCoords(s);
      r.Some? ==>
        |r.value| == 2 && IsDecimal(r.value[0]) && IsDecimal(r.value[1]) && CoordsText(r.value[0], r.value[1]) <= s
  {
    MatchPiecesSound(CoordsPattern, s);
    CoordsGroups();
    if MatchCoords(s).Some? {
      var gs := MatchCoords(s).value;
      RenderCoords(gs[0], gs[1]);
      assert gs == [gs[0], gs[1]];
    }
  }

  /** The coordinates part has exactly one match: `MatchCoords` finds any
      decimals laid out as the pattern wants. */
  lemma MatchCoordsComplete(s: string, lat: string, lon: string)
    requires IsDecimal(lat) && IsDecimal(lon)
    requires CoordsText(lat, lon) <= s
    ensures MatchCoords(s) == Some([lat, lon])
  {
    RenderCoords(lat, lon);
    var p := CoordsPattern;
    assert Separated(p) by {
      assert p[1] == Group && p[2] == Lit(", ") && p[3] == Group && p[4] == Lit(")");
    }
    MatchPiecesComplete(p, [lat, lon], s);
  }

  /** Longest newline-free prefix: what the greedy `.+` first takes. */
  function NameRun(s: string): (n: nat)
    ensures n <= |s|
    decreases |s|
  {
    if |s| > 0 && s[0] != '\n' then 1 + NameRun(s[1..]) else 0
  }

  /** The run is free of line feeds and stops only at one or at the end. */
  lemma {:induction false} NameRunSound(s: string)
    ensures NoNewline(s[..NameRun(s)])
    ensures NameRun(s) < |s| ==> s[NameRun(s)] == '\n'
    decreases |s|
  {
    if |s| > 0 && s[0] != '\n' {
      NameRunSound(s[1..]);
      assert s[..NameRun(s)] == [s[0]] + s[1..][..NameRun(s[1..])];
    }
  }

  /** A prefix of a line-feed-free name is line-feed free. */
  lemma NoNewlinePrefix(line: string, j: nat, n: nat)
    requires j <= n && 1 + n <= |line| && NoNewline(line[1..1 + n])
    ensures NoNewline(line[1..1 + j])
  {
    assert line[1..1 + j] == line[1..1 + n][..j];
  }

  /** The regex engine's backtracking over the name: try a name of `k`
      characters, then `k - 1`, down to one; the result is the first length
      `j` at which `hit(j)`, the rest of the pattern matching after a name
      of that length. */
  function Backtrack(hit: nat -> bool, k: nat): (r: Option<nat>)
    ensures r.Some? ==> 0 < r.value <= k && hit(r.value)
    decreases k
  {
    if k == 0 then None
    else if hit(k) then Some(k)
    else Backtrack(hit, k - 1)
  }

  /** Whether the coordinates match after a name of `j` characters. */
  function CoordsAfter(line: string): nat -> bool {
    (j: nat) => 1 + j <= |line| && MatchCoords(line[1 + j..]).Some?
  }

  /** The entry for a name length at which the coordinates match. */
  function EntryAt(line: string, j: nat): (e: Entry)
    requires 0 < j && 1 + j <= |line| && MatchCoords(line[1 + j..]).Some?
    ensures e.name == line[1..1 + j]
  {
    MatchCoordsSound(line[1 + j..]);
    var gs := MatchCoords(line[1 + j..]).value;
    Entry(line[1..1 + j], gs[0], gs[1])
  }

  /** The entry is a split of the line the pattern allows. */
  lemma EntryAtSound(line: string, j: nat)
    requires 0 < j && 1 + j <= |line| && line[0] == '"' && NoNewline(line[1..1 + j])
    requires MatchCoords(line[1 + j..]).Some?
    ensures var e := EntryAt(line, j); SplitsAt(line, |e.name|, e.lat, e.lon) && ValidEntry(e)
  {
    MatchCoordsSound(line[1 + j..]);
  }

  /** `re.match` of the location pattern against a (stripped) line. */
  function ParseLine(line: string): Option<Entry> {
    if |line| == 0 || line[0] != '"' then None
    else
      var n := NameRun(line[1..]);
      match Backtrack(CoordsAfter(line), n)
      case None => None
      case Some(j) => Some(EntryAt(line, j))
  }

  /** What `ParseLine` captures is a split of the line the pattern allows:
      the name is the text after the opening quote, and the two groups are
      decimals. */
  lemma ParseLineSound(line: string)
    ensures var r := ParseLine(line);
      r.Some? ==>
        && ValidEntry(r.value)
        && SplitsAt(line, |r.value.name|, r.value.lat, r.value.lon)
        && r.value.name == line[1..1 + |r.value.name|]
  {
    if ParseLine(line).Some? {
      var n := NameRun(line[1..]);
      var j := Backtrack(CoordsAfter(line), n).value;
      NameRunSound(line[1..]);
      assert line[1..1 + n] == line[1..][..n];
      NoNewlinePrefix(line, j, n);
      EntryAtSound(line, j);
    }
  }

  /** Backtracking from `top` finds the longest length at or below `top`
      that works. */
  lemma {:induction false} BacktrackFinds(hit: nat -> bool, top: nat, k: nat)
    requires 0 < k <= top && hit(k)
    ensures Backtrack(hit, top).Some?
    ensures k <= Backtrack(hit, top).value
    decreases top
  {
    if top > k && !hit(top) {
      BacktrackFinds(hit, top - 1, k);
    }
  }

  /** The line parses iff the pattern can split it, and the captured name
      is the longest of all possible splits. */
  lemma ParseLineComplete(line: string, k: nat, lat: string, lon: string)
    requires SplitsAt(line, k, lat, lon)
    ensures ParseLine(line).Some?
    ensures k <= |ParseLine(line).value.name|
  {
    var n := NameRun(line[1..]);
    NameRunCovers(line, k);
    MatchCoordsComplete(line[1 + k..], lat, lon);
    BacktrackFinds(CoordsAfter(line), n, k);
    ParseLineBacktracks(line, n, Backtrack(CoordsAfter(line), n).value);
  }

  /** `ParseLine` returns the entry at the length backtracking lands on. */
  lemma ParseLineBacktracks(line: string, n: nat, j: nat)
    requires |line| > 0 && line[0] == '"' && 1 + n <= |line| && n == NameRun(line[1..])
    requires Backtrack(CoordsAfter(line), n) == Some(j)
    ensures ParseLine(line).Some? && |ParseLine(line).value.name| == j
  {
  }

  /** A line-feed-free name of length `k` lies inside what the greedy
      `.+` first takes. */
  lemma NameRunCovers(line: string, k: nat)
    requires 1 + k <= |line| && NoNewline(line[1..1 + k])
    ensures k <= NameRun(line[1..])
  {
    NameRunSound(line[1..]);
  }

  /** A line whose first character is not a double quote contributes no
      name: the header `Latitude,...` and every CSV record that starts with
      a latitude are ignored. */
  lemma NoQuoteNoMatch(line: string)
    requires |line| == 0 || line[0] != '"'
    ensures ParseLine(line) == None
  {
  }

  lemma DecimalHasNoQuote(d: string, i: nat)
    requires IsDecimal(d) && i < |d|
    ensures d[i] != '"'
  {
    var p :| 0 < p < |d| - 1 && d[p] == '.' && AllDigits(d[..p]) && AllDigits(d[p + 1..]);
    if i < p {
      assert d[..p][i] == d[i];
    } else if i > p {
      assert d[p + 1..][i - p - 1] == d[i];
    }
  }

  /** Only the first character of the coordinates part is a double quote. */
  lemma CoordsTextQuoteOnlyFirst(lat: string, lon: string, i: nat)
    requires IsDecimal(lat) && IsDecimal(lon)
    requires 0 < i < |CoordsText(lat, lon)|
    ensures CoordsText(lat, lon)[i] != '"'
  {
    var c := CoordsText(lat, lon);
    if i < |Separator| {
    } else if i < |Separator| + |lat| {
      assert c[i] == lat[i - |Separator|];
      DecimalHasNoQuote(lat, i - |Separator|);
    } else if i < |Separator| + |lat| + 2 {
    } else if i < |Separator| + |lat| + 2 + |lon| {
      assert c[i] == lon[i - |Separator| - |lat| - 2];
      DecimalHasNoQuote(lon, i - |Separator| - |lat| - 2);
    }
  }

  /** The line `save_failed_request` appends, line feed included. */
  function FailureLine(e: Entry): string {
    "\"" + e.name + CoordsText(e.lat, e.lon) + "\n"
  }

  /** The line a valid entry is written as, without its line feed. */
  function EntryText(e: Entry): string {
    "\"" + e.name + CoordsText(e.lat, e.lon)
  }

  lemma StripFailureLine(e: Entry)
    requires ValidEntry(e)
    ensures Strip(FailureLine(e)) == EntryText(e)
  {
    var line := EntryText(e);
    assert FailureLine(e) == "" + line + "\n";
    assert line[|line| - 1] == ')';
    StripPadded("", line, "\n");
  }

  /** The pattern reads a written entry back: no longer name fits, because
      no later character of the line is a double quote. */
  lemma ParseEntryText(e: Entry)
    requires ValidEntry(e)
    ensures ParseLine(EntryText(e)) == Some(e)
  {
    var coords := CoordsText(e.lat, e.lon);
    var line := EntryText(e);
    var k := |e.name|;
    assert line[1..1 + k] == e.name;
    assert line[1 + k..] == coords;
    ParseLineComplete(line, k, e.lat, e.lon);
    var found := ParseLine(line).value;
    var m := |found.name|;
    if m > k {
      assert line[1 + m] == coords[m - k];
      CoordsTextQuoteOnlyFirst(e.lat, e.lon, m - k);
      assert false;
    }
    MatchCoordsComplete(line[1 + k..], e.lat, e.lon);
    MatchCoordsComplete(line[1 + k..], found.lat, found.lon);
  }

  /** Reading back a failure-log line recovers the entry that was written,
      provided the pattern could have produced it in the first place. */
  lemma FailureLineRoundTrip(e: Entry)
    requires ValidEntry(e)
    ensures ParseLine(Strip(FailureLine(e))) == Some(e)
  {
    StripFailureLine(e);
    ParseEntryText(e);
  }
}
