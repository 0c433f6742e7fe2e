/** The text `csv.writer` puts in the CSV file (`QUOTE_MINIMAL`, delimiter
    `,`, line terminator CR LF) and the lines the resume scan reads back
    from it. */
module CsvText {
  import opened Common
  import opened LocationLine
  import opened LocationFiles
  import opened Rows

  /** Characters that force a cell into quotes. */
  predicate Special(c: char) {
    c == ',' || c == '"' || c == '\r' || c == '\n'
  }

  predicate Plain(cell: string) {
    forall k | 0 <= k < |cell| :: !Special(cell[k])
  }

  /** A quote inside a quoted cell is doubled. */
  function Escape(cell: string): (r: string)
    ensures |r| >= |cell|
    decreases |cell|
  {
    if |cell| == 0 then ""
    else (if cell[0] == '"' then "\"\"" else [cell[0]]) + Escape(cell[1..])
  }

  /** How a reader undoes `Escape` inside quotes: a doubled quote stands
      for one. */
  function Unescape(text: string): string
    decreases |text|
  {
    if |text| == 0 then ""
    else if |text| >= 2 && text[0] == '"' && text[1] == '"' then "\"" + Unescape(text[2..])
    else [text[0]] + Unescape(text[1..])
  }

  /** Doubling the quotes loses nothing: the reader gets the cell back. */
  lemma {:induction false} EscapeRoundTrip(cell: string)
    ensures Unescape(Escape(cell)) == cell
    decreases |cell|
  {
    if |cell| > 0 {
      EscapeRoundTrip(cell[1..]);
      var e := Escape(cell);
      if cell[0] == '"' {
        assert e[2..] == Escape(cell[1..]);
      } else {
        assert e[1..] == Escape(cell[1..]);
      }
      assert cell == [cell[0]] + cell[1..];
    }
  }

  /** One cell as written: left alone unless it holds a special character. */
  function Quote(cell: string): (r: string)
    ensures Plain(cell) ==> r == cell
    ensures !Plain(cell) ==> |r| >= 2 && r[0] == '"' && r[|r| - 1] == '"'
  {
    if Plain(cell) then cell else "\"" + Escape(cell) + "\""
  }

  function Join(cells: seq<string>): (r: string)
    ensures |cells| > 0 ==> |cells[0]| <= |r| && r[..|cells[0]|] == cells[0]
    decreases |cells|
  {
    if |cells| == 0 then ""
    else if |cells| == 1 then cells[0]
    else cells[0] + "," + Join(cells[1..])
  }

  /** A record as one line of text, without its terminator. A record that
      is a single empty cell is written as `""` so that it is not read back
      as an empty line. */
  function RecordText(rec: Record): string {
    if |rec| == 1 && rec[0] == "" then "\"\""
    else Join(seq(|rec|, i requires 0 <= i < |rec| => Quote(rec[i])))
  }

  /** The file's lines as Python's text-mode iteration yields them: the CR LF
      terminator reads back as `\n`. Each record is one line when none of
      its cells holds a line break. */
  function FileLines(file: seq<Record>): (lines: seq<string>)
    ensures |lines| == |file|
  {
    seq(|file|, i requires 0 <= i < |file| => RecordText(file[i]) + "\n")
  }

  /** A record whose first cell is the `Latitude` header or a latitude
      written as digits and a point. */
  predicate LatitudeFirst(rec: Record) {
    |rec| > 0 && (rec[0] == LatitudeKey || IsDecimal(rec[0]))
  }

  lemma LatitudeFirstLine(rec: Record)
    requires LatitudeFirst(rec)
    ensures |RecordText(rec) + "\n"| > 0
    ensures (RecordText(rec) + "\n")[0] == rec[0][0]
    ensures !IsSpace(rec[0][0]) && rec[0][0] != '"'
  {
    var c := rec[0];
    if c == LatitudeKey {
      assert Plain(c);
    } else {
      var p :| 0 < p < |c| - 1 && c[p] == '.' && AllDigits(c[..p]) && AllDigits(c[p + 1..]);
      forall k | 0 <= k < |c| ensures !Special(c[k]) {
        if k < p {
          assert c[..p][k] == c[k];
        } else if k > p {
          assert c[p + 1..][k - p - 1] == c[k];
        }
      }
      assert c[..p][0] == c[0];
    }
    var cells := seq(|rec|, i requires 0 <= i < |rec| => Quote(rec[i]));
    assert cells[0] == c;
  }

  /** The resume scan of a CSV file finds no name: every line starts with
      the first cell, which is never a double quote, so the location
      pattern never matches. */
  lemma CsvScanFindsNothing(file: seq<Record>)
    requires forall i | 0 <= i < |file| :: LatitudeFirst(file[i])
    ensures LoadExisting(Some(FileLines(file))) == {}
  {
    var lines := FileLines(file);
    LoadExistingSpec(Some(lines));
    forall x ensures x !in LoadExisting(Some(lines)) {
      if x in LoadExisting(Some(lines)) {
        var i :| 0 <= i < |lines| && Read(lines[i]).Located? && Read(lines[i]).entry.name == x;
        LatitudeFirstLine(file[i]);
        StripKeepsFirst(lines[i]);
        NoQuoteNoMatch(Strip(lines[i]));
        assert false;
      }
    }
  }

  /** A row whose first field is a latitude written as digits and a point,
      as every row the fetch script builds is. */
  predicate LatitudeRow(row: Row) {
    UniqueKeys(row) && |row| > 0 && row[0].key == LatitudeKey && IsDecimal(row[0].value)
  }

  /** A flush keeps every record latitude-first, provided each row of the
      batch starts with its latitude. */
  lemma WriteBatchLatitudeFirst(file: seq<Record>, batch: seq<Row>)
    requires forall i | 0 <= i < |file| :: LatitudeFirst(file[i])
    requires forall i | 0 <= i < |batch| :: LatitudeRow(batch[i])
    ensures forall i | 0 <= i < |WriteBatch(file, batch)| :: LatitudeFirst(WriteBatch(file, batch)[i])
  {
    var r := WriteBatch(file, batch);
    var off := |r| - |batch|;
    forall i | 0 <= i < |r| ensures LatitudeFirst(r[i]) {
      if i < |file| {
        assert r[..|file|][i] == r[i];
      } else if i < off {
        assert r[i] == Header(batch);
      } else {
        FixedCellWritten(batch, i - off, 0);
      }
    }
  }
}
