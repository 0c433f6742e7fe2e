/** The rows the fetch script builds from a successful API reply and the
    way a batch of them is written to the CSV file: the month filter, the
    row dictionary, the column header and `csv.DictWriter`'s rendering. */
module Rows {
  import opened Common
  import opened StringOrder
  import opened LocationLine

  const LatitudeKey: string := "Latitude"
  const LongitudeKey: string := "Longitude"
  const LocationKey: string := "Location"

  /** The three leading CSV columns, in order. */
  const FixedColumns: seq<string> := [LatitudeKey, LongitudeKey, LocationKey]

  /** A row dictionary, in insertion order. */
  type Row = seq<Field>

  /** One CSV record: its cells, left to right. */
  type Record = seq<string>

  function DigitValue(c: char): int {
    c as int - '0' as int
  }

  /** `int(k[-2:])` for a string of digits: the value of its last two
      digits, or of its only digit. */
  function LastTwoValue(k: string): int
    requires |k| > 0
  {
    if |k| == 1 then DigitValue(k[0])
    else 10 * DigitValue(k[|k| - 2]) + DigitValue(k[|k| - 1])
  }

  /** `k.isdigit() and int(k[-2:]) <= 12`: the keys kept from the reply. */
  predicate IsMonthKey(k: string) {
    |k| > 0 && AllDigits(k) && LastTwoValue(k) <= 12
  }

  /** The filter keeps the twelve monthly keys, drops the annual key `13`,
      and, read literally, also keeps a month `00`. */
  lemma MonthKeyExamples()
    ensures IsMonthKey("202301") && IsMonthKey("202312")
    ensures !IsMonthKey("202313") && IsMonthKey("202300")
    ensures !IsMonthKey("") && !IsMonthKey(LatitudeKey)
  {
    assert !IsDigit(LatitudeKey[0]);
  }

  /** A kept key is all digits, so it never names a fixed column. */
  lemma MonthKeyNotFixed(k: string)
    requires IsMonthKey(k)
    ensures k !in FixedColumns
  {
    assert IsDigit(k[0]);
  }

  /** The dictionary comprehension at the month filter, in reply order. */
  function MonthsOnly(series: Dict): (r: Dict)
    ensures forall f :: f in r <==> f in series && IsMonthKey(f.key)
    decreases |series|
  {
    if |series| == 0 then []
    else
      assert series == [series[0]] + series[1..];
      var rest := MonthsOnly(series[1..]);
      if IsMonthKey(series[0].key) then
        assert forall f | f in rest :: f.key != series[0].key by {
          forall f | f in rest ensures f.key != series[0].key {
            var j :| 0 <= j < |series[1..]| && series[1..][j] == f;
            assert series[j + 1] == f;
          }
        }
        [series[0]] + rest
      else rest
  }

  function MonthKeys(series: seq<Field>): set<string> {
    set f | f in series && IsMonthKey(f.key) :: f.key
  }

  /** No kept key names a fixed column. */
  lemma MonthsOnlyNotFixed(series: Dict)
    ensures forall k | k in Keys(MonthsOnly(series)) :: k !in FixedColumns
  {
    forall k | k in Keys(MonthsOnly(series)) ensures k !in FixedColumns {
      var f :| f in MonthsOnly(series) && f.key == k;
      MonthKeyNotFixed(k);
    }
  }

  function FixedFields(e: Entry): Row {
    [Field(LatitudeKey, e.lat), Field(LongitudeKey, e.lon), Field(LocationKey, e.name)]
  }

  /** The row of one location (`row = {...}; row.update(filtered_data)`):
      the fixed fields first, then the kept monthly values in reply order.
      The update only appends, since no kept key names a fixed column;
      `MakeRowIsUpdate` shows that. */
  function MakeRow(e: Entry, series: Dict): (r: Dict)
    ensures |r| >= 3 && r[..3] == FixedFields(e)
    ensures Keys(r) == {LatitudeKey, LongitudeKey, LocationKey} + MonthKeys(series)
    ensures forall k | IsMonthKey(k) :: Get(r, k) == Get(series, k)
  {
    var fixed := FixedFields(e);
    var months := MonthsOnly(series);
    MonthsOnlyNotFixed(series);
    assert Keys(fixed) == {LatitudeKey, LongitudeKey, LocationKey};
    assert Keys(months) == MonthKeys(series);
    var r := fixed + months;
    assert UniqueKeys(r) by {
      forall i, j | 0 <= i < j < |r| ensures r[i].key != r[j].key {
        if i < 3 && 3 <= j {
          assert r[j] == months[j - 3] && r[j].key in Keys(months);
        }
      }
    }
    assert Keys(r) == Keys(fixed) + Keys(months);
    forall k | IsMonthKey(k) ensures Get(r, k) == Get(series, k) {
      MonthKeyNotFixed(k);
      if k in Keys(series) {
        var f :| f in series && f.key == k;
        assert f in months;
      }
    }
    r
  }

  /** The row is exactly what Python's `dict.update` produces from the
      fixed fields and the filtered reply. */
  lemma MakeRowIsUpdate(e: Entry, series: Dict)
    ensures MakeRow(e, series) == PutAll(FixedFields(e), MonthsOnly(series))
  {
    var fixed := FixedFields(e);
    var months := MonthsOnly(series);
    MonthsOnlyNotFixed(series);
    forall i, j | 0 <= i < |fixed| && 0 <= j < |months|
      ensures fixed[i].key != months[j].key
    {
      assert fixed[i].key == FixedColumns[i];
      assert months[j] in months;
    }
    PutAllFresh(fixed, months);
  }

  /** The keys of a row, in order. */
  function RowKeys(row: Row): (r: seq<string>)
    ensures forall k :: k in r <==> k in Keys(row)
  {
    var r := seq(|row|, i requires 0 <= i < |row| => row[i].key);
    assert forall k | k in Keys(row) :: k in r by {
      forall k | k in Keys(row) ensures k in r {
        var f :| f in row && f.key == k;
        var i :| 0 <= i < |row| && row[i] == f;
        assert r[i] == k;
      }
    }
    r
  }

  /** `k` is a key of some row of the batch. */
  predicate InBatch(batch: seq<Row>, k: string) {
    exists i | 0 <= i < |batch| :: k in Keys(batch[i])
  }

  /** Every key of every row, in order, repeats included. */
  function BatchKeys(batch: seq<Row>): (r: seq<string>)
    ensures forall k :: k in r <==> InBatch(batch, k)
    decreases |batch|
  {
    if |batch| == 0 then []
    else
      var r := BatchKeys(batch[..|batch| - 1]) + RowKeys(batch[|batch| - 1]);
      assert forall k | InBatch(batch, k) :: k in r by {
        forall k | InBatch(batch, k) ensures k in r {
          var i :| 0 <= i < |batch| && k in Keys(batch[i]);
          if i < |batch| - 1 {
            assert batch[..|batch| - 1][i] == batch[i];
          }
        }
      }
      r
  }

  /** The keys that are not fixed columns. */
  function NotFixed(ks: seq<string>): (r: seq<string>)
    ensures forall k :: k in r <==> k in ks && k !in FixedColumns
    decreases |ks|
  {
    if |ks| == 0 then []
    else
      assert ks == [ks[0]] + ks[1..];
      var rest := NotFixed(ks[1..]);
      if ks[0] in FixedColumns then rest else [ks[0]] + rest
  }

  /** The `fieldnames` of a flush: the fixed columns, then the sorted union
      of every other key of the batch. */
  function Header(batch: seq<Row>): (h: seq<string>)
    ensures |h| >= 3 && h[..3] == FixedColumns
    ensures forall k | InBatch(batch, k) :: k in h
  {
    var tail := SortedSet(NotFixed(BatchKeys(batch)));
    var h := FixedColumns + tail;
    assert forall k | InBatch(batch, k) :: k in h by {
      forall k | InBatch(batch, k) ensures k in h {
        if k !in FixedColumns {
          assert k in tail;
        }
      }
    }
    h
  }

  /** After the fixed columns the header is strictly increasing, holds
      exactly the batch's other keys, and no column appears twice. */
  lemma HeaderSpec(batch: seq<Row>)
    ensures StrictlySorted(Header(batch)[3..])
    ensures forall k :: k in Header(batch)[3..] <==> InBatch(batch, k) && k !in FixedColumns
    ensures Distinct(Header(batch))
  {
    var tail := SortedSet(NotFixed(BatchKeys(batch)));
    var h := Header(batch);
    assert h == FixedColumns + tail;
    assert h[3..] == tail;
    StrictlySortedDistinct(tail);
    forall i, j | 0 <= i < j < |h| ensures h[i] != h[j] {
      if 3 <= i {
        assert h[i] == tail[i - 3] && h[j] == tail[j - 3];
      } else if 3 <= j {
        assert h[j] in tail;
      }
    }
  }

  /** A batch whose rows, beyond the fixed columns, have the keys 202301,
      202305 and 202312 between them gets the header
      `Latitude,Longitude,Location,202301,202305,202312`. */
  lemma HeaderExample(batch: seq<Row>)
    requires forall k :: InBatch(batch, k) && k !in FixedColumns <==>
      k == "202301" || k == "202305" || k == "202312"
    ensures Header(batch) ==
      ["Latitude", "Longitude", "Location", "202301", "202305", "202312"]
  {
    var h := Header(batch);
    HeaderSpec(batch);
    var want := ExampleMonths();
    ExampleMonthsSorted();
    StrictlySortedUnique(h[3..], want);
    assert h == h[..3] + h[3..];
  }

  function ExampleMonths(): seq<string> {
    ["202301", "202305", "202312"]
  }

  lemma ExampleMonthsSorted()
    ensures StrictlySorted(ExampleMonths())
  {
    assert Less("202301", "202305") && Less("202305", "202312");
    LessTransitive("202301", "202305", "202312");
  }

  /** A cell under column `key`: the row's value, or `restval` (empty). */
  function Cell(row: Row, key: string): (c: string)
    ensures key in Keys(row) ==> Field(key, c) in row
    ensures key !in Keys(row) ==> c == ""
  {
    match Get(row, key)
    case Some(v) => v
    case None => ""
  }

  /** `DictWriter.writerow` with the default `extrasaction="raise"`: a row
      with a key outside the field names is refused (ValueError), any other
      row becomes one cell per field name. */
  function RenderRow(fieldnames: seq<string>, row: Row): (r: Option<Record>)
    ensures r.None? <==> exists f | f in row :: f.key !in fieldnames
    ensures r.Some? ==> |r.value| == |fieldnames|
    ensures r.Some? ==> forall j | 0 <= j < |fieldnames| :: r.value[j] == Cell(row, fieldnames[j])
  {
    if forall f | f in row :: f.key in fieldnames then
      Some(seq(|fieldnames|, j requires 0 <= j < |fieldnames| => Cell(row, fieldnames[j])))
    else None
  }

  /** Every row of a batch fits under that batch's header. */
  lemma HeaderFitsBatch(batch: seq<Row>, i: nat)
    requires i < |batch|
    ensures RenderRow(Header(batch), batch[i]).Some?
  {
    var h := Header(batch);
    forall f | f in batch[i] ensures f.key in h {
      assert InBatch(batch, f.key);
    }
  }

  /** One flush: append the batch under its header, preceded by the header
      record exactly when the file is empty. */
  function WriteBatch(file: seq<Record>, batch: seq<Row>): (r: seq<Record>)
    ensures |r| == |file| + (if |file| == 0 then 1 else 0) + |batch|
    ensures r[..|file|] == file
    ensures |file| == 0 ==> r[0] == Header(batch)
    ensures forall i | 0 <= i < |batch| ::
      RenderRow(Header(batch), batch[i]) == Some(r[|r| - |batch| + i])
  {
    var h := Header(batch);
    var records := seq(|batch|, i requires 0 <= i < |batch| =>
      HeaderFitsBatch(batch, i);
      RenderRow(h, batch[i]).value);
    file + (if |file| == 0 then [h] else []) + records
  }

  /** A field under one of the fixed columns is written in that column's
      cell. */
  lemma FixedCellWritten(batch: seq<Row>, i: nat, j: nat)
    requires i < |batch| && UniqueKeys(batch[i])
    requires j < 3 && j < |batch[i]| && batch[i][j].key == FixedColumns[j]
    ensures RenderRow(Header(batch), batch[i]).Some?
    ensures RenderRow(Header(batch), batch[i]).value[j] == batch[i][j].value
  {
    HeaderFitsBatch(batch, i);
    var h := Header(batch);
    var row := batch[i];
    assert h[j] == FixedColumns[j];
    assert row[j] in row;
  }

  /** A row built by `MakeRow` is written with the location's latitude,
      longitude and name in its first three cells. */
  lemma WrittenRowStartsWithEntry(batch: seq<Row>, i: nat, e: Entry, series: Dict)
    requires i < |batch| && batch[i] == MakeRow(e, series)
    ensures RenderRow(Header(batch), batch[i]).Some?
    ensures var rec := RenderRow(Header(batch), batch[i]).value;
      rec[0] == e.lat && rec[1] == e.lon && rec[2] == e.name
  {
    var row := batch[i];
    assert row[0] == row[..3][0] && row[1] == row[..3][1] && row[2] == row[..3][2];
    FixedCellWritten(batch, i, 0);
    FixedCellWritten(batch, i, 1);
    FixedCellWritten(batch, i, 2);
  }
}
