/** The lookups of the map page: the dictionary from location name to
    published row, the fill colour's presence check, and the bars of the
    tooltip chart. Drawing, projection, zoom and the colour scale are
    not modelled; values stay as their text. */
module FrontEnd {
  import opened Common
  import opened Rows
  import opened JsObject

  /** `entry.Location` used as a property key: a missing field reads as
      `undefined`, whose key is the text "undefined". */
  function LocationOf(entry: Dict): (k: string)
    ensures Get(entry, LocationKey).Some? ==> k == Get(entry, LocationKey).value
    ensures Get(entry, LocationKey).None? ==> k == "undefined"
  {
    match Get(entry, LocationKey)
    case Some(v) => v
    case None => "undefined"
  }

  /** `processData`: each entry in array order is stored under its
      location, replacing an earlier one with the same location. */
  function ProcessData(entries: seq<Dict>): map<string, Dict>
    decreases |entries|
  {
    if |entries| == 0 then map[]
    else
      var last := entries[|entries| - 1];
      ProcessData(entries[..|entries| - 1])[LocationOf(last) := last]
  }

  /** Every entry's location is a key of the dictionary. */
  lemma {:induction false} ProcessDataCovers(entries: seq<Dict>)
    ensures forall i | 0 <= i < |entries| :: LocationOf(entries[i]) in ProcessData(entries)
    decreases |entries|
  {
    if |entries| > 0 {
      var n := |entries| - 1;
      var init := entries[..n];
      ProcessDataCovers(init);
      forall i | 0 <= i < n ensures LocationOf(entries[i]) in ProcessData(entries) {
        assert entries[i] == init[i];
      }
    }
  }

  /** Every key of the dictionary holds, unchanged, an entry with that
      location. */
  lemma {:induction false} ProcessDataFrom(entries: seq<Dict>)
    ensures forall k | k in ProcessData(entries) ::
      exists i | 0 <= i < |entries| :: LocationOf(entries[i]) == k && ProcessData(entries)[k] == entries[i]
    decreases |entries|
  {
    if |entries| > 0 {
      var n := |entries| - 1;
      var init := entries[..n];
      ProcessDataFrom(init);
      var m := ProcessData(entries);
      forall k | k in m
        ensures exists i | 0 <= i < |entries| :: LocationOf(entries[i]) == k && m[k] == entries[i]
      {
        if k == LocationOf(entries[n]) {
          assert m[k] == entries[n];
        } else {
          var i :| 0 <= i < |init| && LocationOf(init[i]) == k && ProcessData(init)[k] == init[i];
          assert entries[i] == init[i];
        }
      }
    }
  }

  /** The entry stored under a location is the last one with it. */
  lemma {:induction false} ProcessDataLastWins(entries: seq<Dict>, i: nat)
    requires i < |entries|
    requires forall j | i < j < |entries| :: LocationOf(entries[j]) != LocationOf(entries[i])
    ensures LocationOf(entries[i]) in ProcessData(entries)
    ensures ProcessData(entries)[LocationOf(entries[i])] == entries[i]
    decreases |entries|
  {
    var n := |entries| - 1;
    if i < n {
      var init := entries[..n];
      assert init[i] == entries[i];
      forall j | i < j < |init| ensures LocationOf(init[j]) != LocationOf(init[i]) {
        assert init[j] == entries[j];
      }
      ProcessDataLastWins(init, i);
    }
  }

  /** Duplicate locations: the later entry wins. */
  lemma LastEntryWins(a: Dict, b: Dict)
    requires LocationOf(a) == LocationOf(b)
    ensures ProcessData([a, b]) == map[LocationOf(b) := b]
  {
    assert [a, b][..1] == [a] && [a][..0] == [];
    assert ProcessData([a]) == map[LocationOf(a) := a];
  }

  /** Regions without data are painted this grey. */
  const NoDataColour: string := "#f0f0f0"

  /** A region's fill: the flat grey, or a colour from the scale applied to
      the values shown (the scale itself is not modelled). */
  datatype Paint = Flat(colour: string) | Scaled(values: seq<string>)

  function Fill(data: map<string, Dict>, region: string): Paint {
    if region in data then Scaled(Selected(data[region])) else Flat(NoDataColour)
  }

  /** The month labels of the chart. */
  const Months: seq<string> :=
    ["1월", "2월", "3월", "4월", "5월", "6월", "7월", "8월", "9월", "10월", "11월", "12월"]

  /** Bar width in the chart. */
  const BarWidth: int := 15

  /** One bar of the chart and its label. */
  datatype Bar = Bar(x: int, labelX: int, month: string, value: string)

  function Bars(values: seq<string>): (bars: seq<Bar>)
    requires |values| <= |Months|
    ensures |bars| == |values|
  {
    seq(|values|, i requires 0 <= i < |values| => Bar(50 + i * 20, 58 + i * 20, Months[i], values[i]))
  }

  /** The tooltip's chart, built only for a region with an entry. */
  function Tooltip(data: map<string, Dict>, region: string): Option<seq<Bar>> {
    if region in data then Some(Bars(Selected(data[region]))) else None
  }

  /** The grey fill and the missing chart go together: both mean exactly
      that no entry has the region's name as its location. */
  lemma PresenceSpec(entries: seq<Dict>, region: string)
    ensures Fill(ProcessData(entries), region) == Flat(NoDataColour) <==>
      forall i | 0 <= i < |entries| :: LocationOf(entries[i]) != region
    ensures Tooltip(ProcessData(entries), region).None? <==>
      forall i | 0 <= i < |entries| :: LocationOf(entries[i]) != region
  {
    ProcessDataCovers(entries);
    ProcessDataFrom(entries);
  }

  /** Bar `i` stands at `50 + 20 i` with its label, month `i + 1`, at
      `58 + 20 i`; bars are 20 apart, never overlap, and stay on the x axis
      from 40 to 300. */
  lemma BarsLayout(values: seq<string>)
    requires |values| <= |Months|
    ensures forall i | 0 <= i < |values| ::
      Bars(values)[i].x == 50 + 20 * i && Bars(values)[i].labelX == 58 + 20 * i &&
      Bars(values)[i].month == Months[i] && Bars(values)[i].value == values[i]
    ensures forall i | 0 <= i < |values| :: 40 < Bars(values)[i].x && Bars(values)[i].x + BarWidth <= 300
    ensures forall i | 0 <= i < |values| - 1 :: Bars(values)[i].x + BarWidth < Bars(values)[i + 1].x
  {
  }

  /** The fixed columns are never among the values shown when a row has at
      least twelve array-index keys. */
  lemma SelectedSkipsFixedColumns(obj: Dict)
    requires |SortIndexKeys(CreationOrder(obj))| >= 12
    ensures forall i | 0 <= i < |SelectedKeys(obj)| :: SelectedKeys(obj)[i] !in FixedColumns
  {
    SelectedAreSmallestIndices(obj);
    FixedColumnsNotIndices();
  }

  lemma FixedColumnsNotIndices()
    ensures forall k | k in FixedColumns :: !IsArrayIndex(k)
  {
    assert !IsDigit(LatitudeKey[0]) && !IsDigit(LongitudeKey[0]) && !IsDigit(LocationKey[0]);
  }

  /** For a region whose row has at least twelve array-index keys, the
      chart has twelve bars, labelled with the months in order, showing the
      values of the twelve smallest array-index keys in ascending order. */
  lemma TooltipShowsMonths(data: map<string, Dict>, region: string)
    requires region in data
    requires |SortIndexKeys(CreationOrder(data[region]))| >= 12
    ensures Tooltip(data, region).Some? && |Tooltip(data, region).value| == 12
    ensures |SelectedKeys(data[region])| == 12
    ensures forall i | 0 <= i < 12 ::
      Tooltip(data, region).value[i].month == Months[i] &&
      Field(SelectedKeys(data[region])[i], Tooltip(data, region).value[i].value) in data[region]
  {
    var obj := data[region];
    SelectedAreSmallestIndices(obj);
    SelectedValues(obj);
  }
}
