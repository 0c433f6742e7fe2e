/** The order in which a JavaScript object lists its own string keys
    (`OrdinaryOwnPropertyKeys`, section 10.1.11.1 of ECMA-262): first the
    array-index keys in ascending numeric order, then the other keys in the
    order they were created. `Object.values(row).slice(0, 12)` on the map
    page reads the values in this order. */
module JsObject {
  import opened Common
  import opened StringOrder

  /** The largest array index, 2^32 - 2 (section 6.1.7 of ECMA-262). */
  const MaxArrayIndex: nat := 4294967294

  /** A key that is an array index: a canonical numeric string (decimal
      digits without a leading zero, or "0") whose value is at most
      `MaxArrayIndex`. */
  predicate IsArrayIndex(k: string) {
    Canonical(k) && DigitsValue(k) <= MaxArrayIndex
  }

  /** Decimal digits without a leading zero, or "0". */
  predicate Canonical(s: string) {
    |s| > 0 && AllDigits(s) && (|s| == 1 || s[0] != '0')
  }

  /** The number of decimal digits `ToString` writes for `v`. */
  function DigitCount(v: nat): (r: nat)
    ensures r >= 1
  {
    if v < 10 then 1 else 1 + DigitCount(v / 10)
  }

  /** A canonical digit string is as long as its value's decimal form. */
  lemma {:induction false} CanonicalLength(s: string)
    requires Canonical(s)
    ensures |s| == DigitCount(DigitsValue(s))
    decreases |s|
  {
    if |s| > 1 {
      var p := s[..|s| - 1];
      assert p[0] == s[0];
      CanonicalLength(p);
      assert DigitsValue(p) >= 1;
    }
  }

  /** Digit strings of one length are told apart by their values. */
  lemma {:induction false} DigitsValueInjective(a: string, b: string)
    requires AllDigits(a) && AllDigits(b) && |a| == |b|
    requires DigitsValue(a) == DigitsValue(b)
    ensures a == b
    decreases |a|
  {
    if |a| > 0 {
      var n := |a| - 1;
      DigitsValueInjective(a[..n], b[..n]);
      assert a == a[..n] + [a[n]] && b == b[..n] + [b[n]];
    }
  }

  /** Two array-index keys with the same value are the same key. */
  lemma ArrayIndexInjective(a: string, b: string)
    requires IsArrayIndex(a) && IsArrayIndex(b)
    requires DigitsValue(a) == DigitsValue(b)
    ensures a == b
  {
    CanonicalLength(a);
    CanonicalLength(b);
    DigitsValueInjective(a, b);
  }

  /** Array-index keys in strictly ascending numeric order. */
  predicate Ascending(s: seq<string>) {
    (forall i | 0 <= i < |s| :: IsArrayIndex(s[i])) &&
    (forall i, j | 0 <= i < j < |s| :: DigitsValue(s[i]) < DigitsValue(s[j]))
  }

  /** Insert a new array-index key into an ascending sequence. */
  function InsertIndex(s: seq<string>, k: string): (r: seq<string>)
    requires Ascending(s) && IsArrayIndex(k) && k !in s
    ensures Ascending(r)
    ensures |r| == |s| + 1
    ensures forall y :: y in r <==> y in s || y == k
    decreases |s|
  {
    if |s| == 0 then [k]
    else if DigitsValue(k) < DigitsValue(s[0]) then
      assert forall j | 0 <= j < |s| :: DigitsValue(k) < DigitsValue(s[j]);
      [k] + s
    else
      assert DigitsValue(k) != DigitsValue(s[0]) by {
        if DigitsValue(k) == DigitsValue(s[0]) {
          ArrayIndexInjective(k, s[0]);
        }
      }
      var tail := InsertIndex(s[1..], k);
      InsertAbove(s, k, tail);
      assert s == [s[0]] + s[1..];
      [s[0]] + tail
  }

  lemma InsertAbove(s: seq<string>, k: string, tail: seq<string>)
    requires Ascending(s) && |s| > 0 && IsArrayIndex(k) && Ascending(tail)
    requires DigitsValue(s[0]) < DigitsValue(k)
    requires forall y :: y in tail <==> y in s[1..] || y == k
    ensures forall j | 0 <= j < |tail| :: DigitsValue(s[0]) < DigitsValue(tail[j])
  {
    forall j | 0 <= j < |tail| ensures DigitsValue(s[0]) < DigitsValue(tail[j]) {
      var y := tail[j];
      assert y in tail;
      if y != k {
        var m :| 0 <= m < |s[1..]| && s[1..][m] == y;
        assert s[m + 1] == y;
      }
    }
  }

  lemma DistinctTail(s: seq<string>)
    requires Distinct(s) && |s| > 0
    ensures Distinct(s[1..]) && s[0] !in s[1..]
  {
    forall i, j | 0 <= i < j < |s[1..]| ensures s[1..][i] != s[1..][j] {
      assert s[1..][i] == s[i + 1] && s[1..][j] == s[j + 1];
    }
  }

  lemma DistinctCons(a: string, t: seq<string>)
    requires Distinct(t) && a !in t
    ensures Distinct([a] + t)
  {
    var r := [a] + t;
    forall i, j | 0 <= i < j < |r| ensures r[i] != r[j] {
      assert r[j] == t[j - 1];
      if i > 0 {
        assert r[i] == t[i - 1];
      }
    }
  }

  /** The strings a sequence holds. */
  function Elements(s: seq<string>): set<string> {
    set x | x in s
  }

  /** A sequence without repeats is as long as its set of elements is
      large. */
  lemma {:induction false} DistinctCard(s: seq<string>)
    requires Distinct(s)
    ensures |Elements(s)| == |s|
    decreases |s|
  {
    if |s| == 0 {
      assert Elements(s) == {};
    } else {
      DistinctTail(s);
      DistinctCard(s[1..]);
      assert Elements(s) == {s[0]} + Elements(s[1..]);
    }
  }

  /** The array-index keys among `keys`, in ascending numeric order. */
  function SortIndexKeys(keys: seq<string>): (r: seq<string>)
    requires Distinct(keys)
    ensures Ascending(r)
    ensures |r| <= |keys|
    ensures forall y :: y in r <==> y in keys && IsArrayIndex(y)
    decreases |keys|
  {
    if |keys| == 0 then []
    else
      var init := keys[..|keys| - 1];
      var last := keys[|keys| - 1];
      var sorted := SortIndexKeys(init);
      if IsArrayIndex(last) then InsertIndex(sorted, last) else sorted
  }

  /** The keys that are not array indices, in their own order. */
  function OtherKeys(keys: seq<string>): (r: seq<string>)
    ensures forall y :: y in r <==> y in keys && !IsArrayIndex(y)
    ensures Distinct(keys) ==> Distinct(r)
    decreases |keys|
  {
    if |keys| == 0 then []
    else
      var tail := OtherKeys(keys[1..]);
      DistinctKept(keys, tail);
      if IsArrayIndex(keys[0]) then tail else [keys[0]] + tail
  }

  /** Keeping the first key in front of a repeat-free selection from the
      rest leaves no repeats. */
  lemma DistinctKept(keys: seq<string>, tail: seq<string>)
    requires |keys| > 0
    requires forall y :: y in tail ==> y in keys[1..]
    requires Distinct(keys[1..]) ==> Distinct(tail)
    ensures Distinct(keys) ==> Distinct(tail) && Distinct([keys[0]] + tail)
  {
    if Distinct(keys) {
      DistinctTail(keys);
      DistinctCons(keys[0], tail);
    }
  }

  /** Dropping the array-index keys distributes over concatenation, so the
      keys kept stay in the order they came in. */
  lemma {:induction false} OtherKeysAppend(a: seq<string>, b: seq<string>)
    ensures OtherKeys(a + b) == OtherKeys(a) + OtherKeys(b)
    decreases |a|
  {
    if |a| == 0 {
      assert a + b == b;
    } else {
      assert (a + b)[0] == a[0] && (a + b)[1..] == a[1..] + b;
      OtherKeysAppend(a[1..], b);
    }
  }

  /** The keys of an object, in the order they were created. */
  function CreationOrder(obj: Dict): (r: seq<string>)
    ensures |r| == |obj| && Distinct(r)
    ensures forall i | 0 <= i < |obj| :: r[i] == obj[i].key
  {
    seq(|obj|, i requires 0 <= i < |obj| => obj[i].key)
  }

  /** `[[OwnPropertyKeys]]` of an ordinary object with string keys only. */
  function OwnPropertyKeys(obj: Dict): (r: seq<string>)
    ensures forall y :: y in r <==> y in Keys(obj)
    ensures Distinct(r) && |r| == |obj|
  {
    var keys := CreationOrder(obj);
    var r := SortIndexKeys(keys) + OtherKeys(keys);
    IndexKeysThenOthers(keys);
    r
  }

  /** Each key once: the index keys are ascending, the other keys have no
      repeats, and no key is in both parts. So the list is as long as the
      keys it is built from. */
  lemma IndexKeysThenOthers(keys: seq<string>)
    requires Distinct(keys)
    ensures Distinct(SortIndexKeys(keys) + OtherKeys(keys))
    ensures |SortIndexKeys(keys) + OtherKeys(keys)| == |keys|
  {
    var s := SortIndexKeys(keys);
    var o := OtherKeys(keys);
    var r := s + o;
    forall i, j | 0 <= i < j < |r| ensures r[i] != r[j] {
      if j < |s| {
        assert r[i] == s[i] && r[j] == s[j];
      } else if i >= |s| {
        assert r[i] == o[i - |s|] && r[j] == o[j - |s|];
      } else {
        assert r[i] == s[i] && r[j] == o[j - |s|];
        assert o[j - |s|] in o;
      }
    }
    DistinctCard(r);
    DistinctCard(keys);
    assert Elements(r) == Elements(keys);
  }

  /** The own keys are the array-index keys in ascending numeric order,
      followed only by keys that are not array indices. */
  lemma OwnPropertyKeysOrder(obj: Dict)
    ensures var n := |SortIndexKeys(CreationOrder(obj))|;
      n <= |OwnPropertyKeys(obj)| && Ascending(OwnPropertyKeys(obj)[..n]) &&
      forall i | n <= i < |OwnPropertyKeys(obj)| :: !IsArrayIndex(OwnPropertyKeys(obj)[i])
  {
    var keys := CreationOrder(obj);
    var s := SortIndexKeys(keys);
    var o := OtherKeys(keys);
    var r := OwnPropertyKeys(obj);
    assert r == s + o;
    assert r[..|s|] == s;
    forall i | |s| <= i < |r| ensures !IsArrayIndex(r[i]) {
      assert r[i] == o[i - |s|];
      assert o[i - |s|] in o;
    }
  }

  /** `Object.values(obj)`. */
  function Values(obj: Dict): (r: seq<string>)
    ensures |r| == |OwnPropertyKeys(obj)|
    ensures forall i | 0 <= i < |r| :: Field(OwnPropertyKeys(obj)[i], r[i]) in obj
  {
    var keys := OwnPropertyKeys(obj);
    seq(|keys|, i requires 0 <= i < |keys| => ValueAt(obj, keys[i]))
  }

  /** The value of a key the object has. */
  function ValueAt(obj: Dict, k: string): (v: string)
    requires k in Keys(obj)
    ensures Field(k, v) in obj
  {
    Get(obj, k).value
  }

  /** `.slice(0, 12)`: at most the first twelve. */
  function Selected(obj: Dict): (r: seq<string>)
    ensures |r| == if |Values(obj)| < 12 then |Values(obj)| else 12
    ensures r <= Values(obj)
  {
    var vs := Values(obj);
    if |vs| < 12 then vs else vs[..12]
  }

  /** The keys whose values `Selected` picks. */
  function SelectedKeys(obj: Dict): seq<string> {
    var keys := OwnPropertyKeys(obj);
    if |keys| < 12 then keys else keys[..12]
  }

  /** With at least twelve array-index keys, the keys taken are the first
      twelve in ascending numeric order. */
  lemma SelectedKeysSorted(obj: Dict)
    requires |SortIndexKeys(CreationOrder(obj))| >= 12
    ensures SelectedKeys(obj) == SortIndexKeys(CreationOrder(obj))[..12]
  {
    var sorted := SortIndexKeys(CreationOrder(obj));
    assert OwnPropertyKeys(obj)[..12] == sorted[..12];
  }

  /** Every value taken belongs to the key at the same position. */
  lemma SelectedValues(obj: Dict)
    ensures |Selected(obj)| == |SelectedKeys(obj)|
    ensures forall i | 0 <= i < |Selected(obj)| :: Field(SelectedKeys(obj)[i], Selected(obj)[i]) in obj
  {
    var vs := Values(obj);
    var keys := OwnPropertyKeys(obj);
    forall i | 0 <= i < |Selected(obj)|
      ensures Field(SelectedKeys(obj)[i], Selected(obj)[i]) in obj
    {
      assert Selected(obj)[i] == vs[i];
      assert SelectedKeys(obj)[i] == keys[i];
    }
  }

  /** With at least twelve array-index keys, the twelve values taken are
      those of the twelve smallest array-index keys, in ascending order: no
      named field such as "Latitude" is among them. */
  lemma SelectedAreSmallestIndices(obj: Dict)
    requires |SortIndexKeys(CreationOrder(obj))| >= 12
    ensures |SelectedKeys(obj)| == 12
    ensures Ascending(SelectedKeys(obj))
    ensures forall k | k in Keys(obj) && IsArrayIndex(k) && k !in SelectedKeys(obj) ::
      forall i | 0 <= i < 12 :: DigitsValue(SelectedKeys(obj)[i]) < DigitsValue(k)
  {
    SelectedKeysSorted(obj);
    forall k | k in Keys(obj) && IsArrayIndex(k) && k !in SelectedKeys(obj)
      ensures forall i | 0 <= i < 12 :: DigitsValue(SelectedKeys(obj)[i]) < DigitsValue(k)
    {
      UnselectedIndexAbove(obj, k);
    }
  }

  /** An array-index key left out lies above all twelve taken. */
  lemma UnselectedIndexAbove(obj: Dict, k: string)
    requires |SortIndexKeys(CreationOrder(obj))| >= 12
    requires k in Keys(obj) && IsArrayIndex(k) && k !in SelectedKeys(obj)
    ensures |SelectedKeys(obj)| == 12
    ensures forall i | 0 <= i < 12 :: DigitsValue(SelectedKeys(obj)[i]) < DigitsValue(k)
  {
    var keys := CreationOrder(obj);
    var sorted := SortIndexKeys(keys);
    SelectedKeysSorted(obj);
    var f :| f in obj && f.key == k;
    var j :| 0 <= j < |obj| && obj[j] == f;
    assert keys[j] == k;
    var p :| 0 <= p < |sorted| && sorted[p] == k;
    assert p >= 12;
    assert forall i | 0 <= i < 12 :: DigitsValue(sorted[i]) < DigitsValue(sorted[p]);
  }

  /** The months of the data are array indices. */
  lemma MonthKeyIsIndex()
    ensures IsArrayIndex("202301") && DigitsValue("202301") == 202301
  {
    assert "20"[..1] == "2" && DigitsValue("2") == 2;
    assert "202"[..2] == "20" && DigitsValue("20") == 20;
    assert "2023"[..3] == "202" && DigitsValue("202") == 202;
    assert "20230"[..4] == "2023" && DigitsValue("2023") == 2023;
    assert "202301"[..5] == "20230" && DigitsValue("20230") == 20230;
  }

  lemma ExampleKeys()
    ensures !IsArrayIndex("Location") && IsArrayIndex("10") && IsArrayIndex("9")
    ensures DigitsValue("9") < DigitsValue("10")
  {
    assert !IsDigit("Location"[0]);
    assert "10"[..1] == "1";
  }

  lemma ExampleSort()
    ensures SortIndexKeys(["Location", "10", "9"]) == ["9", "10"]
  {
    ExampleKeys();
    var k1: seq<string> := ["Location"];
    var k2: seq<string> := ["Location", "10"];
    var k3: seq<string> := ["Location", "10", "9"];
    assert k1[..0] == [] && k2[..1] == k1 && k3[..2] == k2;
    assert SortIndexKeys(k1) == [];
    assert InsertIndex([], "10") == ["10"];
    assert SortIndexKeys(k2) == ["10"];
    assert InsertIndex(["10"], "9") == ["9", "10"];
  }

  lemma ExampleOthers()
    ensures OtherKeys(["Location", "10", "9"]) == ["Location"]
  {
    ExampleKeys();
    var k3: seq<string> := ["Location", "10", "9"];
    assert k3[1..] == ["10", "9"] && k3[1..][1..] == ["9"] && k3[1..][1..][1..] == [];
  }

  lemma ExampleOrder(keys: seq<string>)
    requires keys == ["Location", "10", "9"]
    ensures SortIndexKeys(keys) == ["9", "10"] && OtherKeys(keys) == ["Location"]
  {
    ExampleSort();
    ExampleOthers();
  }

  lemma ExampleOwnKeys(obj: Dict)
    requires obj == [Field("Location", "Seoul"), Field("10", "4.1"), Field("9", "3.9")]
    ensures OwnPropertyKeys(obj) == ["9", "10", "Location"]
  {
    ExampleOrder(CreationOrder(obj));
  }

  /** Array indices come out first and in numeric, not string, order;
      other keys follow in creation order. */
  lemma ValuesExample(obj: Dict)
    requires obj == [Field("Location", "Seoul"), Field("10", "4.1"), Field("9", "3.9")]
    ensures Values(obj) == ["3.9", "4.1", "Seoul"]
  {
    ExampleOwnKeys(obj);
    var vs := Values(obj);
    ValueAtField(obj, 2);
    ValueAtField(obj, 1);
    ValueAtField(obj, 0);
    assert vs[0] == "3.9" && vs[1] == "4.1" && vs[2] == "Seoul";
  }

  lemma ValueAtField(obj: Dict, i: nat)
    requires i < |obj|
    ensures obj[i].key in Keys(obj) && ValueAt(obj, obj[i].key) == obj[i].value
  {
    assert obj[i] in obj;
  }
}
