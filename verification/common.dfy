/** Text and dictionary helpers shared by the two batch scripts and the
    front-end: Python's `str.strip()`, ASCII digit runs and their decimal
    value, and insertion-ordered dictionaries (Python `dict`, JavaScript
    object) as sequences of key/value fields. */
module Common {

  datatype Option<+T> = None | Some(value: T)

  /** The ASCII characters for which Python's `str.isspace()` holds: tab,
      line feed, vertical tab, form feed, carriage return, the information
      separators 0x1C-0x1F, and space. */
  predicate IsSpace(c: char) {
    c == ' ' || 9 <= c as int <= 13 || 28 <= c as int <= 31
  }

  /** A string with no whitespace at either end. */
  predicate Trimmed(s: string) {
    |s| == 0 || (!IsSpace(s[0]) && !IsSpace(s[|s| - 1]))
  }

  predicate AllSpace(s: string) {
    forall k | 0 <= k < |s| :: IsSpace(s[k])
  }

  /** Number of whitespace characters at the start of `s`. */
  function LeadingSpace(s: string): (n: nat)
    ensures n <= |s|
    ensures AllSpace(s[..n])
    ensures n < |s| ==> !IsSpace(s[n])
    decreases |s|
  {
    if |s| > 0 && IsSpace(s[0]) then 1 + LeadingSpace(s[1..]) else 0
  }

  /** Number of whitespace characters at the end of `s`. */
  function TrailingSpace(s: string): (n: nat)
    ensures n <= |s|
    ensures AllSpace(s[|s| - n..])
    ensures n < |s| ==> !IsSpace(s[|s| - n - 1])
    decreases |s|
  {
    if |s| > 0 && IsSpace(s[|s| - 1]) then 1 + TrailingSpace(s[..|s| - 1]) else 0
  }

  /** Python's `str.strip()` without arguments. */
  function Strip(s: string): (r: string)
    ensures Trimmed(r)
    ensures |r| <= |s|
  {
    var t := s[LeadingSpace(s)..];
    t[..|t| - TrailingSpace(t)]
  }

  /** The leading-space count is the one position that satisfies its contract. */
  lemma LeadingSpaceIs(s: string, n: nat)
    requires n <= |s| && AllSpace(s[..n]) && (n < |s| ==> !IsSpace(s[n]))
    ensures LeadingSpace(s) == n
    decreases |s|
  {
    if n > 0 {
      assert s[..n][0] == s[0];
      assert s[1..][..n - 1] == s[..n][1..];
      LeadingSpaceIs(s[1..], n - 1);
    }
  }

  lemma TrailingSpaceIs(s: string, n: nat)
    requires n <= |s| && AllSpace(s[|s| - n..]) && (n < |s| ==> !IsSpace(s[|s| - n - 1]))
    ensures TrailingSpace(s) == n
  {
  }

  /** Strip removes exactly the surrounding whitespace: whatever trimmed text
      sits between two runs of whitespace comes back unchanged. */
  lemma StripPadded(pre: string, core: string, post: string)
    requires AllSpace(pre) && AllSpace(post) && Trimmed(core)
    ensures Strip(pre + core + post) == core
  {
    var s := pre + core + post;
    if |core| == 0 {
      assert s == pre + post;
      assert AllSpace(s[..|s|]) by { assert s[..|s|] == s; }
      LeadingSpaceIs(s, |s|);
    } else {
      assert s[..|pre|] == pre;
      assert s[|pre|] == core[0];
      LeadingSpaceIs(s, |pre|);
      var t := s[|pre|..];
      assert t == core + post;
      assert t[|t| - |post|..] == post;
      assert t[|t| - |post| - 1] == core[|core| - 1];
      TrailingSpaceIs(t, |post|);
      assert t[..|t| - |post|] == core;
    }
  }

  /** A string that starts with a non-space keeps its first character. */
  lemma StripKeepsFirst(s: string)
    requires |s| > 0 && !IsSpace(s[0])
    ensures |Strip(s)| > 0 && Strip(s)[0] == s[0]
  {
    LeadingSpaceIs(s, 0);
    assert s[0..] == s;
  }

  /** A string that is already trimmed is left alone. */
  lemma StripTrimmed(s: string)
    requires Trimmed(s)
    ensures Strip(s) == s
  {
    assert "" + s + "" == s;
    StripPadded("", s, "");
  }

  predicate IsDigit(c: char) {
    '0' <= c <= '9'
  }

  /** Every character is an ASCII digit (`\d` and `str.isdigit` restricted
      to ASCII). */
  predicate AllDigits(s: string) {
    forall k | 0 <= k < |s| :: IsDigit(s[k])
  }

  /** Length of the longest run of digits at the start of `s`: what a
      greedy `\d+` (or `\d*`) consumes. */
  function DigitRun(s: string): (n: nat)
    ensures n <= |s|
    ensures AllDigits(s[..n])
    ensures n < |s| ==> !IsDigit(s[n])
    decreases |s|
  {
    if |s| > 0 && IsDigit(s[0]) then 1 + DigitRun(s[1..]) else 0
  }

  /** A run of digits ending before a non-digit is the digit run. */
  lemma DigitRunIs(s: string, n: nat)
    requires n <= |s| && AllDigits(s[..n]) && (n < |s| ==> !IsDigit(s[n]))
    ensures DigitRun(s) == n
    decreases |s|
  {
    if n > 0 {
      assert s[..n][0] == s[0];
      assert s[1..][..n - 1] == s[..n][1..];
      DigitRunIs(s[1..], n - 1);
    }
  }

  /** The value of a string of decimal digits, as Python's `int()` and
      JavaScript's array-index conversion read it. */
  function DigitsValue(s: string): nat
    requires AllDigits(s)
    decreases |s|
  {
    if |s| == 0 then 0
    else
      10 * DigitsValue(s[..|s| - 1]) + (s[|s| - 1] as int - '0' as int)
  }

  /** One key/value pair of an insertion-ordered dictionary. */
  datatype Field = Field(key: string, value: string)

  /** A Python `dict` or JavaScript object: no key occurs twice. */
  predicate UniqueKeys(d: seq<Field>) {
    forall i, j | 0 <= i < j < |d| :: d[i].key != d[j].key
  }

  /** A dictionary proper: a sequence of fields with distinct keys. */
  type Dict = d: seq<Field> | UniqueKeys(d) witness []

  function Keys(d: seq<Field>): set<string> {
    set f | f in d :: f.key
  }

  /** Position of the first field with key `key`, searching from `from`. */
  function IndexFrom(d: seq<Field>, key: string, from: nat): (r: Option<nat>)
    requires from <= |d|
    ensures r.Some? ==> from <= r.value < |d| && d[r.value].key == key
    ensures r.Some? ==> forall j | from <= j < r.value :: d[j].key != key
    ensures r.None? ==> forall j | from <= j < |d| :: d[j].key != key
    decreases |d| - from
  {
    if from == |d| then None
    else if d[from].key == key then Some(from)
    else IndexFrom(d, key, from + 1)
  }

  /** Position of the field with key `key`, if any. */
  function IndexOf(d: seq<Field>, key: string): (r: Option<nat>)
    ensures r.None? <==> key !in Keys(d)
    ensures r.Some? ==> r.value < |d| && d[r.value].key == key
    ensures r.Some? ==> forall j | 0 <= j < r.value :: d[j].key != key
  {
    var r := IndexFrom(d, key, 0);
    assert r.Some? ==> d[r.value] in d;
    r
  }

  /** Dictionary lookup (`d.get(key)`, `obj[key]`). */
  function Get(d: seq<Field>, key: string): (r: Option<string>)
    ensures r.None? <==> key !in Keys(d)
    ensures r.Some? ==> Field(key, r.value) in d
    ensures UniqueKeys(d) ==> forall f | f in d && f.key == key :: r == Some(f.value)
  {
    match IndexOf(d, key)
    case Some(i) =>
      assert d[i] == Field(key, d[i].value);
      Some(d[i].value)
    case None => None
  }

  /** Python `d[key] = value`: an existing key keeps its position and takes
      the new value, a new key goes at the end. */
  function Put(d: seq<Field>, key: string, value: string): (r: seq<Field>)
    ensures key in Keys(d) ==> |r| == |d| && forall i | 0 <= i < |d| :: r[i].key == d[i].key
    ensures key !in Keys(d) ==> r == d + [Field(key, value)]
  {
    match IndexOf(d, key)
    case Some(i) => d[i := Field(key, value)]
    case None => d + [Field(key, value)]
  }

  /** What a `Put` does to the dictionary, seen through its keys and
      lookups. */
  lemma PutSpec(d: seq<Field>, key: string, value: string)
    ensures Get(Put(d, key, value), key) == Some(value)
    ensures forall k | k != key :: Get(Put(d, key, value), k) == Get(d, k)
    ensures Keys(Put(d, key, value)) == Keys(d) + {key}
    ensures UniqueKeys(d) ==> UniqueKeys(Put(d, key, value))
  {
    var r := Put(d, key, value);
    match IndexOf(d, key)
    case Some(i) =>
      forall k ensures IndexOf(r, k) == IndexOf(d, k) {
        FirstIndexUnique(r, d, k);
      }
      forall k | k in Keys(d) + {key} ensures k in Keys(r) {
        var j :| 0 <= j < |d| && d[j].key == k;
        assert r[j] in r;
      }
    case None =>
      assert r[|d|] == Field(key, value);
      forall k | k != key ensures IndexOf(r, k) == IndexOf(d, k) {
        FirstIndexUnique(r, d, k);
      }
  }

  /** Two dictionaries with the same key at every common position find a
      key at the same first position, when each finds it within the other. */
  lemma FirstIndexUnique(a: seq<Field>, b: seq<Field>, k: string)
    requires forall i | 0 <= i < |a| && i < |b| :: a[i].key == b[i].key
    requires IndexOf(b, k).Some? ==> IndexOf(b, k).value < |a|
    requires IndexOf(a, k).Some? ==> IndexOf(a, k).value < |b|
    ensures IndexOf(a, k) == IndexOf(b, k)
  {
  }

  /** Python `d.update(fields)`: the fields are put one after another,
      so the existing keys keep their places. */
  function PutAll(d: seq<Field>, fields: seq<Field>): (r: seq<Field>)
    ensures |d| <= |r| && forall i | 0 <= i < |d| :: r[i].key == d[i].key
    decreases |fields|
  {
    if |fields| == 0 then d
    else PutAll(Put(d, fields[0].key, fields[0].value), fields[1..])
  }

  /** After an update, a key is present iff it was before or the update
      names it; a key the update does not name keeps its value; a key it
      names takes the update's value. */
  lemma {:induction false} PutAllSpec(d: seq<Field>, fields: seq<Field>, k: string)
    ensures k in Keys(PutAll(d, fields)) <==> k in Keys(d) || k in Keys(fields)
    ensures k !in Keys(fields) ==> Get(PutAll(d, fields), k) == Get(d, k)
    ensures UniqueKeys(fields) && k in Keys(fields) ==>
      Get(PutAll(d, fields), k) == Get(fields, k)
    decreases |fields|
  {
    if |fields| > 0 {
      var f := fields[0];
      assert Keys(fields) == {f.key} + Keys(fields[1..]) by {
        assert fields == [f] + fields[1..];
      }
      var m := Put(d, f.key, f.value);
      PutSpec(d, f.key, f.value);
      PutAllSpec(m, fields[1..], k);
      if UniqueKeys(fields) && k == f.key {
        assert k !in Keys(fields[1..]);
        assert f in fields;
      }
    }
  }

  /** An update keeps a dictionary's keys distinct. */
  lemma {:induction false} PutAllUnique(d: seq<Field>, fields: seq<Field>)
    requires UniqueKeys(d)
    ensures UniqueKeys(PutAll(d, fields))
    decreases |fields|
  {
    if |fields| > 0 {
      PutSpec(d, fields[0].key, fields[0].value);
      PutAllUnique(Put(d, fields[0].key, fields[0].value), fields[1..]);
    }
  }

  lemma ConsAppend(d: seq<Field>, fields: seq<Field>)
    requires |fields| > 0
    ensures d + fields == (d + [Field(fields[0].key, fields[0].value)]) + fields[1..]
  {
    assert fields == [fields[0]] + fields[1..];
  }

  lemma PutNew(d: seq<Field>, key: string, value: string)
    requires forall i | 0 <= i < |d| :: d[i].key != key
    ensures Put(d, key, value) == d + [Field(key, value)]
  {
    assert key !in Keys(d) by {
      forall g | g in d ensures g.key != key {
        var i :| 0 <= i < |d| && d[i] == g;
      }
    }
  }

  /** Updating with fields whose keys are all new appends them in order. */
  lemma {:induction false} PutAllFresh(d: seq<Field>, fields: seq<Field>)
    requires UniqueKeys(fields)
    requires forall i, j | 0 <= i < |d| && 0 <= j < |fields| :: d[i].key != fields[j].key
    ensures PutAll(d, fields) == d + fields
    decreases |fields|
  {
    if |fields| > 0 {
      var f := fields[0];
      var rest := fields[1..];
      PutNew(d, f.key, f.value);
      var m := Put(d, f.key, f.value);
      assert forall i, j | 0 <= i < |m| && 0 <= j < |rest| :: m[i].key != rest[j].key by {
        forall i, j | 0 <= i < |m| && 0 <= j < |rest| ensures m[i].key != rest[j].key {
          assert rest[j] == fields[j + 1];
          if i < |d| {
            assert m[i] == d[i];
          }
        }
      }
      PutAllFresh(m, rest);
      ConsAppend(d, fields);
    }
  }
}
