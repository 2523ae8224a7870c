/** The store of the C API in `fileprop.c`: a `zprop` whose `data` array
    holds `count` slots, a key at each even index and its value (or NULL)
    at the next. The array is the sequence `data`, and `count` is its
    length. Reallocation and string copies can fail in C; their outcomes
    are parameters here (`Alloc`). */
module FileProp {
  import opened Options
  import opened Chars
  import opened Slots
  import opened FilePropText
  import opened Decimal

  /** What the allocator does for one `_zp_add_value`: whether growing the
      slot array succeeds, and whether copying the string succeeds. */
  datatype Alloc = Alloc(grows: bool, copies: bool)

  const Int32Max: int := 0x7FFF_FFFF

  /** The result of a store operation: its return value and the new slots. */
  datatype Outcome = Outcome(ok: bool, data: seq<Option<string>>)

  /** `_zp_indexof`: the index of the first key slot equal to `key`, or -1;
      a NULL key is never found, and a NULL key slot never matches. */
  function KeyIndex(data: seq<Option<string>>, key: Option<string>): (r: int)
    ensures -1 <= r < |data|
  {
    if key.None? then -1 else FindKey(data, key)
  }

  /** `zp_get`: the value slot of the first pair with `key`, or NULL. */
  function Lookup(data: seq<Option<string>>, key: Option<string>): Option<string>
    requires |data| % 2 == 0
  {
    var i := KeyIndex(data, key);
    if i >= 0 then data[i + 1] else None
  }

  /** `zp_contains` as written: it compares the index with `INT32_MAX`. */
  function PresentAsWritten(data: seq<Option<string>>, key: Option<string>): bool {
    KeyIndex(data, key) != Int32Max
  }

  /** `zp_contains` as intended: the index is not -1. */
  function Present(data: seq<Option<string>>, key: Option<string>): bool {
    KeyIndex(data, key) != -1
  }

  /** The index is -1 or even, never the odd `INT32_MAX`, so `zp_contains`
      as written is true for every key, even one the store does not hold. */
  lemma ContainsAsWrittenAlwaysTrue(data: seq<Option<string>>, key: Option<string>)
    ensures PresentAsWritten(data, key)
    ensures Present(data, key) <==> key.Some? && FindKey(data, key) >= 0
  {
  }

  /** `_zp_add_value`: one slot appended. A NULL or empty string gives a
      NULL slot; otherwise a copy, escape-decoded for a value. When the
      array cannot grow nothing changes; when the copy fails the new slot
      goes again, and for a value the key slot before it too. */
  function SlotAdded(data: seq<Option<string>>, s: Option<string>, isValue: bool, alloc: Alloc): Outcome
    requires isValue && s.Some? && s.value != [] && alloc.grows && !alloc.copies ==> |data| >= 1
  {
    if !alloc.grows then Outcome(false, data)
    else if s.None? || s.value == [] then Outcome(true, data + [None])
    else if alloc.copies then Outcome(true, data + [Some(if isValue then Unescape(s.value) else s.value)])
    else if isValue then Outcome(false, data[..|data| - 1])
    else Outcome(false, data)
  }

  /** A key slot, then a value slot, as `zp_add` and `_zp_app_property`
      append them: the value is tried only after the key went in. */
  function PairAdded(data: seq<Option<string>>, key: Option<string>, value: Option<string>, forKey: Alloc, forValue: Alloc): Outcome {
    var first := SlotAdded(data, key, false, forKey);
    if !first.ok then first
    else SlotAdded(first.data, value, true, forValue)
  }

  /** What `_zp_replace` stores: NULL for NULL, else the decoded copy (an
      empty string stays an empty string, unlike `_zp_add_value`). */
  function Replacement(value: Option<string>): Option<string> {
    if value.None? then None else Some(Unescape(value.value))
  }

  /** `_zp_replace`: the value slot of the first pair with `key` overwritten,
      when the key is there and the copy succeeds. */
  function Replaced(data: seq<Option<string>>, key: Option<string>, value: Option<string>, copies: bool): Outcome
    requires |data| % 2 == 0
  {
    var i := KeyIndex(data, key);
    if i >= 0 && (value.None? || copies) then Outcome(true, data[i + 1 := Replacement(value)])
    else Outcome(false, data)
  }

  /** `zp_add` as written: a blank or NULL key is refused; a key that
      `zp_contains` reports is replaced; anything else is appended. */
  function AddedAsWritten(data: seq<Option<string>>, key: Option<string>, value: Option<string>, forKey: Alloc, forValue: Alloc): Outcome
    requires |data| % 2 == 0
  {
    if key.None? || AllBlank(key.value) then Outcome(false, data)
    else if PresentAsWritten(data, key) then Replaced(data, key, value, forValue.copies)
    else PairAdded(data, key, value, forKey, forValue)
  }

  /** `zp_add` as documented: the value of a present key is replaced, a new
      key is appended with its value. */
  function Added(data: seq<Option<string>>, key: Option<string>, value: Option<string>, forKey: Alloc, forValue: Alloc): Outcome
    requires |data| % 2 == 0
  {
    if key.None? || AllBlank(key.value) then Outcome(false, data)
    else if Present(data, key) then Replaced(data, key, value, forValue.copies)
    else PairAdded(data, key, value, forKey, forValue)
  }

  /** The value a successful add leaves for a new key. */
  function Stored(value: Option<string>): Option<string> {
    if value.None? || value.value == [] then None else Some(Unescape(value.value))
  }

  /** As written, `zp_add` never adds a new key: the key is reported
      present, `_zp_replace` finds no pair and fails, and the store stays
      as it was. As documented, the same call appends the pair. */
  lemma AddAsWrittenDropsNewKeys(data: seq<Option<string>>, key: string, value: Option<string>, forKey: Alloc, forValue: Alloc)
    requires |data| % 2 == 0
    requires !AllBlank(key) && FindKey(data, Some(key)) == -1
    ensures AddedAsWritten(data, Some(key), value, forKey, forValue) == Outcome(false, data)
    ensures forKey == Alloc(true, true) && forValue == Alloc(true, true) ==>
      Added(data, Some(key), value, forKey, forValue) == Outcome(true, data + [Some(key), Stored(value)])
  {
    ContainsAsWrittenAlwaysTrue(data, Some(key));
    if forKey == Alloc(true, true) && forValue == Alloc(true, true) {
      assert key != [];
      assert data + [Some(key)] + [Stored(value)] == data + [Some(key), Stored(value)];
    }
  }

  /** The slot count after appending a pair. Both slots go in on success.
      When the key slot goes in and the array cannot grow for the value,
      the key slot stays: the only failure that leaves an odd count (a copy
      failure for the value takes the key slot back). */
  lemma PairAddedLeavesLoneKey(data: seq<Option<string>>, key: Option<string>, value: Option<string>, forKey: Alloc, forValue: Alloc)
    ensures PairAdded(data, key, value, forKey, forValue).ok ==>
      |PairAdded(data, key, value, forKey, forValue).data| == |data| + 2
    ensures |PairAdded(data, key, value, forKey, forValue).data| == |data| + 1 <==>
      forKey.grows && (key.None? || key.value == [] || forKey.copies) && !forValue.grows
    ensures |PairAdded(data, key, value, forKey, forValue).data| == |data| + 1 ==>
      PairAdded(data, key, value, forKey, forValue) ==
        Outcome(false, data + [if key.None? || key.value == [] then None else key])
    ensures |PairAdded(data, key, value, forKey, forValue).data| in {|data|, |data| + 1, |data| + 2}
  {
  }

  /** `zp_add` (corrected) leaves an odd slot count exactly when a new key
      went in and the array could not grow for its value; the lone key then
      stays and `zp_add` returns false. Every success keeps the count even. */
  lemma AddedLeavesLoneKey(data: seq<Option<string>>, key: Option<string>, value: Option<string>, forKey: Alloc, forValue: Alloc)
    requires |data| % 2 == 0
    ensures Added(data, key, value, forKey, forValue).ok ==> |Added(data, key, value, forKey, forValue).data| % 2 == 0
    ensures |Added(data, key, value, forKey, forValue).data| % 2 == 1 <==>
      key.Some? && !AllBlank(key.value) && !Present(data, key) && forKey.grows && forKey.copies && !forValue.grows
    ensures |Added(data, key, value, forKey, forValue).data| % 2 == 1 ==>
      Added(data, key, value, forKey, forValue) == Outcome(false, data + [key])
  {
    if key.Some? && !AllBlank(key.value) && !Present(data, key) {
      assert key.value != [];
      PairAddedLeavesLoneKey(data, key, value, forKey, forValue);
    }
  }

  /** After an add that succeeded, the key reads back as the decoded value:
      `Stored` for a new key, `Replacement` for a present one. */
  lemma AddedThenLookup(data: seq<Option<string>>, key: string, value: Option<string>, forKey: Alloc, forValue: Alloc)
    requires |data| % 2 == 0
    requires Added(data, Some(key), value, forKey, forValue).ok
    ensures |Added(data, Some(key), value, forKey, forValue).data| % 2 == 0
    ensures Lookup(Added(data, Some(key), value, forKey, forValue).data, Some(key))
      == if Present(data, Some(key)) then Replacement(value) else Stored(value)
  {
    var i := FindKey(data, Some(key));
    if i >= 0 {
      AddedWhenPresent(data, key, value, forKey, forValue);
      FindKeyUnchanged(data, data[i + 1 := Replacement(value)], Some(key), i + 1);
    } else {
      AddedWhenNew(data, key, value, forKey, forValue);
      FindKeyAppended(data, data + [Some(key), Stored(value)], Some(key));
    }
  }

  /** A successful add of a present key overwrites its value slot. */
  lemma AddedWhenPresent(data: seq<Option<string>>, key: string, value: Option<string>, forKey: Alloc, forValue: Alloc)
    requires |data| % 2 == 0 && FindKey(data, Some(key)) >= 0
    requires Added(data, Some(key), value, forKey, forValue).ok
    ensures Added(data, Some(key), value, forKey, forValue).data
      == data[FindKey(data, Some(key)) + 1 := Replacement(value)]
  {
  }

  /** A successful add of a new key appends the pair. */
  lemma AddedWhenNew(data: seq<Option<string>>, key: string, value: Option<string>, forKey: Alloc, forValue: Alloc)
    requires |data| % 2 == 0 && FindKey(data, Some(key)) == -1
    requires Added(data, Some(key), value, forKey, forValue).ok
    ensures Added(data, Some(key), value, forKey, forValue).data == data + [Some(key), Stored(value)]
  {
    assert key != [];
    assert data + [Some(key)] + [Stored(value)] == data + [Some(key), Stored(value)];
  }

  /** Overwriting a value slot does not move any key. */
  lemma FindKeyUnchanged(data: seq<Option<string>>, d: seq<Option<string>>, key: Option<string>, j: nat)
    requires j < |data| && j % 2 == 1 && |d| == |data|
    requires forall k :: 0 <= k < |data| && k != j ==> d[k] == data[k]
    ensures FindKey(d, key) == FindKey(data, key)
  {
    var a, b := FindKey(d, key), FindKey(data, key);
    if a >= 0 && a != b {
      assert d[a] == data[a];
    }
    if b >= 0 && a != b {
      assert d[b] == data[b];
    }
  }

  /** A key missing from the store is found at the pair appended for it. */
  lemma FindKeyAppended(data: seq<Option<string>>, d: seq<Option<string>>, key: Option<string>)
    requires |data| % 2 == 0 && FindKey(data, key) == -1
    requires |d| == |data| + 2 && d[..|data|] == data && d[|data|] == key
    ensures FindKey(d, key) == |data|
  {
    forall k | 0 <= k < |data| && k % 2 == 0 ensures d[k] != key {
      assert d[k] == data[k];
    }
  }

  /** What `zp_getb` makes of a value: true for `"true"` or a value that
      starts with `1`; false for anything else and for NULL. */
  function IsTrue(v: Option<string>): bool {
    v.Some? && (v.value == "true" || (|v.value| > 0 && v.value[0] == '1'))
  }

  /** What `zp_getc` makes of a value: its first character, or the
      terminator for an empty value or NULL. */
  function FirstChar(v: Option<string>): char {
    if v.Some? && |v.value| > 0 then v.value[0] else Nul
  }

  /** `zp_addb` writes `"1"` or `"0"`, which `zp_getb` reads back. */
  lemma BoolRoundTrip(b: bool)
    ensures IsTrue(Stored(Some(if b then "1" else "0"))) == b
    ensures IsTrue(Replacement(Some(if b then "1" else "0"))) == b
  {
    UnescapePlain(if b then "1" else "0");
  }

  /** `zp_addc` writes NULL for the terminator and the one-character
      string otherwise; `zp_getc` reads back every character except a
      backslash, which the decoder drops as a trailing escape. */
  lemma CharRoundTrip(c: char)
    ensures c != '\\' ==> FirstChar(Stored(if c == Nul then None else Some([c]))) == c
    ensures c != '\\' ==> FirstChar(Replacement(if c == Nul then None else Some([c]))) == c
    ensures FirstChar(Stored(Some(['\\']))) == Nul
  {
    if c != '\\' {
      UnescapePlain([c]);
    }
  }

  /** The decimal text `zp_addi` stores reads back unchanged, and as the
      integer. */
  lemma IntRoundTrip(n: int)
    ensures Stored(Some(FormatInt(n))) == Some(FormatInt(n))
    ensures Replacement(Some(FormatInt(n))) == Some(FormatInt(n))
    ensures ParseInt(FormatInt(n)) == Some(n)
  {
    FormatChars(n);
    UnescapePlain(FormatInt(n));
    ParseFormat(n);
  }

  /** `_zp_strdup`: a fresh terminated copy. */
  method Strdup(s: string) returns (copy: array<char>)
    requires NoNul(s)
    ensures fresh(copy) && copy[..] == s + [Nul]
  {
    copy := new char[|s| + 1](k => if 0 <= k < |s| then s[k] else Nul);
    assert copy[..] == s + [Nul];
  }

  class Store {
    var data: seq<Option<string>>

    /** The slot count is even. */
    ghost predicate Valid()
      reads this
    {
      |data| % 2 == 0
    }

    /** `zp_create`: an empty store. */
    constructor()
      ensures data == [] && Valid()
    {
      data := [];
    }

    /** `_zp_indexof` on this store. */
    method IndexOf(key: Option<string>) returns (index: int)
      requires key.Some? ==> NoNul(key.value)
      ensures index == KeyIndex(data, key)
      ensures index >= 0 ==> index % 2 == 0 && data[index] == key
    {
      if key.None? {
        return -1;
      }
      var i := 0;
      while i < |data|
        invariant 0 <= i && i % 2 == 0
        invariant forall j :: 0 <= j < i && j < |data| && j % 2 == 0 ==> data[j] != key
      {
        if data[i] == key {
          return i;
        }
        i := i + 2;
      }
      return -1;
    }

    /** `zp_contains` as written: the index compared with `INT32_MAX`,
        which `ContainsAsWrittenAlwaysTrue` shows is true for every key. */
    method ContainsAsWritten(key: Option<string>) returns (found: bool)
      requires key.Some? ==> NoNul(key.value)
      ensures found == PresentAsWritten(data, key)
    {
      var index := IndexOf(key);
      found := index != Int32Max;
    }

    /** `zp_contains` corrected to compare with -1: true exactly when a key
        slot holds `key`. */
    method Contains(key: Option<string>) returns (found: bool)
      requires key.Some? ==> NoNul(key.value)
      ensures found <==> key.Some? && exists i :: 0 <= i < |data| && i % 2 == 0 && data[i] == key
    {
      var index := IndexOf(key);
      found := index != -1;
    }

    /** `_zp_add_value`. */
    method AddValue(s: Option<string>, isValue: bool, alloc: Alloc) returns (ok: bool)
      requires s.Some? ==> NoNul(s.value)
      requires isValue && s.Some? && s.value != [] && alloc.grows && !alloc.copies ==> |data| >= 1
      modifies this
      ensures Outcome(ok, data) == SlotAdded(old(data), s, isValue, alloc)
    {
      if !alloc.grows {
        return false;
      }
      data := data + [None];
      if s.None? || |s.value| == 0 {
        data := data[|data| - 1 := None];
        return true;
      }
      if alloc.copies {
        var copy := Strdup(s.value);
        ghost var n := |s.value|;
        if isValue {
          Convert(copy, |s.value|);
          UnescapeNoNul(s.value);
          n := |Unescape(s.value)|;
          assert copy[..n] == Unescape(s.value);
        } else {
          assert copy[..n] == s.value;
        }
        var len := StrLen(copy, n);
        data := data[|data| - 1 := Some(copy[..len])];
        return true;
      } else if isValue {
        data := data[..|data| - 2];
      } else {
        data := data[..|data| - 1];
      }
      return false;
    }

    /** `_zp_replace`. */
    method Replace(key: Option<string>, value: Option<string>, copies: bool) returns (ok: bool)
      requires Valid()
      requires value.Some? ==> NoNul(value.value)
      requires key.Some? ==> NoNul(key.value)
      modifies this
      ensures Outcome(ok, data) == Replaced(old(data), key, value, copies)
      ensures Valid()
    {
      var i := IndexOf(key);
      i := i + 1;
      if i > 0 {
        if value.None? {
          data := data[i := None];
          return true;
        }
        if copies {
          var text := Strdup(value.value);
          Convert(text, |value.value|);
          UnescapeNoNul(value.value);
          assert text[..|Unescape(value.value)|] == Unescape(value.value);
          var len := StrLen(text, |Unescape(value.value)|);
          data := data[i := Some(text[..len])];
          return true;
        }
      }
      return false;
    }

    /** The two `_zp_add_value` calls that append a pair. */
    method AddPair(key: Option<string>, value: Option<string>, forKey: Alloc, forValue: Alloc) returns (ok: bool)
      requires key.Some? ==> NoNul(key.value)
      requires value.Some? ==> NoNul(value.value)
      modifies this
      ensures Outcome(ok, data) == PairAdded(old(data), key, value, forKey, forValue)
      ensures ok ==> |data| == |old(data)| + 2
    {
      ok := AddValue(key, false, forKey);
      if ok {
        ok := AddValue(value, true, forValue);
      }
    }

    /** `zp_add` as written, with its `zp_contains` that reports every key
        present. */
    method AddAsWritten(key: Option<string>, value: Option<string>, forKey: Alloc, forValue: Alloc) returns (ok: bool)
      requires Valid()
      requires key.Some? ==> NoNul(key.value)
      requires value.Some? ==> NoNul(value.value)
      modifies this
      ensures Outcome(ok, data) == AddedAsWritten(old(data), key, value, forKey, forValue)
    {
      if key.Some? && !AllBlank(key.value) {
        var present := ContainsAsWritten(key);
        if present {
          ok := Replace(key, value, forValue.copies);
          return;
        }
        // The `_zp_add_value` calls that would append the pair are never
        // reached: an index is -1 or even, and `INT32_MAX` is odd.
        assert false;
      }
      return false;
    }

    /** `zp_add` with `zp_contains` corrected: a blank or NULL key is
        refused; a present key gets the decoded value; a new key is
        appended with it. */
    method Add(key: Option<string>, value: Option<string>, forKey: Alloc, forValue: Alloc) returns (ok: bool)
      requires Valid()
      requires key.Some? ==> NoNul(key.value)
      requires value.Some? ==> NoNul(value.value)
      modifies this
      ensures Outcome(ok, data) == Added(old(data), key, value, forKey, forValue)
      ensures ok ==> Valid()
    {
      if key.Some? && !AllBlank(key.value) {
        var present := Contains(key);
        if present {
          ok := Replace(key, value, forValue.copies);
          return;
        }
        ok := AddPair(key, value, forKey, forValue);
        return;
      }
      return false;
    }

    /** `zp_remove`: the first pair with `key` freed and the later slots
        moved down two places; `false` and no change when it is absent.
        The shift reads and increments `i` in one unsequenced assignment;
        this is the shift by two it evidently means. */
    method Remove(key: Option<string>) returns (removed: bool)
      requires Valid()
      requires key.Some? ==> NoNul(key.value)
      modifies this
      ensures removed <==> KeyIndex(old(data), key) >= 0
      ensures data == if removed then RemovePair(old(data), KeyIndex(old(data), key)) else old(data)
      ensures Valid()
    {
      var i := IndexOf(key);
      if i != -1 {
        data := CutPair(data, i);
        return true;
      }
      return false;
    }

    /** `zp_removeall`. */
    method RemoveAll()
      modifies this
      ensures data == [] && Valid()
    {
      data := [];
    }

    /** `zp_size`: the number of pairs. */
    function Size(): (n: nat)
      reads this
      requires Valid()
      ensures 2 * n == |data|
    {
      |data| / 2
    }

    /** `zp_get`. */
    method Get(key: Option<string>) returns (value: Option<string>)
      requires Valid()
      requires key.Some? ==> NoNul(key.value)
      ensures value == Lookup(data, key)
    {
      var i := IndexOf(key);
      value := if i != -1 then data[i + 1] else None;
    }

    /** `zp_getb`. */
    method Getb(key: Option<string>) returns (b: bool)
      requires Valid()
      requires key.Some? ==> NoNul(key.value)
      ensures b == IsTrue(Lookup(data, key))
    {
      var v := Get(key);
      b := v.Some? && (v.value == "true" || (|v.value| > 0 && v.value[0] == '1'));
    }

    /** `zp_getc`. */
    method Getc(key: Option<string>) returns (c: char)
      requires Valid()
      requires key.Some? ==> NoNul(key.value)
      ensures c == FirstChar(Lookup(data, key))
    {
      var v := Get(key);
      c := if v.Some? && |v.value| > 0 then v.value[0] else Nul;
    }

    /** `zp_addb`: `"1"` or `"0"` through `zp_add`. */
    method Addb(key: Option<string>, b: bool, forKey: Alloc, forValue: Alloc) returns (ok: bool)
      requires Valid()
      requires key.Some? ==> NoNul(key.value)
      modifies this
      ensures Outcome(ok, data) == Added(old(data), key, Some(if b then "1" else "0"), forKey, forValue)
    {
      ok := Add(key, Some(if b then "1" else "0"), forKey, forValue);
    }

    /** `zp_addc`: NULL for the terminator, the one-character string
        otherwise. */
    method Addc(key: Option<string>, c: char, forKey: Alloc, forValue: Alloc) returns (ok: bool)
      requires Valid()
      requires key.Some? ==> NoNul(key.value)
      modifies this
      ensures Outcome(ok, data) == Added(old(data), key, if c == Nul then None else Some([c]), forKey, forValue)
    {
      if c == Nul {
        ok := Add(key, None, forKey, forValue);
      } else {
        ok := Add(key, Some([c]), forKey, forValue);
      }
    }

    /** `zp_addi`: the `%d` text through `zp_add`. */
    method Addi(key: Option<string>, n: int, forKey: Alloc, forValue: Alloc) returns (ok: bool)
      requires Valid()
      requires key.Some? ==> NoNul(key.value)
      modifies this
      ensures Outcome(ok, data) == Added(old(data), key, Some(FormatInt(n)), forKey, forValue)
    {
      FormatChars(n);
      ok := Add(key, Some(FormatInt(n)), forKey, forValue);
    }

    /** `_zp_add_geometry`: four integers for a rectangle (`c == 4`), two
        otherwise, comma-joined through `zp_add`. */
    method AddGeometry(key: Option<string>, g: seq<int>, c: nat, forKey: Alloc, forValue: Alloc) returns (ok: bool)
      requires Valid()
      requires key.Some? ==> NoNul(key.value)
      requires |g| >= (if c == 4 then 4 else 2)
      modifies this
      ensures Outcome(ok, data) == Added(old(data), key, Some(GeometryText(g[..if c == 4 then 4 else 2])), forKey, forValue)
    {
      var value: string;
      if c == 4 {
        value := GeometryText(g[..4]);
      } else {
        value := GeometryText(g[..2]);
      }
      GeometryHasNoNul(g[..if c == 4 then 4 else 2]);
      ok := Add(key, Some(value), forKey, forValue);
    }

    /** `_zp_app_property` on a line buffer with its terminator at `end`:
        the key is the text before the first separator and the value the
        rest of the line, both trimmed; the key goes in undecoded (an empty
        key as NULL), the value decoded. */
    method AppProperty(line: array<char>, ghost end: nat, forKey: Alloc, forValue: Alloc) returns (ok: bool)
      requires end < line.Length && line[end] == Nul && NoNul(line[..end])
      requires exists k :: 0 <= k < end && IsSeparator(line[k])
      modifies this, line
      ensures Outcome(ok, data) == PairAdded(old(data), Some(LineKey(old(line[..end]))),
        Some(LineValue(old(line[..end]))), forKey, forValue)
      ensures ok ==> |data| == |old(data)| + 2
    {
      ghost var text := line[..end];
      ghost var b0 := line[..];
      var pos := 0;
      var key, value;
      key, pos := NextElem(line, pos, true, end);
      KeyCut(b0, line[..], end, key, pos);
      ok := AddValue(Some(key), false, forKey);
      if ok {
        ghost var b1, p1 := line[..], pos;
        value, pos := NextElem(line, pos, false, end);
        ValueCut(text, b1, p1, end, value);
        ok := AddValue(Some(value), true, forValue);
      }
    }
  }

  lemma {:induction false} JoinNoNul(parts: seq<string>)
    requires forall i :: 0 <= i < |parts| ==> NoNul(parts[i])
    ensures NoNul(Join(parts, ','))
    decreases |parts|
  {
    if |parts| > 1 {
      JoinNoNul(parts[1..]);
    }
  }

  lemma GeometryHasNoNul(g: seq<int>)
    ensures NoNul(GeometryText(g))
  {
    forall i | 0 <= i < |g| ensures NoNul(FormatAll(g)[i]) {
      FormatChars(g[i]);
    }
    JoinNoNul(FormatAll(g));
  }

  /** The key `_zp_app_property` cuts from a line: the text before the
      first separator, trimmed. */
  function LineKey(text: string): string {
    Trim(text[..FirstSeparator(text)])
  }

  /** The value it cuts: the text after the first separator, trimmed. */
  function LineValue(text: string): string {
    if FirstSeparator(text) < |text| then Trim(text[FirstSeparator(text) + 1..]) else []
  }

  /** A line with a separator has its first separator inside it. */
  lemma SeparatorFound(text: string)
    requires exists k :: 0 <= k < |text| && IsSeparator(text[k])
    ensures FirstSeparator(text) < |text|
  {
    FirstSeparatorShape(text);
  }

  /** What the first `_zp_next_elem` on a line leaves: the trimmed key,
      the position after the first separator, and the rest of the line
      still in the buffer, after the terminator written over the
      separator. */
  lemma KeyCut(b0: seq<char>, b1: seq<char>, end: nat, key: string, pos: nat)
    requires end < |b0| && b0[end] == Nul && NoNul(b0[..end])
    requires exists k :: 0 <= k < end && IsSeparator(b0[k])
    requires pos == ElemEnd(b0[0..end], true) + 1
    requires b1 == b0[0..end][..ElemEnd(b0[0..end], true)] + [Nul] + b0[ElemEnd(b0[0..end], true) + 1..]
    requires key == Trim(b0[0..end][..ElemEnd(b0[0..end], true)])
    ensures key == LineKey(b0[..end]) && NoNul(key)
    ensures pos == FirstSeparator(b0[..end]) + 1 <= end
    ensures |b1| == |b0| && b1[end] == Nul
    ensures forall k :: pos <= k < end ==> b1[k] != Nul
    ensures b1[pos..end] == b0[..end][pos..]
  {
    var text := b0[..end];
    assert b0[0..end] == text;
    SeparatorFound(text);
    var s := FirstSeparator(text);
    TrimNoNul(text[..s]);
    assert b1[s + 1..] == b0[s + 1..];
    forall k | s + 1 <= k < end ensures b1[k] != Nul {
      assert b1[k] == text[k];
    }
    assert b1[s + 1..end] == b0[s + 1..end] == text[s + 1..];
  }

  /** What the second `_zp_next_elem` returns: the rest of the line,
      trimmed. */
  lemma ValueCut(text: string, b1: seq<char>, pos: nat, end: nat, value: string)
    requires NoNul(text) && |text| == end && pos == FirstSeparator(text) + 1 <= end <= |b1|
    requires b1[pos..end] == text[pos..]
    requires value == Trim(b1[pos..end][..ElemEnd(b1[pos..end], false)])
    ensures value == LineValue(text) && NoNul(value)
  {
    assert b1[pos..end][..ElemEnd(b1[pos..end], false)] == text[pos..];
    TrimNoNul(text[pos..]);
  }

  lemma TrimNoNul(s: string)
    requires NoNul(s)
    ensures NoNul(Trim(s))
  {
    TrimLeftIsSuffix(s);
    TrimRightIsPrefix(TrimLeft(s));
  }

  /** `_zp_app_property` on `key=value`: a key without separators is cut at
      the `=`, and the value keeps any further separators. */
  lemma SplitAtFirstSeparator(key: string, value: string)
    requires forall k :: 0 <= k < |key| ==> !IsSeparator(key[k])
    ensures FirstSeparator(key + ['='] + value) == |key|
    ensures (key + ['='] + value)[..|key|] == key
    ensures (key + ['='] + value)[|key| + 1..] == value
  {
    var line := key + ['='] + value;
    FirstSeparatorAt(line, |key|);
  }
}
