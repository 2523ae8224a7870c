/** The C++ class `Properties` (cpp/Properties.hpp, cpp/Properties.cpp): a
    vector of string slots, a key at every even index and its value (or
    nullptr) right after it, with the operations that search, grow, shrink,
    load and save it. */
module CppProperties {
  import opened Options
  import opened Chars
  import opened Slots
  import opened CppText
  import opened Seqs

  /** `UINT32_MAX`, what `IndexOf` returns for a missing key. It is odd, so
      it can never be mistaken for the index of a key slot. */
  const NotFound: nat := 0xFFFF_FFFF

  /** The shape every public operation keeps: pairs of slots, and no key
      slot holding nullptr (`IndexOf` dereferences every key slot). */
  predicate WellFormed(slots: seq<Option<string>>) {
    |slots| % 2 == 0 && forall i :: 0 <= i < |slots| && i % 2 == 0 ==> slots[i].Some?
  }

  /** Erasing slot `i` and inserting `v` in its place overwrites slot `i`;
      a value slot may hold anything. */
  lemma ReplaceSlot(slots: seq<Option<string>>, i: nat, v: Option<string>, erased: seq<Option<string>>)
    requires i < |slots| && erased == slots[..i] + slots[i + 1..]
    ensures erased[..i] + [v] + erased[i..] == slots[i := v]
    ensures WellFormed(slots) && i % 2 == 1 ==> WellFormed(slots[i := v])
  {
    assert erased[..i] == slots[..i];
    assert erased[i..] == slots[i + 1..];
  }

  /** The store without its first `p` pairs is well formed. */
  lemma WellFormedSuffix(slots: seq<Option<string>>, p: nat)
    requires WellFormed(slots) && 2 * p <= |slots|
    ensures WellFormed(slots[2 * p..])
  {
    var j := 2 * p;
    forall i | 0 <= i < |slots[j..]| && i % 2 == 0
      ensures slots[j..][i].Some?
    {
      assert slots[j..][i] == slots[j + i];
    }
  }

  lemma WellFormedAppend(slots: seq<Option<string>>, extra: seq<Option<string>>)
    requires WellFormed(slots) && WellFormed(extra)
    ensures WellFormed(slots + extra)
  {
    var r := slots + extra;
    forall i | 0 <= i < |r| && i % 2 == 0
      ensures r[i].Some?
    {
      if i >= |slots| {
        assert r[i] == extra[i - |slots|];
      }
    }
  }

  /** What `GetValue` finds: the value slot of the first pair with `key`,
      None when the key is missing or its value is nullptr. */
  function Lookup(slots: seq<Option<string>>, key: string): (r: Option<string>)
    requires WellFormed(slots)
    ensures r.Some? ==> exists i :: 0 <= i < |slots| - 1 && i % 2 == 0 && slots[i] == Some(key) && slots[i + 1] == r
    ensures (forall i :: 0 <= i < |slots| && i % 2 == 0 ==> slots[i] != Some(key)) ==> r == None
  {
    var k := FindKey(slots, Some(key));
    if k < 0 then None else slots[k + 1]
  }

  /** What `GetBool` accepts as true, looking at the value through its
      `c_str()`: the text `true`, or any text whose first character is `1`. */
  predicate Truthy(v: string) {
    CString(v) == "true" || (|CString(v)| > 0 && CString(v)[0] == '1')
  }

  /** Characters after a terminator inside a value do not change what
      `GetBool` reads. */
  lemma TruthyStopsAtNul(v: string, tail: string)
    requires NoNul(v)
    ensures Truthy(v + [Nul] + tail) <==> v == "true" || (|v| > 0 && v[0] == '1')
  {
    CStringStopsAtNul(v, tail);
  }

  /** The properties a file holds, read from position `pos` on: one
      `AddProperty` per logical line, until `ReadLine` reports the end of
      the file with nothing read. */
  function LoadFrom(text: string, pos: nat): (r: seq<Option<string>>)
    requires pos <= |text|
    decreases |text| - pos
  {
    var rd := ReadLogical(text, pos);
    if !rd.more && rd.line == [] then []
    else EntrySlots(ParseLine(rd.line)) + LoadFrom(text, rd.next)
  }

  /** What a load appends is a well-formed store. */
  lemma {:induction false} LoadFromWellFormed(text: string, pos: nat)
    requires pos <= |text|
    ensures WellFormed(LoadFrom(text, pos))
    decreases |text| - pos
  {
    var rd := ReadLogical(text, pos);
    if rd.more || rd.line != [] {
      LoadFromWellFormed(text, rd.next);
      EntrySlotsWellFormed(ParseLine(rd.line));
      WellFormedAppend(EntrySlots(ParseLine(rd.line)), LoadFrom(text, rd.next));
    }
  }

  /** One logical line read: its pair, then the rest of the file. */
  lemma LoadStepData(text: string, pos: nat, before: seq<Option<string>>, after: seq<Option<string>>)
    requires pos <= |text|
    requires ReadLogical(text, pos).more || ReadLogical(text, pos).line != []
    requires after == before + EntrySlots(ParseLine(ReadLogical(text, pos).line))
    ensures after + LoadFrom(text, ReadLogical(text, pos).next) == before + LoadFrom(text, pos)
  {
    LoadUnfold(text, pos);
    AppendAssoc(before, EntrySlots(ParseLine(ReadLogical(text, pos).line)), LoadFrom(text, ReadLogical(text, pos).next), after);
  }

  /** No position before `i` ends the key. */
  ghost predicate NoSplitBefore(line: string, i: nat)
    requires i <= |line|
  {
    forall j :: 0 <= j < i ==> !SplitsAt(line, j)
  }

  /** `AddProperty` while it copies the key: `temp` is the blank-free text
      read so far, and no split has been met. */
  ghost predicate KeyState(line: string, i: nat, temp: string) {
    i <= |line| && temp == DropBlanks(line[..i]) && NoSplitBefore(line, i)
  }

  /** `AddProperty` while it copies the value: the key ended at `split`,
      `seen` is what followed, `space` says no value character has come yet,
      and `temp` is `seen` left-trimmed (and right-trimmed at the end). */
  ghost predicate ValueState(line: string, i: nat, split: nat, key: string, seen: string, space: bool, temp: string) {
    split < i <= |line| && FirstSplit(line, 0) == split
    && key != [] && key == DropBlanks(line[..split])
    && seen == line[split + 1..i]
    && (space <==> TrimLeft(seen) == [])
    && temp == (if i < |line| then TrimLeft(seen) else Trim(seen))
  }

  /** A key character that does not split: kept unless it is a blank. */
  lemma KeyStep(line: string, i: nat, temp: string)
    requires i < |line| && KeyState(line, i, temp) && !SplitsAt(line, i)
    ensures KeyState(line, i + 1, if IsBlank(line[i]) then temp else temp + [line[i]])
  {
    DropBlanksSnoc(line, i);
  }

  /** The first split: an empty key drops the line, otherwise the value starts. */
  lemma KeyToValue(line: string, i: nat, temp: string)
    requires i < |line| && KeyState(line, i, temp) && SplitsAt(line, i)
    ensures temp == [] ==> ParseLine(line) == None
    ensures temp != [] ==> ValueState(line, i + 1, i, temp, [], true, [])
  {
    FirstSplitAt(line, 0, i);
    if temp == [] {
      ParseEmptyKey(line, i);
    } else {
      assert line[i + 1..i + 1] == [];
    }
  }

  /** A blank before the value starts is skipped. */
  lemma ValueStepSkip(line: string, i: nat, split: nat, key: string, seen: string, space: bool, temp: string)
    requires i < |line| && ValueState(line, i, split, key, seen, space, temp)
    requires space && IsBlank(line[i])
    ensures ValueState(line, i + 1, split, key, seen + [line[i]], true, temp)
  {
    TrimLeftSnoc(seen, line[i]);
    SliceSnoc(line, split + 1, i);
  }

  /** Any other value character is kept; the last one ends with the
      trailing blanks dropped. */
  lemma ValueStepKeep(line: string, i: nat, split: nat, key: string, seen: string, space: bool, temp: string)
    requires i < |line| && ValueState(line, i, split, key, seen, space, temp)
    requires !(space && IsBlank(line[i]))
    ensures ValueState(line, i + 1, split, key, seen + [line[i]], false,
      if i + 1 < |line| then temp + [line[i]] else TrimRight(temp + [line[i]]))
  {
    TrimLeftSnoc(seen, line[i]);
    SliceSnoc(line, split + 1, i);
  }

  /** A line read to its end without a split. */
  lemma KeyDone(line: string, temp: string)
    requires KeyState(line, |line|, temp)
    ensures ParseLine(line) == if temp == [] then None else Some(Entry(temp, None))
  {
    assert line[..|line|] == line;
    ParseNoSplit(line);
  }

  /** A line read to its end after a split. */
  lemma ValueDone(line: string, split: nat, key: string, seen: string, space: bool, temp: string)
    requires ValueState(line, |line|, split, key, seen, space, temp)
    ensures ParseLine(line) == Some(Entry(key, StoredValue(temp)))
  {
    assert seen == line[split + 1..];
    ParseSplit(line, split);
  }

  lemma Regroup(before: string, key: string, enc: string, sep: string, out: string)
    requires out == before + key + ['='] + enc + sep
    ensures out == before + (key + ['='] + enc + sep)
  {
  }

  /** The first pair of a suffix of the store, then the rest. */
  lemma SaveUnfold(slots: seq<Option<string>>, p: nat)
    requires WellFormed(slots) && 2 * p < |slots|
    ensures WellFormed(slots[2 * p..]) && WellFormed(slots[2 * p + 2..])
    ensures slots[2 * p].Some?
    ensures SaveText(slots[2 * p..]) ==
      PairLine(slots[2 * p].value, slots[2 * p + 1])
      + (if 2 * p + 2 < |slots| then ['\n'] else []) + SaveText(slots[2 * p + 2..])
  {
    var j := 2 * p;
    WellFormedSuffix(slots, p);
    WellFormedSuffix(slots, p + 1);
    assert slots[j..][2..] == slots[j + 2..];
  }

  lemma LoadUnfold(text: string, pos: nat)
    requires pos <= |text|
    requires ReadLogical(text, pos).more || ReadLogical(text, pos).line != []
    ensures LoadFrom(text, pos) ==
      EntrySlots(ParseLine(ReadLogical(text, pos).line)) + LoadFrom(text, ReadLogical(text, pos).next)
  {
  }

  lemma EntrySlotsWellFormed(e: Option<Entry>)
    ensures WellFormed(EntrySlots(e))
  {
  }

  /** The line `Save` writes for one pair: the key, `=`, and the escaped
      value, nothing after `=` for nullptr. */
  function PairLine(key: string, value: Option<string>): string {
    key + ['='] + (if value.Some? then Encode(value.value) else [])
  }

  /** The text `Save` writes: the pairs in order, a line break between two
      pairs and none after the last. */
  function SaveText(slots: seq<Option<string>>): (r: string)
    requires WellFormed(slots)
    decreases |slots|
  {
    if slots == [] then []
    else
      WellFormedSuffix(slots, 1);
      PairLine(slots[0].value, slots[1]) + (if |slots| > 2 then ['\n'] else []) + SaveText(slots[2..])
  }

  /** A key `Save` writes so that `Load` reads it back: a plain key that
      holds no line break and does not start a comment. */
  predicate SavableKey(key: string) {
    PlainKey(key) && !IsCommentStart(key[0])
    && forall i :: 0 <= i < |key| ==> !IsLineBreak(key[i])
  }

  /** A value `Save` writes so that `Load` reads it back: no backslash (the
      escape codec leaves backslashes alone on the way out but reads them as
      escapes on the way in) and no space at either end (the reader trims
      blanks). */
  predicate SavableValue(value: Option<string>) {
    value.None? ||
    ('\\' !in value.value &&
     (value.value == [] || (value.value[0] != ' ' && value.value[|value.value| - 1] != ' ')))
  }

  predicate Savable(slots: seq<Option<string>>) {
    WellFormed(slots)
    && (forall i :: 0 <= i < |slots| && i % 2 == 0 ==> slots[i].Some? && SavableKey(slots[i].value))
    && (forall i :: 0 <= i < |slots| && i % 2 == 1 ==> SavableValue(slots[i]))
  }

  /** A value as a save and a load bring it back: an empty value is written
      as nothing after `=`, which reads back as nullptr. */
  function Reloaded(value: Option<string>): (r: Option<string>)
    ensures r.Some? ==> r.value != []
    ensures r != value <==> value == Some([])
  {
    if value == Some([]) then None else value
  }

  /** Every value of a store as a save and a load bring it back. */
  function ReloadedAll(slots: seq<Option<string>>): (r: seq<Option<string>>)
    requires |slots| % 2 == 0
    ensures |r| == |slots|
    decreases |slots|
  {
    if slots == [] then [] else [slots[0], Reloaded(slots[1])] + ReloadedAll(slots[2..])
  }

  /** A store with no empty value comes back unchanged. */
  lemma {:induction false} ReloadedAllUnchanged(slots: seq<Option<string>>)
    requires |slots| % 2 == 0
    requires forall i :: 0 <= i < |slots| ==> slots[i] != Some([])
    ensures ReloadedAll(slots) == slots
    decreases |slots|
  {
    if slots != [] {
      assert slots[1] != Some([]);
      ReloadedAllUnchanged(slots[2..]);
      assert slots == [slots[0], slots[1]] + slots[2..];
    }
  }

  lemma SavableRest(slots: seq<Option<string>>)
    requires Savable(slots) && 2 <= |slots|
    ensures Savable(slots[2..])
  {
    WellFormedSuffix(slots, 1);
    var rest := slots[2..];
    forall i | 0 <= i < |rest|
      ensures rest[i] == slots[i + 2]
    {
    }
  }

  /** The line written for a savable pair holds no line break. */
  lemma PairLineNoBreak(key: string, value: Option<string>)
    requires SavableKey(key)
    ensures forall i :: 0 <= i < |PairLine(key, value)| ==> !IsLineBreak(PairLine(key, value)[i])
  {
    var enc := if value.Some? then Encode(value.value) else [];
    var line := PairLine(key, value);
    forall i | 0 <= i < |line|
      ensures !IsLineBreak(line[i])
    {
      if i < |key| {
        assert line[i] == key[i];
      } else if i > |key| {
        assert line[i] == enc[i - |key| - 1];
      }
    }
  }

  /** The line written for a savable pair parses back to the pair. */
  lemma PairLineParses(key: string, value: Option<string>)
    requires SavableKey(key) && SavableValue(value)
    ensures ParseLine(PairLine(key, value)) == Some(Entry(key, Reloaded(value)))
  {
    var enc := if value.Some? then Encode(value.value) else [];
    SplitAtFirstSeparator(key, '=', enc);
    if value.Some? && value.value != [] {
      EncodeEnds(value.value);
      TrimNonBlankEnds(enc);
      DecodeEncode(value.value);
    } else if value.Some? {
      assert enc == [];
    }
  }

  /** Loading, from `pos` on, a text that holds the saved store there gives
      the store back, with empty values as nullptr. */
  lemma {:induction false} LoadSaved(text: string, pos: nat, slots: seq<Option<string>>)
    requires Savable(slots) && pos <= |text| && text[pos..] == SaveText(slots)
    ensures LoadFrom(text, pos) == ReloadedAll(slots)
    decreases |slots|
  {
    if slots == [] {
      assert pos == |text|;
    } else {
      var key, value, rest := slots[0].value, slots[1], slots[2..];
      var line := PairLine(key, value);
      var sep: string := if 2 < |slots| then ['\n'] else [];
      SaveUnfold(slots, 0);
      assert slots[0..] == slots;
      assert text[pos..] == line + sep + SaveText(rest);
      var e := pos + |line|;
      assert text[pos..e] == line;
      PairLineNoBreak(key, value);
      forall k | pos <= k < e
        ensures !IsLineBreak(text[k])
      {
        assert text[k] == line[k - pos];
      }
      if e < |text| {
        assert sep != [] && text[e] == '\n';
      }
      LineEndAt(text, pos, e);
      assert text[pos] == key[0];
      ReadFirstKept(text, pos);
      var next := e + |sep|;
      assert ReadLogical(text, pos) == LineRead(line, sep != [], next);
      assert text[next..] == SaveText(rest);
      PairLineParses(key, value);
      LoadUnfold(text, pos);
      SavableRest(slots);
      LoadSaved(text, next, rest);
    }
  }

  /** `Save` then `Load` into an empty store: the same pairs in the same
      order, an empty value coming back as nullptr, so a store with no empty
      value comes back unchanged. */
  lemma SaveLoad(slots: seq<Option<string>>)
    requires Savable(slots)
    ensures LoadFrom(SaveText(slots), 0) == ReloadedAll(slots)
    ensures (forall i :: 0 <= i < |slots| ==> slots[i] != Some([])) ==> LoadFrom(SaveText(slots), 0) == slots
  {
    LoadSaved(SaveText(slots), 0, slots);
    if forall i :: 0 <= i < |slots| ==> slots[i] != Some([]) {
      ReloadedAllUnchanged(slots);
    }
  }

  class Properties {
    /** `std::vector<std::string*> data`; None stands for nullptr. */
    var data: seq<Option<string>>

    ghost predicate Valid()
      reads this
    {
      WellFormed(data)
    }

    constructor()
      ensures data == []
    {
      data := [];
    }

    /** `Properties::IndexOf`: the index of the first key slot holding
        `key`, or `NotFound`. */
    method IndexOf(key: string) returns (index: nat)
      requires Valid()
      ensures index == NotFound <==> FindKey(data, Some(key)) == -1
      ensures index != NotFound ==> index == FindKey(data, Some(key))
    {
      var i := 0;
      while i < |data|
        invariant 0 <= i <= |data| && i % 2 == 0
        invariant forall j :: 0 <= j < i && j % 2 == 0 ==> data[j] != Some(key)
      {
        if data[i].value == key {
          return i;
        }
        i := i + 2;
      }
      return NotFound;
    }

    /** `Properties::Contains`. */
    method Contains(key: string) returns (found: bool)
      requires Valid()
      ensures found <==> exists i :: 0 <= i < |data| && i % 2 == 0 && data[i] == Some(key)
    {
      var index := IndexOf(key);
      found := index != NotFound;
    }

    /** `Properties::IsEmpty` is `CppText.IsEmpty`; `AddValue` appends one
        slot: the key as it is, or the decoded value (nullptr if empty). */
    method AddValue(value: string, isValue: bool)
      modifies this
      ensures data == old(data) + [if isValue then StoredValue(value) else Some(value)]
    {
      if isValue {
        if |value| == 0 {
          data := data + [None];
        } else {
          var converted := Convert(value);
          data := data + [Some(converted)];
        }
      } else {
        data := data + [Some(value)];
      }
    }

    /** The loop that drops the trailing blanks of the value in
        `AddProperty`. */
    static method TrimTrailing(aux: string) returns (temp: string)
      ensures temp == TrimRight(aux)
    {
      temp := aux;
      var k := |aux| - 1;
      while k >= 0
        invariant -1 <= k < |aux|
        invariant temp == aux[..k + 1]
        invariant AllBlank(aux[k + 1..])
      {
        if !IsBlank(aux[k]) {
          break;
        }
        temp := aux[..k];
        k := k - 1;
      }
      TrimRightAt(aux, k + 1);
    }

    /** `Properties::AddProperty`: the key/value state machine over one
        logical line. */
    method AddProperty(line: string)
      requires Valid()
      modifies this
      ensures data == old(data) + EntrySlots(ParseLine(line))
      ensures Valid()
    {
      var space, cpKey := true, true;
      var temp: string := "";
      ghost var split: nat := 0;
      ghost var key: string := "";
      ghost var seen: string := "";
      var i := 0;
      while i < |line|
        invariant 0 <= i <= |line|
        invariant cpKey ==> space && data == old(data) && KeyState(line, i, temp)
        invariant !cpKey ==> data == old(data) + [Some(key)] && ValueState(line, i, split, key, seen, space, temp)
      {
        var c := line[i];
        // `goto _value` is taken at a separator, or at a blank of the key
        // followed by a character that is neither blank nor a separator.
        var toValue := cpKey && IsSeparator(c);
        if !toValue && space && IsBlank(c) {
          if cpKey && i + 1 < |line| {
            var next := line[i + 1];
            toValue := !IsBlank(next) && !IsSeparator(next);
          }
          if !toValue {
            if cpKey {
              KeyStep(line, i, temp);
            } else {
              ValueStepSkip(line, i, split, key, seen, space, temp);
              seen := seen + [c];
            }
            i := i + 1;
            continue;
          }
        }
        if toValue {
          KeyToValue(line, i, temp);
          if |temp| == 0 {
            break;
          }
          AddValue(temp, false);
          key, seen := temp, [];
          temp := "";
          cpKey := false;
          split := i;
          i := i + 1;
          continue;
        }
        if cpKey {
          KeyStep(line, i, temp);
        } else {
          ValueStepKeep(line, i, split, key, seen, space, temp);
          seen := seen + [c];
        }
        if !cpKey && space {
          space := false;
        }
        temp := temp + [c];
        if !cpKey && i + 1 == |line| {
          temp := TrimTrailing(temp);
        }
        i := i + 1;
      }
      if cpKey {
        if |temp| != 0 {
          KeyDone(line, temp);
          AddValue(temp, false);
          ghost var before := data;
          AddValue("", true);
          AppendPair(old(data), Some(temp), None, before, data);
        }
      } else {
        ValueDone(line, split, key, seen, space, temp);
        ghost var before := data;
        AddValue(temp, true);
        AppendPair(old(data), Some(key), StoredValue(temp), before, data);
      }
      EntrySlotsWellFormed(ParseLine(line));
      WellFormedAppend(old(data), EntrySlots(ParseLine(line)));
    }

    /** `Properties::RemoveRange`: the slots from `begin` up to `end` erased. */
    method RemoveRange(begin: nat, end: nat)
      requires begin <= end <= |data|
      modifies this
      ensures data == old(data)[..begin] + old(data)[end..]
    {
      data := data[..begin] + data[end..];
    }

    /** `Properties::Remove`: erases the first pair with `key`. */
    method Remove(key: string) returns (removed: bool)
      requires Valid()
      modifies this
      ensures removed <==> FindKey(old(data), Some(key)) >= 0
      ensures data == if removed then RemovePair(old(data), FindKey(old(data), Some(key))) else old(data)
      ensures Valid()
    {
      var index := IndexOf(key);
      if index != NotFound {
        RemoveRange(index, index + 2);
        WellFormedAfterRemove(old(data), index);
        return true;
      }
      return false;
    }

    /** `Properties::Replace`: the value slot of the first pair with `key`
        replaced, the undecoded `value` stored (nullptr if empty); the
        result is `false` in every case. */
    method Replace(key: string, value: string) returns (ok: bool)
      requires Valid()
      modifies this
      ensures !ok
      ensures var k := FindKey(old(data), Some(key));
        data == if k >= 0 then old(data)[k + 1 := if value == [] then None else Some(value)] else old(data)
      ensures Valid()
    {
      var index := IndexOf(key);
      if index != NotFound {
        index := index + 1;
        RemoveRange(index, index + 1);
        ReplaceSlot(old(data), index, if |value| == 0 then None else Some(value), data);
        data := data[..index] + [if |value| == 0 then None else Some(value)] + data[index..];
      }
      return false;
    }

    /** `Properties::AddValueForType`: the pair appended, value undecoded,
        when the key is absent and not all blanks; the result is `false` in
        every case. */
    method AddValueForType(key: string, value: string) returns (ok: bool)
      requires Valid()
      modifies this
      ensures !ok
      ensures data == if FindKey(old(data), Some(key)) == -1 && !AllBlank(key)
        then old(data) + [Some(key), Some(value)] else old(data)
      ensures Valid()
    {
      var index := IndexOf(key);
      var empty := IsEmpty(key);
      if index == NotFound && !empty {
        data := data + [Some(key)];
        data := data + [Some(value)];
        WellFormedAppend(old(data), [Some(key), Some(value)]);
      }
      return false;
    }

    /** `Add<std::string>`: `to_string` of a string is the string itself. */
    method AddString(key: string, value: string) returns (ok: bool)
      requires Valid()
      modifies this
      ensures !ok
      ensures data == if FindKey(old(data), Some(key)) == -1 && !AllBlank(key)
        then old(data) + [Some(key), Some(value)] else old(data)
      ensures Valid()
    {
      ok := AddValueForType(key, value);
    }

    /** `Add<char>`: `to_string` of a character is the one-character text. */
    method AddChar(key: string, value: char) returns (ok: bool)
      requires Valid()
      modifies this
      ensures !ok
      ensures data == if FindKey(old(data), Some(key)) == -1 && !AllBlank(key)
        then old(data) + [Some(key), Some([value])] else old(data)
      ensures Valid()
    {
      ok := AddValueForType(key, [value]);
    }

    /** `Properties::Size`: the number of pairs. */
    function Size(): (n: nat)
      reads this
      requires Valid()
      ensures 2 * n == |data|
    {
      if |data| == 0 then 0 else |data| / 2
    }

    /** `Properties::GetValue`. */
    method GetValue(key: string) returns (value: Option<string>)
      requires Valid()
      ensures value == Lookup(data, key)
    {
      var i := IndexOf(key);
      if i != NotFound && data[i + 1].Some? {
        return data[i + 1];
      }
      return None;
    }

    /** `operator[]`: what `GetValue` returns. */
    method Get(key: string) returns (value: Option<string>)
      requires Valid()
      ensures value == Lookup(data, key)
    {
      value := GetValue(key);
    }

    /** `GetBool`: false for a missing or valueless key. */
    method GetBool(key: string) returns (b: bool)
      requires Valid()
      ensures b <==> Lookup(data, key).Some? && Truthy(Lookup(data, key).value)
    {
      var value := GetValue(key);
      if value.Some? {
        var chars := CString(value.value);
        return chars == "true" || (|chars| > 0 && chars[0] == '1');
      }
      return false;
    }

    /** The getter macro `ZP_GET_VALUE`: the default for a missing or
        valueless key, otherwise the conversion of the value as seen
        through the `const char*` that `GetValue` returns. */
    method GetConverted<T>(key: string, convert: string -> T, default: T) returns (r: T)
      requires Valid()
      ensures Lookup(data, key) == None ==> r == default
      ensures Lookup(data, key).Some? ==> r == convert(CString(Lookup(data, key).value))
    {
      var value := GetValue(key);
      if value.Some? {
        return convert(CString(value.value));
      }
      return default;
    }

    /** `Properties::Load` over the characters of a file; `isOpen` says
        whether the file could be opened. Reading stops at the end of the
        file, which leaves the stream's failbit set, so the result is
        `false` in every case. */
    method Load(isOpen: bool, text: string) returns (ok: bool)
      requires Valid()
      modifies this
      ensures !ok
      ensures data == if isOpen then old(data) + LoadFrom(text, 0) else old(data)
      ensures Valid()
    {
      if !isOpen {
        return false;
      }
      var pos := 0;
      while true
        invariant pos <= |text|
        invariant old(data) + LoadFrom(text, 0) == data + LoadFrom(text, pos)
        invariant Valid()
        decreases |text| - pos
      {
        var line, more, next := ReadLine(text, pos);
        if !more && |line| == 0 {
          break;
        }
        ghost var before := data;
        AddProperty(line);
        LoadStepData(text, pos, before, data);
        pos := next;
      }
      return false;
    }

    /** `Properties::Save`, returning the text written; `isOpen` says
        whether the file could be created. */
    method Save(isOpen: bool) returns (out: string, ok: bool)
      requires Valid()
      ensures ok == isOpen
      ensures out == if isOpen then SaveText(data) else []
    {
      out := [];
      if !isOpen {
        return out, false;
      }
      var i := 1;
      ghost var pairs := Size();
      ghost var k := 0;
      while i < |data|
        invariant i == 2 * k + 1 && k <= pairs
        invariant WellFormed(data[i - 1..])
        invariant out + SaveText(data[i - 1..]) == SaveText(data)
      {
        ghost var before := out;
        ghost var enc := if data[i].Some? then Encode(data[i].value) else [];
        ghost var sep := if i + 2 < |data| then ['\n'] else [];
        out := out + data[i - 1].value + ['='];
        if data[i].Some? {
          out := ResolveString(out, data[i].value);
        }
        assert out == before + data[i - 1].value + ['='] + enc;
        if i + 2 < |data| {
          out := out + ['\n'];
        }
        assert out == before + data[i - 1].value + ['='] + enc + sep;
        ghost var piece := PairLine(data[i - 1].value, data[i]) + sep;
        Regroup(before, data[i - 1].value, enc, sep, out);
        SaveUnfold(data, k);
        AppendAssoc(before, piece, SaveText(data[i + 1..]), out);
        i, k := i + 2, k + 1;
      }
      return out, true;
    }
  }

  /** Removing the pair at a key slot keeps the store well formed. */
  lemma WellFormedAfterRemove(slots: seq<Option<string>>, i: nat)
    requires WellFormed(slots) && i % 2 == 0 && i + 2 <= |slots|
    ensures WellFormed(slots[..i] + slots[i + 2..])
  {
    var r := slots[..i] + slots[i + 2..];
    forall j | 0 <= j < |r| && j % 2 == 0
      ensures r[j].Some?
    {
      if j >= i {
        assert r[j] == slots[j + 2];
      }
    }
  }
}
