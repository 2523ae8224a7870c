/** The store of the older C API in `zprop.c`: a `_zProp_` whose `props`
    array holds `count` strings, a key at each even index and its value at
    the next. The array is the sequence `props`, and `count` is its length.
    Values are plain copies: nothing is trimmed, decoded or made NULL.
    `realloc` and `_strdup` can fail in C; their outcomes are parameters
    here (`Alloc`). */
module ZProp {
  import opened Options
  import opened Chars
  import opened Slots

  /** `zPropError`. */
  datatype ZPropError = Ok | FileNotFound | AccessDenied | Unknown | Syntax | OutOfMemory

  /** What the allocator does for one `zAddKeyOrValue`: whether growing the
      array succeeds, and whether copying the string succeeds. */
  datatype Alloc = Alloc(grows: bool, copies: bool)

  /** The result of `zAddProp`: its error code and the new slots. */
  datatype Outcome = Outcome(error: ZPropError, props: seq<string>)

  /** Index of the key slot `zGetValue` stops at, or -1: the first even
      slot equal to `key`; a NULL key is never found. */
  function KeyIndex(props: seq<string>, key: Option<string>): (r: int)
    ensures -1 <= r < |props|
  {
    if key.None? then -1 else FindKey(props, key.value)
  }

  /** `zGetValue`: the value of the first pair whose key is `key`; NULL for
      a NULL key or a key no pair has. */
  function Lookup(props: seq<string>, key: Option<string>): (r: Option<string>)
    requires |props| % 2 == 0
    ensures r.Some? <==> key.Some? && exists i :: 0 <= i < |props| && i % 2 == 0 && props[i] == key.value
  {
    var i := KeyIndex(props, key);
    if i >= 0 then Some(props[i + 1]) else None
  }

  /** `zAddProp`: nothing happens for a NULL key; otherwise the key and then
      the value are appended, and if either copy cannot be made the store
      is left as it was and `zProp_OUTOFMEMORY` reported. */
  function PropAdded(props: seq<string>, key: Option<string>, value: string, forKey: Alloc, forValue: Alloc): (r: Outcome)
    ensures r.error == Ok || r.error == OutOfMemory
    ensures r.props == props || (r.error == Ok && |r.props| == |props| + 2 && r.props[..|props|] == props)
    ensures r.error == OutOfMemory ==> r.props == props
  {
    if key.None? then Outcome(Ok, props)
    else if !(forKey.grows && forKey.copies) then Outcome(OutOfMemory, props)
    else if !(forValue.grows && forValue.copies) then Outcome(OutOfMemory, props)
    else Outcome(Ok, props + [key.value, value])
  }

  /** Reading back after `zAddProp` appended a pair: a key that was already
      there still reads as its old value, because the first pair wins and
      `zAddProp` does not look for duplicates; the new key reads as the new
      value; every other key is unaffected. */
  lemma LookupAfterAdd(props: seq<string>, k: string, v: string, key: Option<string>)
    requires |props| % 2 == 0
    ensures Lookup(props + [k, v], key)
      == if Lookup(props, key).Some? then Lookup(props, key) else if key == Some(k) then Some(v) else None
  {
    if key.Some? {
      FindKeyAfterAppend(props, k, v, key.value);
      var i := FindKey(props, key.value);
      if i >= 0 {
        assert (props + [k, v])[i + 1] == props[i + 1];
      }
    }
  }

  /** Removing the pair found for `k` does not change what any other key
      reads as. */
  lemma LookupAfterRemove(props: seq<string>, k: string, key: Option<string>)
    requires |props| % 2 == 0 && FindKey(props, k) >= 0
    requires key != Some(k)
    ensures Lookup(RemovePair(props, FindKey(props, k)), key) == Lookup(props, key)
  {
    if key.Some? {
      FindKeyAfterRemove(props, FindKey(props, k), key.value);
    }
  }

  /** In a store without duplicate keys, a removed key is gone. With a
      duplicate, the next pair with that key shows through instead. */
  lemma RemovedKeyGone(props: seq<string>, k: string)
    requires |props| % 2 == 0 && UniqueKeys(props) && FindKey(props, k) >= 0
    ensures Lookup(RemovePair(props, FindKey(props, k)), Some(k)) == None
  {
    RemoveFoundPairDropsKey(props, k);
  }

  /** Two pairs with the same key: `zRemoveKey` removes the first, and the
      key then reads as the second pair's value. */
  lemma RemoveShowsDuplicate(k: string, v1: string, v2: string)
    ensures Lookup([k, v1, k, v2], Some(k)) == Some(v1)
    ensures RemovePair([k, v1, k, v2], FindKey([k, v1, k, v2], k)) == [k, v2]
    ensures Lookup([k, v2], Some(k)) == Some(v2)
  {
    assert FindKey([k, v1, k, v2], k) == 0;
    assert FindKey([k, v2], k) == 0;
  }

  class PropStore {
    var props: seq<string>

    /** The slot count is even and every slot is a C string. */
    ghost predicate Valid()
      reads this
    {
      |props| % 2 == 0 && forall i :: 0 <= i < |props| ==> NoNul(props[i])
    }

    /** `zCreateProp`: a zeroed store. */
    constructor()
      ensures props == [] && Valid()
    {
      props := [];
    }

    /** `zAddKeyOrValue`: one slot more holding a copy of `str`; when the
        array cannot grow, or the copy cannot be made and the slot is given
        back, the count is as before. */
    method AddKeyOrValue(str: string, alloc: Alloc) returns (ok: bool)
      modifies this
      ensures ok <==> alloc.grows && alloc.copies
      ensures props == if ok then old(props) + [str] else old(props)
    {
      if alloc.grows {
        props := props + [str];
        if alloc.copies {
          return true;
        }
        props := props[..|props| - 1];
      }
      return false;
    }

    /** `zAddProp`. */
    method AddProp(key: Option<string>, value: string, forKey: Alloc, forValue: Alloc) returns (error: ZPropError)
      requires Valid()
      requires key.Some? ==> NoNul(key.value)
      requires NoNul(value)
      modifies this
      ensures Outcome(error, props) == PropAdded(old(props), key, value, forKey, forValue)
      ensures Valid()
    {
      if key.Some? {
        var ok := AddKeyOrValue(key.value, forKey);
        if !ok {
          return OutOfMemory;
        }
        ok := AddKeyOrValue(value, forValue);
        if !ok {
          props := props[..|props| - 1];
          return OutOfMemory;
        }
        assert props == old(props) + [key.value, value];
      }
      return Ok;
    }

    /** `zGetValue`. */
    method GetValue(key: Option<string>) returns (value: Option<string>)
      requires Valid()
      requires key.Some? ==> NoNul(key.value)
      ensures value == Lookup(props, key)
    {
      if key.Some? {
        var i := 1;
        while i < |props|
          invariant 1 <= i <= |props| + 1 && i % 2 == 1
          invariant forall j :: 0 <= j < i - 1 && j % 2 == 0 ==> props[j] != key.value
        {
          if props[i - 1] == key.value {
            return Some(props[i]);
          }
          i := i + 2;
        }
      }
      return None;
    }

    /** `zContainsKey`: `zGetValue` found a value. */
    method ContainsKey(key: Option<string>) returns (found: bool)
      requires Valid()
      requires key.Some? ==> NoNul(key.value)
      ensures found <==> key.Some? && exists i :: 0 <= i < |props| && i % 2 == 0 && props[i] == key.value
    {
      var value := GetValue(key);
      found := value.Some?;
    }

    /** `zRemoveKey`: the first pair with `key` freed and the later slots
        moved down two places; `false` and no change when there is none. */
    method RemoveKey(key: Option<string>) returns (removed: bool)
      requires Valid()
      requires key.Some? ==> NoNul(key.value)
      modifies this
      ensures removed <==> KeyIndex(old(props), key) >= 0
      ensures props == if removed then RemovePair(old(props), KeyIndex(old(props), key)) else old(props)
      ensures Valid()
    {
      var present := ContainsKey(key);
      if key.Some? && present {
        var i := 1;
        while i < |props|
          invariant 1 <= i <= |props| + 1 && i % 2 == 1
          invariant props == old(props)
          invariant forall j :: 0 <= j < i - 1 && j % 2 == 0 ==> props[j] != key.value
        {
          if props[i - 1] == key.value {
            assert i - 1 == FindKey(props, key.value);
            props := CutPair(props, i - 1);
            RemoveKeepsStrings(old(props), i - 1);
            return true;
          }
          i := i + 2;
        }
        assert false;
      }
      return false;
    }

    /** `zGetCountProp`: the number of pairs. */
    function GetCountProp(): (n: nat)
      reads this
      requires Valid()
      ensures 2 * n == |props|
    {
      if |props| == 0 then 0 else |props| / 2
    }
  }

  lemma RemoveKeepsStrings(props: seq<string>, k: nat)
    requires |props| % 2 == 0 && k % 2 == 0 && k + 2 <= |props|
    requires forall i :: 0 <= i < |props| ==> NoNul(props[i])
    ensures |RemovePair(props, k)| % 2 == 0
    ensures forall i :: 0 <= i < |RemovePair(props, k)| ==> NoNul(RemovePair(props, k)[i])
  {
    var r := RemovePair(props, k);
    forall i | 0 <= i < |r| ensures NoNul(r[i]) {
      if i < k { assert r[i] == r[..k][i]; } else { assert r[i] == r[k..][i - k]; }
    }
  }
}
