/** The flat slot array the three stores share: the key of pair `k` sits at
    index `2k` and its value at `2k + 1`. */
module Slots {

  /** Index of the first key slot (an even index) that holds `key`, or -1. */
  function FindKey<T(==)>(slots: seq<T>, key: T): (r: int)
    ensures -1 <= r < |slots|
    ensures r == -1 <==> forall i :: 0 <= i < |slots| && i % 2 == 0 ==> slots[i] != key
    ensures r >= 0 ==> r % 2 == 0 && slots[r] == key
    ensures r >= 0 ==> forall i :: 0 <= i < r && i % 2 == 0 ==> slots[i] != key
  {
    FindKeyFrom(slots, key, 0)
  }

  function FindKeyFrom<T(==)>(slots: seq<T>, key: T, from: nat): (r: int)
    requires from % 2 == 0
    ensures r == -1 || (from <= r < |slots| && r % 2 == 0 && slots[r] == key)
    ensures r == -1 ==> forall i :: from <= i < |slots| && i % 2 == 0 ==> slots[i] != key
    ensures r >= 0 ==> forall i :: from <= i < r && i % 2 == 0 ==> slots[i] != key
    decreases |slots| - from
  {
    if from >= |slots| then -1
    else if slots[from] == key then from
    else FindKeyFrom(slots, key, from + 2)
  }

  /** The slots with the pair whose key sits at `i` cut out. */
  function RemovePair<T>(slots: seq<T>, i: nat): (r: seq<T>)
    requires i + 2 <= |slots|
    ensures |r| == |slots| - 2
    ensures r[..i] == slots[..i] && r[i..] == slots[i + 2..]
  {
    slots[..i] + slots[i + 2..]
  }

  /** No key occurs at two key slots. */
  predicate UniqueKeys<T(==)>(slots: seq<T>) {
    forall i, j :: 0 <= i < j < |slots| && i % 2 == 0 && j % 2 == 0 ==> slots[i] != slots[j]
  }

  /** In a store whose keys are unique, removing the pair found for `key`
      leaves no pair with that key. */
  lemma RemoveFoundPairDropsKey<T>(slots: seq<T>, key: T)
    requires |slots| % 2 == 0 && UniqueKeys(slots)
    requires FindKey(slots, key) >= 0
    ensures FindKey(RemovePair(slots, FindKey(slots, key)), key) == -1
  {
    var i := FindKey(slots, key);
    var r := RemovePair(slots, i);
    forall j | 0 <= j < |r| && j % 2 == 0
      ensures r[j] != key
    {
      if j < i {
        assert r[j] == slots[j];
      } else {
        assert r[j] == slots[j + 2];
        assert slots[i] != slots[j + 2];
      }
    }
  }

  /** Removing a pair keeps the keys unique. */
  lemma RemovePairKeepsUnique<T>(slots: seq<T>, i: nat)
    requires |slots| % 2 == 0 && i % 2 == 0 && i + 2 <= |slots|
    requires UniqueKeys(slots)
    ensures UniqueKeys(RemovePair(slots, i))
  {
    var r := RemovePair(slots, i);
    forall a, b | 0 <= a < b < |r| && a % 2 == 0 && b % 2 == 0
      ensures r[a] != r[b]
    {
      var a' := if a < i then a else a + 2;
      var b' := if b < i then b else b + 2;
      RemovePairAt(slots, i, a);
      RemovePairAt(slots, i, b);
      assert a' < b' && a' % 2 == 0 && b' % 2 == 0;
    }
  }

  /** Where a slot left after cutting out a pair came from. */
  lemma RemovePairAt<T>(slots: seq<T>, i: nat, a: nat)
    requires i + 2 <= |slots| && a < |slots| - 2
    ensures RemovePair(slots, i)[a] == slots[if a < i then a else a + 2]
  {
    var r := RemovePair(slots, i);
    if a < i {
      assert r[a] == r[..i][a];
    } else {
      assert r[a] == r[i..][a - i];
    }
  }

  /** Appending a pair whose key is absent keeps the keys unique. */
  lemma AppendAbsentKeepsUnique<T>(slots: seq<T>, key: T, value: T)
    requires |slots| % 2 == 0 && UniqueKeys(slots)
    requires FindKey(slots, key) == -1
    ensures UniqueKeys(slots + [key, value])
  {
    var r := slots + [key, value];
    forall a, b | 0 <= a < b < |r| && a % 2 == 0 && b % 2 == 0
      ensures r[a] != r[b]
    {
      if b < |slots| {
        assert r[a] == slots[a] && r[b] == slots[b];
      } else {
        assert r[b] == key && r[a] == slots[a];
      }
    }
  }

  /** A removal loop part-way: the pair at `k` is being closed up;
      slots before `i - 2` are final, slots from `i - 2` on are as before. */
  ghost predicate Shifting<T>(before: seq<T>, d: seq<T>, k: nat, i: nat) {
    |d| == |before| && k + 2 <= i <= |d|
    && d[..k] == before[..k] && d[k..i - 2] == before[k + 2..i] && d[i - 2..] == before[i - 2..]
  }

  lemma ShiftStep<T>(before: seq<T>, d: seq<T>, k: nat, i: nat)
    requires Shifting(before, d, k, i) && i < |d|
    ensures Shifting(before, d[i - 2 := d[i]], k, i + 1)
  {
    var d' := d[i - 2 := d[i]];
    assert d[i] == before[i];
    assert d'[k..i - 1] == d[k..i - 2] + [before[i]];
    assert before[k + 2..i + 1] == before[k + 2..i] + [before[i]];
    assert d'[i - 1..] == d[i - 1..];
  }

  lemma ShiftStart<T>(before: seq<T>, k: nat)
    requires k + 2 <= |before|
    ensures Shifting(before, before, k, k + 2)
  {
  }

  lemma ShiftDone<T>(before: seq<T>, d: seq<T>, k: nat)
    requires Shifting(before, d, k, |d|)
    ensures d[..|d| - 2] == RemovePair(before, k)
  {
    assert d[..|d| - 2] == d[..k] + d[k..|d| - 2];
  }

  /** Moving every slot after pair `k` down two places and dropping the
      last two, the loop both C stores remove a pair with (the `zp_remove`
      loop as evidently intended: its assignment is unsequenced). */
  method CutPair<T>(slots: seq<T>, k: nat) returns (r: seq<T>)
    requires k + 2 <= |slots|
    ensures r == RemovePair(slots, k)
  {
    r := slots;
    var i := k + 2;
    ShiftStart(slots, k);
    while i < |r|
      invariant k + 2 <= i
      invariant Shifting(slots, r, k, i)
    {
      ShiftStep(slots, r, k, i);
      r := r[i - 2 := r[i]];
      i := i + 1;
    }
    ShiftDone(slots, r, k);
    r := r[..|r| - 2];
  }

  /** Appending a pair leaves an earlier match where it was; otherwise the
      key is found at the new pair exactly when it is the new key. */
  lemma FindKeyAfterAppend<T>(slots: seq<T>, k: T, v: T, key: T)
    requires |slots| % 2 == 0
    ensures FindKey(slots + [k, v], key)
      == if FindKey(slots, key) >= 0 then FindKey(slots, key) else if k == key then |slots| else -1
  {
    var d := slots + [k, v];
    var f := FindKey(slots, key);
    forall i | 0 <= i < |slots| ensures d[i] == slots[i] { }
    if f >= 0 {
      assert d[f] == key;
      forall i | 0 <= i < f && i % 2 == 0 ensures d[i] != key { }
    } else if k == key {
      assert d[|slots|] == key;
      forall i | 0 <= i < |slots| && i % 2 == 0 ensures d[i] != key { }
    } else {
      forall i | 0 <= i < |d| && i % 2 == 0 ensures d[i] != key {
        if i == |slots| { assert d[i] == k; }
      }
    }
  }

  /** Removing the pair at `i`, whose key is not `key`, moves a later
      match of `key` down two slots and leaves an earlier one in place;
      the value beside it goes with it. */
  lemma FindKeyAfterRemove<T>(slots: seq<T>, i: nat, key: T)
    requires |slots| % 2 == 0 && i % 2 == 0 && i + 2 <= |slots| && slots[i] != key
    ensures var f := FindKey(slots, key);
      FindKey(RemovePair(slots, i), key) == if f < 0 then -1 else if f < i then f else f - 2
    ensures var f := FindKey(slots, key);
      f >= 0 ==> RemovePair(slots, i)[FindKey(RemovePair(slots, i), key) + 1] == slots[f + 1]
  {
    var r := RemovePair(slots, i);
    var f := FindKey(slots, key);
    forall j | 0 <= j < |r| ensures r[j] == if j < i then slots[j] else slots[j + 2] {
      if j < i { assert r[j] == r[..i][j]; } else { assert r[j] == r[i..][j - i]; }
    }
    if f < 0 {
      forall j | 0 <= j < |r| && j % 2 == 0 ensures r[j] != key {
        if j >= i { assert r[j] == slots[j + 2]; }
      }
    } else if f < i {
      forall j | 0 <= j < f && j % 2 == 0 ensures r[j] != key { }
    } else {
      assert f != i;
      forall j | 0 <= j < f - 2 && j % 2 == 0 ensures r[j] != key {
        if j >= i { assert r[j] == slots[j + 2]; }
      }
      assert r[f - 2] == slots[f];
    }
  }
}
