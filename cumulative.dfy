/** Step 2 of `arithmeticEncoding`: the keys of the frequency Map sorted as
    strings, and the Map from each key to the number of pixels whose keys
    sort before it. */
module Cumulative {
  import opened Image
  import opened Keys
  import opened Frequency

  /** Insert x in front of the first key that does not sort below it. */
  function InsertKey(x: Pixel, t: seq<Pixel>): (s: seq<Pixel>)
    ensures |s| == |t| + 1
  {
    if t == [] || !Below(KeyOf(t[0]), KeyOf(x)) then [x] + t
    else [t[0]] + InsertKey(x, t[1..])
  }

  /** `Array.from(frequencies.keys()).sort()`: the keys in the order of their
      strings `${r}_${g}_${b}_${a}`. */
  function SortKeys(keys: seq<Pixel>): (s: seq<Pixel>)
    ensures |s| == |keys|
  {
    if keys == [] then [] else InsertKey(keys[0], SortKeys(keys[1..]))
  }

  /** Each key's string sorts strictly below the strings of the keys after it. */
  predicate Ascending(s: seq<Pixel>)
  {
    forall i, j :: 0 <= i < j < |s| ==> Below(KeyOf(s[i]), KeyOf(s[j]))
  }

  lemma {:induction false} InsertKeyPermutes(x: Pixel, t: seq<Pixel>)
    ensures multiset(InsertKey(x, t)) == multiset(t) + multiset{x}
  {
    if t != [] && Below(KeyOf(t[0]), KeyOf(x)) {
      InsertKeyPermutes(x, t[1..]);
      assert t == [t[0]] + t[1..];
    }
  }

  /** Sorting permutes the keys. */
  lemma {:induction false} SortKeysPermutes(keys: seq<Pixel>)
    ensures multiset(SortKeys(keys)) == multiset(keys)
  {
    if keys != [] {
      SortKeysPermutes(keys[1..]);
      InsertKeyPermutes(keys[0], SortKeys(keys[1..]));
      assert keys == [keys[0]] + keys[1..];
    }
  }

  /** Two different pixels have keys in one order or the other. */
  lemma KeysCompare(x: Pixel, y: Pixel)
    requires x != y
    ensures Below(KeyOf(x), KeyOf(y)) || Below(KeyOf(y), KeyOf(x))
  {
    KeyOfInjective(x, y);
    BelowTotal(KeyOf(x), KeyOf(y));
  }

  lemma {:induction false} InsertKeyAscending(x: Pixel, t: seq<Pixel>)
    requires Ascending(t) && x !in t
    ensures Ascending(InsertKey(x, t))
  {
    if t == [] {
    } else if !Below(KeyOf(t[0]), KeyOf(x)) {
      KeysCompare(x, t[0]);
      var s := [x] + t;
      forall i, j | 0 <= i < j < |s|
        ensures Below(KeyOf(s[i]), KeyOf(s[j]))
      {
        if i == 0 && j > 1 {
          BelowTransitive(KeyOf(x), KeyOf(t[0]), KeyOf(t[j - 1]));
        }
      }
    } else {
      var rest := InsertKey(x, t[1..]);
      InsertKeyAscending(x, t[1..]);
      InsertKeyPermutes(x, t[1..]);
      var s := [t[0]] + rest;
      forall i, j | 0 <= i < j < |s|
        ensures Below(KeyOf(s[i]), KeyOf(s[j]))
      {
        if i == 0 {
          assert s[j] in multiset(rest);
          assert s[j] == x || s[j] in t[1..];
        }
      }
    }
  }

  /** Sorting distinct keys puts them in strictly ascending string order. */
  lemma {:induction false} SortKeysAscending(keys: seq<Pixel>)
    requires Unique(keys)
    ensures Ascending(SortKeys(keys))
  {
    if keys != [] {
      assert keys == [keys[0]] + keys[1..];
      assert multiset(keys) == multiset{keys[0]} + multiset(keys[1..]);
      forall y
        ensures multiset(keys[1..])[y] <= 1
      {
        assert multiset(keys[1..])[y] <= multiset(keys)[y];
      }
      assert multiset(keys[1..])[keys[0]] == multiset(keys)[keys[0]] - 1 == 0;
      SortKeysAscending(keys[1..]);
      SortKeysPermutes(keys[1..]);
      assert keys[0] !in multiset(SortKeys(keys[1..]));
      InsertKeyAscending(keys[0], SortKeys(keys[1..]));
    }
  }

  lemma {:induction false} TotalCons(x: Pixel, t: seq<Pixel>, value: map<Pixel, nat>)
    requires x in value && forall k :: k in t ==> k in value
    ensures Total([x] + t, value) == value[x] + Total(t, value)
    decreases |t|
  {
    if t != [] {
      var init := t[..|t| - 1];
      assert ([x] + t)[..|t|] == [x] + init;
      TotalCons(x, init, value);
    } else {
      assert ([x] + t)[..0] == [];
    }
  }

  lemma {:induction false} TotalInsert(x: Pixel, t: seq<Pixel>, value: map<Pixel, nat>)
    requires x in value && forall k :: k in t ==> k in value
    ensures forall k :: k in InsertKey(x, t) ==> k in value
    ensures Total(InsertKey(x, t), value) == value[x] + Total(t, value)
  {
    InsertKeyPermutes(x, t);
    forall k | k in InsertKey(x, t)
      ensures k in value
    {
      assert k in multiset(InsertKey(x, t));
    }
    if t == [] || !Below(KeyOf(t[0]), KeyOf(x)) {
      TotalCons(x, t, value);
    } else {
      TotalInsert(x, t[1..], value);
      TotalCons(t[0], InsertKey(x, t[1..]), value);
      TotalCons(t[0], t[1..], value);
      assert t == [t[0]] + t[1..];
    }
  }

  lemma TotalSnoc(keys: seq<Pixel>, x: Pixel, value: map<Pixel, nat>)
    requires x in value && forall k :: k in keys ==> k in value
    ensures Total(keys + [x], value) == Total(keys, value) + value[x]
  {
    assert (keys + [x])[..|keys|] == keys;
  }

  /** Sorting does not change the sum of the counts. */
  lemma {:induction false} TotalSorted(keys: seq<Pixel>, value: map<Pixel, nat>)
    requires forall k :: k in keys ==> k in value
    ensures forall k :: k in SortKeys(keys) ==> k in value
    ensures Total(SortKeys(keys), value) == Total(keys, value)
  {
    if keys != [] {
      assert keys == [keys[0]] + keys[1..];
      TotalSorted(keys[1..], value);
      TotalInsert(keys[0], SortKeys(keys[1..]), value);
      TotalCons(keys[0], keys[1..], value);
    }
  }

  /** No key occurs at two positions. */
  predicate Distinct(s: seq<Pixel>)
  {
    forall i, j :: 0 <= i < j < |s| ==> s[i] != s[j]
  }

  /** A non-empty sequence has distinct positions exactly when its head is
      not in its tail and the tail has distinct positions. */
  lemma DistinctCons(x: Pixel, t: seq<Pixel>)
    ensures Distinct([x] + t) <==> x !in t && Distinct(t)
  {
    var s := [x] + t;
    if Distinct(s) {
      forall j | 0 <= j < |t|
        ensures t[j] != x
      {
        assert s[0] == x && s[j + 1] == t[j];
      }
      forall i, j | 0 <= i < j < |t|
        ensures t[i] != t[j]
      {
        assert s[i + 1] == t[i] && s[j + 1] == t[j];
      }
    }
    if x !in t && Distinct(t) {
      forall i, j | 0 <= i < j < |s|
        ensures s[i] != s[j]
      {
        if i == 0 {
          assert s[j] == t[j - 1];
        } else {
          assert s[i] == t[i - 1] && s[j] == t[j - 1];
        }
      }
    }
  }

  /** A non-empty sequence has every key once exactly when its head is not
      in its tail and the tail has every key once. */
  lemma UniqueCons(x: Pixel, t: seq<Pixel>)
    ensures Unique([x] + t) <==> x !in t && Unique(t)
  {
    var s := [x] + t;
    assert multiset(s) == multiset{x} + multiset(t);
    if Unique(s) {
      forall y
        ensures multiset(t)[y] <= 1
      {
        assert multiset(s)[y] >= multiset(t)[y];
      }
      assert multiset(s)[x] == multiset(t)[x] + 1;
    }
    if x !in t && Unique(t) {
      forall y
        ensures multiset(s)[y] <= 1
      {
        if y == x {
          assert multiset(t)[x] == 0;
        }
      }
    }
  }

  /** Distinct positions hold distinct keys exactly when every key occurs
      once, as the frequency Map's keys do. */
  lemma {:induction false} DistinctUnique(s: seq<Pixel>)
    ensures Distinct(s) <==> Unique(s)
  {
    if s != [] {
      assert s == [s[0]] + s[1..];
      DistinctUnique(s[1..]);
      DistinctCons(s[0], s[1..]);
      UniqueCons(s[0], s[1..]);
    }
  }

  /** In a sequence of distinct keys, no key occurs before its position. */
  lemma DistinctFresh(s: seq<Pixel>, i: nat)
    requires Distinct(s) && i < |s|
    ensures s[i] !in s[..i]
  {
    assert forall j :: 0 <= j < i ==> s[..i][j] == s[j];
  }

  /** value stores, for each of the keys, the running total of the counts
      freq of the keys before it, and cumulative is the running total after
      the last. */
  ghost predicate RunningTotals(keys: seq<Pixel>, value: map<Pixel, nat>, freq: map<Pixel, nat>, cumulative: nat)
  {
    (forall s :: s in value <==> s in keys) &&
    (forall s :: s in keys ==> s in freq) &&
    (keys != [] ==> value[keys[0]] == 0) &&
    (forall j :: 0 <= j < |keys| - 1 ==> value[keys[j + 1]] == value[keys[j]] + freq[keys[j]]) &&
    (keys == [] ==> cumulative == 0) &&
    (keys != [] ==> cumulative == value[keys[|keys| - 1]] + freq[keys[|keys| - 1]])
  }

  /** One pass of the loop: `cumulativeFrequencies.set(key, cumulative)`,
      then `cumulative += frequencies.get(key)`. */
  lemma RunningTotalsStep(keys: seq<Pixel>, value: map<Pixel, nat>, freq: map<Pixel, nat>, cumulative: nat, key: Pixel)
    requires RunningTotals(keys, value, freq, cumulative) && key !in keys && key in freq
    ensures RunningTotals(keys + [key], value[key := cumulative], freq, cumulative + freq[key])
  {
    var keys', value' := keys + [key], value[key := cumulative];
    forall j | 0 <= j < |keys'| - 1
      ensures value'[keys'[j + 1]] == value'[keys'[j]] + freq[keys'[j]]
    {
      assert keys'[j] == keys[j];
      if j + 1 < |keys| {
        assert keys'[j + 1] == keys[j + 1];
      }
    }
  }

  /** Each stored running total is the sum of the counts of the keys before
      it. */
  lemma {:induction false} PrefixTotals(keys: seq<Pixel>, value: map<Pixel, nat>, freq: map<Pixel, nat>, j: nat)
    requires forall k :: k in keys ==> k in value && k in freq
    requires keys != [] ==> value[keys[0]] == 0
    requires forall j :: 0 <= j < |keys| - 1 ==> value[keys[j + 1]] == value[keys[j]] + freq[keys[j]]
    requires j < |keys|
    ensures value[keys[j]] == Total(keys[..j], freq)
  {
    if j == 0 {
      assert keys[..0] == [];
    } else {
      PrefixTotals(keys, value, freq, j - 1);
      TotalSnoc(keys[..j - 1], keys[j - 1], freq);
      assert keys[..j - 1] + [keys[j - 1]] == keys[..j];
    }
  }

  /** The final running total is the sum of all the counts. */
  lemma RunningTotalsSum(keys: seq<Pixel>, value: map<Pixel, nat>, freq: map<Pixel, nat>, cumulative: nat)
    requires RunningTotals(keys, value, freq, cumulative)
    ensures cumulative == Total(keys, freq)
  {
    if keys != [] {
      var n := |keys| - 1;
      PrefixTotals(keys, value, freq, n);
      assert keys[..n] + [keys[n]] == keys;
      TotalSnoc(keys[..n], keys[n], freq);
      assert cumulative == value[keys[n]] + freq[keys[n]];
    }
  }

  /** The `sortedKeys.forEach` loop: each key, in the given order, is stored
      with the running total of the counts before it. */
  method Accumulate(sortedKeys: seq<Pixel>, freq: map<Pixel, nat>) returns (cum: SymbolMap, total: nat)
    requires Distinct(sortedKeys) && forall k :: k in sortedKeys ==> k in freq
    ensures cum.keys == sortedKeys
    ensures RunningTotals(cum.keys, cum.value, freq, total)
    ensures total == Total(sortedKeys, freq)
  {
    var keys: seq<Pixel> := [];
    var value: map<Pixel, nat> := map[];
    var cumulative := 0;
    var i := 0;
    while i < |sortedKeys|
      invariant 0 <= i <= |sortedKeys|
      invariant keys == sortedKeys[..i]
      invariant RunningTotals(keys, value, freq, cumulative)
    {
      var key := sortedKeys[i];
      assert sortedKeys[..i + 1] == sortedKeys[..i] + [key];
      DistinctFresh(sortedKeys, i);
      RunningTotalsStep(keys, value, freq, cumulative, key);
      keys := keys + [key];
      value := value[key := cumulative];
      cumulative := cumulative + freq[key];
      i := i + 1;
    }
    assert sortedKeys[..i] == sortedKeys;
    RunningTotalsSum(keys, value, freq, cumulative);
    cum := SymbolMap(keys, value);
    total := cumulative;
  }

  /** Step 2 of `arithmeticEncoding`: sort the keys as strings, then store
      the running totals. The first key gets 0, each next key the previous
      total plus the previous count, and the running total ends at the sum of
      all counts. */
  method CumulativeFrequencies(freq: SymbolMap) returns (cum: SymbolMap, total: nat)
    requires Valid(freq)
    ensures cum.keys == SortKeys(freq.keys) && Ascending(cum.keys)
    ensures forall s :: s in cum.keys <==> s in cum.value
    ensures forall s :: s in cum.value <==> s in freq.value
    ensures cum.keys != [] ==> cum.value[cum.keys[0]] == 0
    ensures forall i :: 0 <= i < |cum.keys| - 1 ==>
      cum.value[cum.keys[i + 1]] == cum.value[cum.keys[i]] + freq.value[cum.keys[i]]
    ensures cum.keys != [] ==> total == cum.value[cum.keys[|cum.keys| - 1]] + freq.value[cum.keys[|cum.keys| - 1]]
    ensures total == Total(freq.keys, freq.value)
  {
    var sortedKeys := SortKeys(freq.keys);
    SortKeysPermutes(freq.keys);
    SortKeysAscending(freq.keys);
    assert Unique(sortedKeys) by {
      assert multiset(sortedKeys) == multiset(freq.keys);
    }
    DistinctUnique(sortedKeys);
    TotalSorted(freq.keys, freq.value);
    forall s
      ensures s in sortedKeys <==> s in freq.value
    {
      assert s in sortedKeys <==> s in multiset(freq.keys);
    }
    cum, total := Accumulate(sortedKeys, freq.value);
  }

  /** The table of a buffer's frequency Map: the keys in ascending string
      order, the first mapped to 0 and each next to the previous plus the
      previous key's number of occurrences; the running total ends at the
      number of pixels, `totalSymbols`. */
  method CumulativeTable(data: seq<Byte>) returns (cum: SymbolMap, total: nat)
    requires |data| % 4 == 0
    ensures cum.keys == SortKeys(FirstSeen(Symbols(data))) && Ascending(cum.keys)
    ensures forall s :: s in cum.keys <==> s in cum.value
    ensures forall s :: s in cum.value <==> s in Symbols(data)
    ensures cum.keys != [] ==> cum.value[cum.keys[0]] == 0
    ensures forall i :: 0 <= i < |cum.keys| - 1 ==>
      cum.value[cum.keys[i + 1]] == cum.value[cum.keys[i]] + Occurrences(Symbols(data), cum.keys[i])
    ensures total == |data| / 4
  {
    var freq := CountFrequencies(data);
    FrequenciesFacts(Symbols(data));
    FrequenciesTotal(Symbols(data));
    cum, total := CumulativeFrequencies(freq);
  }
}
