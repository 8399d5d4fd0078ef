/** The frequency model shared by the Huffman and arithmetic coders: a Map
    from each distinct pixel to its number of occurrences, filled in scan
    order, so its keys come in the order their pixels are first seen. */
module Frequency {
  import opened Image

  /** No element occurs twice. */
  ghost predicate Unique(s: seq<Pixel>)
  {
    forall x :: multiset(s)[x] <= 1
  }

  /** How often s occurs in ps. */
  function Occurrences(ps: seq<Pixel>, s: Pixel): nat
  {
    if ps == [] then 0
    else Occurrences(ps[..|ps| - 1], s) + (if ps[|ps| - 1] == s then 1 else 0)
  }

  /** The distinct elements of ps, each where it first occurs. */
  function FirstSeen(ps: seq<Pixel>): seq<Pixel>
  {
    if ps == [] then []
    else if ps[|ps| - 1] in ps[..|ps| - 1] then FirstSeen(ps[..|ps| - 1])
    else FirstSeen(ps[..|ps| - 1]) + [ps[|ps| - 1]]
  }

  /** A JavaScript Map from pixel keys to numbers: its keys in insertion
      order and the number stored under each. */
  datatype SymbolMap = SymbolMap(keys: seq<Pixel>, value: map<Pixel, nat>)
  {
    /** `get(key) || 0`: the number stored under key, 0 when there is none. */
    function Get(key: Pixel): (n: nat)
      ensures key in value ==> n == value[key]
      ensures key !in value ==> n == 0
    {
      if key in value then value[key] else 0
    }

    /** `set(key, n)`: a key already present keeps its place in the order,
        a new key goes last. */
    function Set(key: Pixel, n: nat): (m: SymbolMap)
      ensures m.value == value[key := n]
      ensures key in value ==> m.keys == keys
      ensures key !in value ==> m.keys == keys + [key]
    {
      SymbolMap(if key in value then keys else keys + [key], value[key := n])
    }
  }

  /** One entry per key, and the keys are exactly the map's domain. */
  ghost predicate Valid(m: SymbolMap)
  {
    Unique(m.keys) && (forall s :: s in m.keys <==> s in m.value)
  }

  /** The sum of the values stored under the listed keys. */
  function Total(keys: seq<Pixel>, value: map<Pixel, nat>): nat
    requires forall k :: k in keys ==> k in value
  {
    if keys == [] then 0
    else Total(keys[..|keys| - 1], value) + value[keys[|keys| - 1]]
  }

  /** The frequency Map of a sequence of pixels. */
  function Frequencies(ps: seq<Pixel>): SymbolMap
  {
    SymbolMap(FirstSeen(ps), map s | s in ps :: Occurrences(ps, s))
  }

  lemma {:induction false} OccurrencesPositive(ps: seq<Pixel>, s: Pixel)
    ensures Occurrences(ps, s) > 0 <==> s in ps
  {
    if ps != [] {
      OccurrencesPositive(ps[..|ps| - 1], s);
      assert ps == ps[..|ps| - 1] + [ps[|ps| - 1]];
    }
  }

  lemma UniqueAppend(s: seq<Pixel>, x: Pixel)
    requires Unique(s) && x !in s
    ensures Unique(s + [x])
  {
    assert multiset(s + [x]) == multiset(s) + multiset{x};
  }

  lemma UniquePrefix(s: seq<Pixel>)
    requires s != [] && Unique(s)
    ensures Unique(s[..|s| - 1]) && s[|s| - 1] !in s[..|s| - 1]
  {
    var init, x := s[..|s| - 1], s[|s| - 1];
    assert s == init + [x];
    assert multiset(s) == multiset(init) + multiset{x};
    forall y
      ensures multiset(init)[y] <= 1
    {
      assert multiset(init)[y] <= multiset(s)[y];
    }
    assert multiset(s)[x] == multiset(init)[x] + 1;
    assert multiset(init)[x] == 0;
  }

  lemma {:induction false} FirstSeenFacts(ps: seq<Pixel>)
    ensures Unique(FirstSeen(ps))
    ensures forall s :: s in FirstSeen(ps) <==> s in ps
  {
    if ps != [] {
      var init, x := ps[..|ps| - 1], ps[|ps| - 1];
      FirstSeenFacts(init);
      assert ps == init + [x];
      if x !in init {
        UniqueAppend(FirstSeen(init), x);
      }
    }
  }

  /** Totals depend only on the values under the listed keys. */
  lemma {:induction false} TotalAgree(keys: seq<Pixel>, m1: map<Pixel, nat>, m2: map<Pixel, nat>)
    requires forall k :: k in keys ==> k in m1 && k in m2 && m1[k] == m2[k]
    ensures Total(keys, m1) == Total(keys, m2)
  {
    if keys != [] {
      TotalAgree(keys[..|keys| - 1], m1, m2);
    }
  }

  /** Adding one under a key listed once adds one to the total. */
  lemma {:induction false} TotalBump(keys: seq<Pixel>, m: map<Pixel, nat>, x: Pixel)
    requires Unique(keys) && x in keys
    requires forall k :: k in keys ==> k in m
    ensures Total(keys, m[x := m[x] + 1]) == Total(keys, m) + 1
  {
    var init, k := keys[..|keys| - 1], keys[|keys| - 1];
    UniquePrefix(keys);
    if k == x {
      TotalAgree(init, m, m[x := m[x] + 1]);
    } else {
      assert keys == init + [k];
      TotalBump(init, m, x);
    }
  }

  /** `frequencies.set(key, (frequencies.get(key) || 0) + 1)`: a key seen
      before keeps its place and goes up by one; a new key is appended with 1. */
  lemma FrequenciesSnoc(ps: seq<Pixel>, x: Pixel)
    ensures Frequencies(ps + [x]) == Frequencies(ps).Set(x, Frequencies(ps).Get(x) + 1)
  {
    var f, g := Frequencies(ps), Frequencies(ps + [x]);
    assert (ps + [x])[..|ps|] == ps;
    var v := f.value[x := (if x in f.value then f.value[x] else 0) + 1];
    forall s | s in g.value
      ensures s in v && g.value[s] == v[s]
    {
      assert s in ps || s == x;
      OccurrencesPositive(ps, s);
      assert Occurrences(ps + [x], s) == Occurrences(ps, s) + (if x == s then 1 else 0);
    }
    forall s | s in v
      ensures s in g.value
    {
      assert s in ps + [x];
    }
    assert g.value == v;
  }

  /** Every key of the frequency Map has a count and is one of the pixels. */
  lemma FrequenciesDomain(ps: seq<Pixel>)
    ensures forall s :: s in Frequencies(ps).keys ==> s in Frequencies(ps).value && s in ps
  {
    FirstSeenFacts(ps);
  }

  /** The frequency Map of a buffer: its keys are the distinct pixels, each
      once, in first-seen order, and each maps to its number of occurrences. */
  lemma FrequenciesFacts(ps: seq<Pixel>)
    ensures Valid(Frequencies(ps))
    ensures Frequencies(ps).keys == FirstSeen(ps)
    ensures forall s :: s in ps <==> s in Frequencies(ps).value
    ensures forall s :: s in Frequencies(ps).value ==>
              Frequencies(ps).value[s] == Occurrences(ps, s) >= 1
  {
    FirstSeenFacts(ps);
    forall s | s in ps
      ensures Occurrences(ps, s) >= 1
    {
      OccurrencesPositive(ps, s);
    }
  }

  /** The counts of the frequency Map add up to the number of pixels. */
  lemma {:induction false} FrequenciesTotal(ps: seq<Pixel>)
    ensures Valid(Frequencies(ps))
    ensures Total(Frequencies(ps).keys, Frequencies(ps).value) == |ps|
  {
    assert Valid(Frequencies(ps)) by {
      FrequenciesFacts(ps);
    }
    if ps != [] {
      var init, x := ps[..|ps| - 1], ps[|ps| - 1];
      assert ps == init + [x];
      var f := Frequencies(init);
      var g := f.Set(x, f.Get(x) + 1);
      FrequenciesTotal(init);
      FrequenciesSnoc(init, x);
      TotalCountUp(f, x);
      assert Frequencies(ps) == g;
      assert Total(g.keys, g.value) == |init| + 1;
    }
  }

  /** Counting one more occurrence of a key adds one to the total. */
  lemma TotalCountUp(f: SymbolMap, x: Pixel)
    requires Valid(f)
    ensures var g := f.Set(x, f.Get(x) + 1);
      (forall k :: k in g.keys ==> k in g.value) &&
      Total(g.keys, g.value) == Total(f.keys, f.value) + 1
  {
    var g := f.Set(x, f.Get(x) + 1);
    if x in f.value {
      assert g.keys == f.keys && g.value == f.value[x := f.value[x] + 1];
      TotalBump(f.keys, f.value, x);
    } else {
      var v := f.value[x := 1];
      assert g.keys == f.keys + [x] && g.value == v;
      assert Total(g.keys, v) == Total(f.keys, v) + 1 by {
        assert (f.keys + [x])[..|f.keys|] == f.keys;
      }
      TotalAgree(f.keys, f.value, v);
    }
  }

  /** One pass of the frequency loop: the Map of the first k pixels, updated
      with the pixel at byte i = 4k, is the Map of the first k+1 pixels. */
  lemma CountNext(data: seq<Byte>, i: nat, k: nat, freq: SymbolMap)
    requires |data| % 4 == 0 && i == 4 * k && i + 4 <= |data|
    requires freq == Frequencies(Symbols(data)[..k])
    ensures freq.Set(PixelAt(data, k), freq.Get(PixelAt(data, k)) + 1) == Frequencies(Symbols(data)[..k + 1])
  {
    var ps, x := Symbols(data)[..k], PixelAt(data, k);
    SymbolsNext(data, k);
    FrequenciesSnoc(ps, x);
  }

  /** The frequency loop of `huffmanEncoding` (and, identically, of
      `arithmeticEncoding`): one Map update per pixel, in scan order. */
  method CountFrequencies(data: seq<Byte>) returns (freq: SymbolMap)
    requires |data| % 4 == 0
    ensures freq == Frequencies(Symbols(data))
  {
    freq := SymbolMap([], map[]);
    var i := 0;
    ghost var k := 0;
    assert Symbols(data)[..0] == [];
    while i < |data|
      invariant 0 <= i <= |data| && i == 4 * k
      invariant freq == Frequencies(Symbols(data)[..k])
    {
      var key := Pixel(data[i], data[i + 1], data[i + 2], data[i + 3]);
      assert key == PixelAt(data, k);
      CountNext(data, i, k, freq);
      freq := freq.Set(key, freq.Get(key) + 1);
      i, k := i + 4, k + 1;
    }
    SymbolsPrefix(data, k);
  }
}
