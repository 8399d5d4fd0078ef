/** Step 2 of `huffmanEncoding`: the Huffman tree, built from one leaf per
    frequency-Map entry by repeatedly sorting the heap by frequency, taking
    the two lowest nodes off the front and pushing their merge at the back. */
module HuffmanTree {
  import opened Image
  import opened Results
  import opened Frequency

  /** `{ key, freq, left: null, right: null }` for a leaf,
      `{ key: null, freq, left, right }` for a merged node. */
  datatype Tree = Leaf(sym: Pixel, freq: nat) | Node(left: Tree, right: Tree, freq: nat)

  /** The leaf symbols, left to right. */
  function Leaves(t: Tree): (s: seq<Pixel>)
    ensures |s| >= 1
  {
    match t
    case Leaf(sym, _) => [sym]
    case Node(l, r, _) => Leaves(l) + Leaves(r)
  }

  /** Every merged node carries the sum of its children's frequencies. */
  predicate WellWeighted(t: Tree)
  {
    match t
    case Leaf(_, _) => true
    case Node(l, r, f) => f == l.freq + r.freq && WellWeighted(l) && WellWeighted(r)
  }

  /** Every leaf carries the number of occurrences of its symbol in ps. */
  predicate LeafCounts(t: Tree, ps: seq<Pixel>)
  {
    match t
    case Leaf(sym, f) => f == Occurrences(ps, sym)
    case Node(l, r, _) => LeafCounts(l, ps) && LeafCounts(r, ps)
  }

  /** A Huffman tree for the pixels ps: well formed, one leaf for each
      distinct pixel and no other, leaf frequencies the occurrence counts,
      and the root frequency the number of pixels. */
  ghost predicate IsTreeFor(t: Tree, ps: seq<Pixel>)
  {
    WellWeighted(t) && LeafCounts(t, ps) &&
    multiset(Leaves(t)) == multiset(FirstSeen(ps)) && t.freq == |ps|
  }

  /** All leaf symbols of a heap, front to back. */
  function AllLeaves(h: seq<Tree>): seq<Pixel>
  {
    if h == [] then [] else Leaves(h[0]) + AllLeaves(h[1..])
  }

  /** The sum of the frequencies of a heap's nodes. */
  function SumFreq(h: seq<Tree>): nat
  {
    if h == [] then 0 else h[0].freq + SumFreq(h[1..])
  }

  /** The state of the heap between rounds, for the pixels ps. */
  ghost predicate HeapFor(h: seq<Tree>, ps: seq<Pixel>)
  {
    (forall i :: 0 <= i < |h| ==> WellWeighted(h[i]) && LeafCounts(h[i], ps)) &&
    multiset(AllLeaves(h)) == multiset(FirstSeen(ps)) && SumFreq(h) == |ps|
  }

  // ---------------------------------------------------------------------
  // heap.sort((a, b) => a.freq - b.freq)

  /** Insert x in front of the first node whose frequency is not lower. */
  function InsertByFreq(x: Tree, t: seq<Tree>): (s: seq<Tree>)
    ensures |s| == |t| + 1
  {
    if t == [] || x.freq <= t[0].freq then [x] + t else [t[0]] + InsertByFreq(x, t[1..])
  }

  /** `Array.prototype.sort` with the comparator `a.freq - b.freq`: a stable
      sort, so nodes of equal frequency keep their relative order. */
  function SortByFreq(h: seq<Tree>): (s: seq<Tree>)
    ensures |s| == |h|
  {
    if h == [] then [] else InsertByFreq(h[0], SortByFreq(h[1..]))
  }

  predicate SortedByFreq(s: seq<Tree>)
  {
    forall i, j :: 0 <= i < j < |s| ==> s[i].freq <= s[j].freq
  }

  /** The nodes of frequency f, in order. */
  function WithFreq(s: seq<Tree>, f: nat): seq<Tree>
  {
    if s == [] then [] else (if s[0].freq == f then [s[0]] else []) + WithFreq(s[1..], f)
  }

  lemma {:induction false} InsertPermutes(x: Tree, t: seq<Tree>)
    ensures multiset(InsertByFreq(x, t)) == multiset(t) + multiset{x}
  {
    if t != [] && x.freq > t[0].freq {
      InsertPermutes(x, t[1..]);
      assert t == [t[0]] + t[1..];
    }
  }

  /** The nodes after an insertion are the inserted node and the old ones. */
  lemma {:induction false} InsertElements(x: Tree, t: seq<Tree>)
    ensures forall y :: y in InsertByFreq(x, t) <==> y == x || y in t
  {
    if t != [] && x.freq > t[0].freq {
      InsertElements(x, t[1..]);
      assert t == [t[0]] + t[1..];
    }
  }

  /** A node no heavier than any node of a sorted heap can go in front. */
  lemma SortedCons(y: Tree, s: seq<Tree>)
    requires SortedByFreq(s) && forall z :: z in s ==> y.freq <= z.freq
    ensures SortedByFreq([y] + s)
  {
    forall i, j | 0 <= i < j < |s| + 1
      ensures ([y] + s)[i].freq <= ([y] + s)[j].freq
    {
      assert ([y] + s)[j] == s[j - 1];
      if i == 0 {
        assert s[j - 1] in s;
      } else {
        assert ([y] + s)[i] == s[i - 1];
      }
    }
  }

  /** The front of a sorted heap is no heavier than any of its nodes. */
  lemma SortedFront(t: seq<Tree>)
    requires t != [] && SortedByFreq(t)
    ensures SortedByFreq(t[1..]) && forall z :: z in t[1..] ==> t[0].freq <= z.freq
  {
    forall z | z in t[1..]
      ensures t[0].freq <= z.freq
    {
      var j :| 0 <= j < |t[1..]| && t[1..][j] == z;
      assert t[j + 1] == z;
    }
  }

  lemma {:induction false} InsertSorted(x: Tree, t: seq<Tree>)
    requires SortedByFreq(t)
    ensures SortedByFreq(InsertByFreq(x, t))
  {
    if t == [] {
      SortedCons(x, t);
    } else {
      SortedFront(t);
      if x.freq <= t[0].freq {
        SortedCons(x, t);
      } else {
        InsertSorted(x, t[1..]);
        InsertElements(x, t[1..]);
        SortedCons(t[0], InsertByFreq(x, t[1..]));
      }
    }
  }

  lemma WithFreqCons(y: Tree, t: seq<Tree>, f: nat)
    ensures WithFreq([y] + t, f) == (if y.freq == f then [y] else []) + WithFreq(t, f)
  {
    assert ([y] + t)[0] == y && ([y] + t)[1..] == t;
  }

  lemma {:induction false} InsertStable(x: Tree, t: seq<Tree>, f: nat)
    ensures WithFreq(InsertByFreq(x, t), f) == (if x.freq == f then [x] else []) + WithFreq(t, f)
  {
    if t != [] && x.freq > t[0].freq {
      var rest := InsertByFreq(x, t[1..]);
      InsertStable(x, t[1..], f);
      WithFreqCons(t[0], rest, f);
      WithFreqCons(t[0], t[1..], f);
      assert t == [t[0]] + t[1..];
      if t[0].freq == f {
        assert x.freq != f;
      }
    } else {
      WithFreqCons(x, t, f);
    }
  }

  /** The sort permutes the heap ... */
  lemma {:induction false} SortPermutes(h: seq<Tree>)
    ensures multiset(SortByFreq(h)) == multiset(h)
  {
    if h != [] {
      SortPermutes(h[1..]);
      InsertPermutes(h[0], SortByFreq(h[1..]));
      assert h == [h[0]] + h[1..];
    }
  }

  /** ... into ascending order of frequency ... */
  lemma {:induction false} SortSorts(h: seq<Tree>)
    ensures SortedByFreq(SortByFreq(h))
  {
    if h != [] {
      SortSorts(h[1..]);
      InsertSorted(h[0], SortByFreq(h[1..]));
    }
  }

  /** ... and keeps nodes of equal frequency in the order they had. */
  lemma {:induction false} SortStable(h: seq<Tree>, f: nat)
    ensures WithFreq(SortByFreq(h), f) == WithFreq(h, f)
  {
    if h != [] {
      SortStable(h[1..], f);
      InsertStable(h[0], SortByFreq(h[1..]), f);
    }
  }

  // ---------------------------------------------------------------------
  // The rounds of the build

  /** One round of the build loop: sort, shift the two lowest, push their merge. */
  function Merge(h: seq<Tree>): (m: seq<Tree>)
    requires |h| >= 2
    ensures |m| == |h| - 1
  {
    var s := SortByFreq(h);
    s[2..] + [Node(s[0], s[1], s[0].freq + s[1].freq)]
  }

  /** The loop run to the end: `heap[0]` once at most one node is left, which
      is `undefined` when the heap started empty. */
  function Build(h: seq<Tree>): Option<Tree>
    decreases |h|
  {
    if h == [] then None
    else if |h| == 1 then Some(h[0])
    else Build(Merge(h))
  }

  /** The initial heap: one leaf per Map entry, in the Map's order. */
  function InitialHeap(freq: SymbolMap): (h: seq<Tree>)
    requires forall k :: k in freq.keys ==> k in freq.value
    ensures |h| == |freq.keys|
  {
    seq(|freq.keys|, i requires 0 <= i < |freq.keys| => Leaf(freq.keys[i], freq.value[freq.keys[i]]))
  }

  /** The tree `huffmanEncoding` builds for the pixels ps. */
  function HuffmanTreeOf(ps: seq<Pixel>): Option<Tree>
  {
    FrequenciesFacts(ps);
    Build(InitialHeap(Frequencies(ps)))
  }

  lemma {:induction false} SumFreqAppend(a: seq<Tree>, b: seq<Tree>)
    ensures SumFreq(a + b) == SumFreq(a) + SumFreq(b)
    ensures AllLeaves(a + b) == AllLeaves(a) + AllLeaves(b)
  {
    if a != [] {
      SumFreqAppend(a[1..], b);
      assert (a + b)[1..] == a[1..] + b;
    } else {
      assert a + b == b;
    }
  }

  lemma {:induction false} InsertKeeps(x: Tree, t: seq<Tree>)
    ensures SumFreq(InsertByFreq(x, t)) == x.freq + SumFreq(t)
    ensures multiset(AllLeaves(InsertByFreq(x, t))) == multiset(Leaves(x)) + multiset(AllLeaves(t))
  {
    var s := InsertByFreq(x, t);
    if t == [] || x.freq <= t[0].freq {
      assert s[0] == x && s[1..] == t;
    } else {
      var rest := InsertByFreq(x, t[1..]);
      InsertKeeps(x, t[1..]);
      assert s[0] == t[0] && s[1..] == rest;
      var a, b, c := multiset(Leaves(t[0])), multiset(Leaves(x)), multiset(AllLeaves(t[1..]));
      assert multiset(AllLeaves(s)) == a + (b + c);
      assert multiset(AllLeaves(t)) == a + c;
    }
  }

  lemma {:induction false} SortKeeps(h: seq<Tree>)
    ensures SumFreq(SortByFreq(h)) == SumFreq(h)
    ensures multiset(AllLeaves(SortByFreq(h))) == multiset(AllLeaves(h))
  {
    if h != [] {
      SortKeeps(h[1..]);
      InsertKeeps(h[0], SortByFreq(h[1..]));
    }
  }

  /** The sorted heap still satisfies the heap invariant. */
  lemma SortedHeapFor(h: seq<Tree>, ps: seq<Pixel>)
    requires HeapFor(h, ps)
    ensures HeapFor(SortByFreq(h), ps)
  {
    var s := SortByFreq(h);
    SortPermutes(h);
    SortKeeps(h);
    forall i | 0 <= i < |s|
      ensures WellWeighted(s[i]) && LeafCounts(s[i], ps)
    {
      assert s[i] in multiset(h);
    }
  }

  /** Taking the two front nodes off and pushing their merge keeps the total
      frequency and the leaves. */
  lemma ShiftPushSums(s: seq<Tree>)
    requires |s| >= 2
    ensures var m := s[2..] + [Node(s[0], s[1], s[0].freq + s[1].freq)];
            SumFreq(m) == SumFreq(s) && multiset(AllLeaves(m)) == multiset(AllLeaves(s))
  {
    var node := Node(s[0], s[1], s[0].freq + s[1].freq);
    SumFreqAppend(s[2..], [node]);
    SingletonHeap(node);
    FrontTwo(s);
    var a, b, c := multiset(Leaves(s[0])), multiset(Leaves(s[1])), multiset(AllLeaves(s[2..]));
    assert multiset(AllLeaves(s[2..] + [node])) == c + (a + b);
    assert c + (a + b) == a + b + c;
  }

  /** A heap of one node. */
  lemma SingletonHeap(t: Tree)
    ensures SumFreq([t]) == t.freq && AllLeaves([t]) == Leaves(t)
  {
    assert [t][1..] == [];
  }

  /** The two front nodes of a heap and the rest. */
  lemma FrontTwo(s: seq<Tree>)
    requires |s| >= 2
    ensures SumFreq(s) == s[0].freq + s[1].freq + SumFreq(s[2..])
    ensures multiset(AllLeaves(s)) == multiset(Leaves(s[0])) + multiset(Leaves(s[1])) + multiset(AllLeaves(s[2..]))
  {
    assert s[1..][1..] == s[2..];
    assert AllLeaves(s) == Leaves(s[0]) + (Leaves(s[1]) + AllLeaves(s[2..]));
  }

  /** Taking the two front nodes off and pushing their merge keeps the heap
      invariant. */
  lemma ShiftPushKeeps(s: seq<Tree>, ps: seq<Pixel>)
    requires |s| >= 2 && HeapFor(s, ps)
    ensures HeapFor(s[2..] + [Node(s[0], s[1], s[0].freq + s[1].freq)], ps)
  {
    var m := s[2..] + [Node(s[0], s[1], s[0].freq + s[1].freq)];
    ShiftPushSums(s);
    forall i | 0 <= i < |m|
      ensures WellWeighted(m[i]) && LeafCounts(m[i], ps)
    {
      if i < |s| - 2 {
        assert m[i] == s[i + 2];
      }
    }
  }

  /** A round keeps the heap a heap for ps: nodes well formed, the same
      leaves, the same total frequency. */
  lemma MergeKeeps(h: seq<Tree>, ps: seq<Pixel>)
    requires |h| >= 2 && HeapFor(h, ps)
    ensures HeapFor(Merge(h), ps)
  {
    var s := SortByFreq(h);
    SortedHeapFor(h, ps);
    ShiftPushKeeps(s, ps);
    assert Merge(h) == s[2..] + [Node(s[0], s[1], s[0].freq + s[1].freq)];
  }

  /** The build loop ends in a Huffman tree for ps, unless the heap is empty. */
  lemma {:induction false} BuildKeeps(h: seq<Tree>, ps: seq<Pixel>)
    requires HeapFor(h, ps)
    ensures Build(h).Some? <==> h != []
    ensures Build(h).Some? ==> IsTreeFor(Build(h).value, ps)
    decreases |h|
  {
    if |h| == 1 {
      assert h[1..] == [];
      assert AllLeaves(h) == Leaves(h[0]);
      assert SumFreq(h) == h[0].freq;
    } else if |h| >= 2 {
      MergeKeeps(h, ps);
      BuildKeeps(Merge(h), ps);
    }
  }

  lemma {:induction false} InitialHeapFacts(keys: seq<Pixel>, value: map<Pixel, nat>)
    requires forall k :: k in keys ==> k in value
    ensures AllLeaves(InitialHeap(SymbolMap(keys, value))) == keys
    ensures SumFreq(InitialHeap(SymbolMap(keys, value))) == Total(keys, value)
  {
    if keys != [] {
      var init, x := keys[..|keys| - 1], keys[|keys| - 1];
      InitialHeapFacts(init, value);
      var h, h' := InitialHeap(SymbolMap(keys, value)), InitialHeap(SymbolMap(init, value));
      assert h == h' + [Leaf(x, value[x])];
      SumFreqAppend(h', [Leaf(x, value[x])]);
      assert [Leaf(x, value[x])][1..] == [];
    }
  }

  /** The leaves of the first heap are the frequency Map's entries. */
  lemma InitialHeapFor(ps: seq<Pixel>)
    ensures (FrequenciesFacts(ps); HeapFor(InitialHeap(Frequencies(ps)), ps))
  {
    FrequenciesFacts(ps);
    FrequenciesTotal(ps);
    var f := Frequencies(ps);
    InitialHeapFacts(f.keys, f.value);
  }

  /** `huffmanEncoding` has a tree exactly for a non-empty buffer, and that
      tree is a Huffman tree for its pixels. */
  lemma HuffmanTreeFacts(ps: seq<Pixel>)
    ensures HuffmanTreeOf(ps).Some? <==> ps != []
    ensures HuffmanTreeOf(ps).Some? ==> IsTreeFor(HuffmanTreeOf(ps).value, ps)
  {
    FrequenciesFacts(ps);
    InitialHeapFor(ps);
    BuildKeeps(InitialHeap(Frequencies(ps)), ps);
    FirstSeenFacts(ps);
    if ps != [] {
      assert ps[0] in FirstSeen(ps);
    }
  }

  lemma {:induction false} LeavesCount(t: Tree)
    ensures t.Node? ==> |Leaves(t)| >= 2
  {
  }

  /** The shape of a Huffman tree: its leaves are exactly the distinct pixels,
      each once, and it is a single leaf exactly when there is one distinct
      pixel. */
  lemma TreeShape(t: Tree, ps: seq<Pixel>)
    requires IsTreeFor(t, ps)
    ensures Unique(Leaves(t))
    ensures forall s :: s in Leaves(t) <==> s in ps
    ensures |Leaves(t)| == |FirstSeen(ps)|
    ensures t.Leaf? <==> |FirstSeen(ps)| == 1
  {
    FirstSeenFacts(ps);
    assert |multiset(Leaves(t))| == |multiset(FirstSeen(ps))|;
    forall s
      ensures s in Leaves(t) <==> s in ps
    {
      assert s in Leaves(t) <==> s in multiset(Leaves(t));
      assert s in FirstSeen(ps) <==> s in multiset(FirstSeen(ps));
    }
    LeavesCount(t);
  }

  /** `huffmanEncoding`'s build loop. */
  method BuildTree(freq: SymbolMap) returns (tree: Option<Tree>)
    requires forall k :: k in freq.keys ==> k in freq.value
    ensures tree == Build(InitialHeap(freq))
  {
    var heap := InitialHeap(freq);
    while |heap| > 1
      invariant Build(heap) == Build(InitialHeap(freq))
      decreases |heap|
    {
      ghost var before := heap;
      heap := SortByFreq(heap);
      var left := heap[0];
      heap := heap[1..];
      var right := heap[0];
      heap := heap[1..];
      heap := heap + [Node(left, right, left.freq + right.freq)];
      assert heap == Merge(before);
    }
    if |heap| == 0 {
      tree := None;
    } else {
      tree := Some(heap[0]);
    }
  }
}
