/** Steps 3 and 4 of `huffmanEncoding` and all of `decodeHuffman`: the code
    table read off the tree, the bit string of the buffer, and the walk
    down the tree that turns the bit string back into pixels. */
module HuffmanCode {
  import opened Image
  import opened Results
  import opened Keys
  import opened Frequency
  import opened HuffmanTree

  /** `generateCodes(huffmanTree, '')` on an empty buffer, where `heap[0]`
      is undefined. */
  const UndefinedKeyError: string := "Cannot read properties of undefined (reading 'key')"

  /** Stepping to `node.left` or `node.right` from a leaf, whose children are null. */
  const NullKeyError: string := "Cannot read properties of null (reading 'key')"

  /** The codes `generateCodes(t, code)` assigns: a leaf gets the code of the
      path that reached it, a merged node passes `code + '0'` to its left and
      `code + '1'` to its right child (a later assignment overwrites). */
  function CodeTable(t: Tree, code: string): map<Pixel, string>
  {
    match t
    case Leaf(sym, _) => map[sym := code]
    case Node(l, r, _) => CodeTable(l, code + "0") + CodeTable(r, code + "1")
  }

  /** The `huffmanCodes` object: the codes of the paths from the root. */
  function Codes(t: Tree): map<Pixel, string>
  {
    CodeTable(t, "")
  }

  /** The bit string of a pixel sequence: the codes one after another. */
  function Encoded(codes: map<Pixel, string>, ps: seq<Pixel>): string
    requires forall s :: s in ps ==> s in codes
  {
    if ps == [] then ""
    else Encoded(codes, ps[..|ps| - 1]) + codes[ps[|ps| - 1]]
  }

  /** Σ value[k] * |codes[k]| over the listed keys. */
  function CodeLengthSum(keys: seq<Pixel>, value: map<Pixel, nat>, codes: map<Pixel, string>): nat
    requires forall k :: k in keys ==> k in value && k in codes
  {
    if keys == [] then 0
    else CodeLengthSum(keys[..|keys| - 1], value, codes) + value[keys[|keys| - 1]] * |codes[keys[|keys| - 1]]|
  }

  function Cons(s: Pixel, o: Option<seq<Pixel>>): Option<seq<Pixel>>
  {
    if o.None? then None else Some([s] + o.value)
  }

  function Prepend(e: seq<Pixel>, o: Option<seq<Pixel>>): Option<seq<Pixel>>
  {
    if o.None? then None else Some(e + o.value)
  }

  /** The pixels the loop of `decodeHuffman` meets on the bits, standing at
      node: '0' steps left, any other bit right, and reaching a leaf emits
      its pixel and returns to the root. None when a step starts at a leaf
      (the root when it is a leaf), where JavaScript reads a key of null. */
  function DecodeFrom(root: Tree, node: Tree, bits: string): Option<seq<Pixel>>
    decreases |bits|
  {
    if bits == [] then Some([])
    else match node
      case Leaf(_, _) => None
      case Node(l, r, _) =>
        var next := if bits[0] == '0' then l else r;
        if next.Leaf? then Cons(next.sym, DecodeFrom(root, root, bits[1..]))
        else DecodeFrom(root, next, bits[1..])
  }

  // ---------------------------------------------------------------------
  // The code table

  /** The code table has one entry per leaf. */
  lemma {:induction false} CodeTableDomain(t: Tree, code: string)
    ensures forall s :: s in CodeTable(t, code) <==> s in Leaves(t)
  {
    match t
    case Leaf(sym, _) =>
    case Node(l, r, _) =>
      CodeTableDomain(l, code + "0");
      CodeTableDomain(r, code + "1");
  }

  /** The codes of a merged node are those of its children under '0' and '1'. */
  lemma CodesOfNode(l: Tree, r: Tree, f: nat)
    ensures Codes(Node(l, r, f)) == CodeTable(l, "0") + CodeTable(r, "1")
  {
    assert "" + "0" == "0" && "" + "1" == "1";
  }

  /** The entry for a leaf under the prefix `code` is `code` followed by the
      leaf's code from that subtree. */
  lemma {:induction false} CodeTableShape(t: Tree, code: string)
    ensures forall s :: s in CodeTable(t, code) ==> s in Codes(t) && CodeTable(t, code)[s] == code + Codes(t)[s]
    decreases t, 0
  {
    CodeTableDomain(t, code);
    CodeTableDomain(t, "");
    match t
    case Leaf(sym, _) =>
    case Node(l, r, f) =>
      CodesOfNode(l, r, f);
      forall s | s in CodeTable(t, code)
        ensures CodeTable(t, code)[s] == code + Codes(t)[s]
      {
        CodeTableDomain(r, code + "1");
        CodeTableDomain(r, "1");
        if s in CodeTable(r, code + "1") {
          ChildEntry(r, code, "1", s);
        } else {
          ChildEntry(l, code, "0", s);
        }
      }
  }

  /** The step of CodeTableShape for one child reached by `bit`. */
  lemma {:induction false} ChildEntry(c: Tree, code: string, bit: string, s: Pixel)
    requires s in CodeTable(c, code + bit)
    ensures s in CodeTable(c, bit) && CodeTable(c, code + bit)[s] == code + CodeTable(c, bit)[s]
    decreases c, 1
  {
    assert s in CodeTable(c, bit) by {
      CodeTableDomain(c, bit);
      CodeTableDomain(c, code + bit);
    }
    assert s in Codes(c) && CodeTable(c, code + bit)[s] == (code + bit) + Codes(c)[s] by {
      CodeTableShape(c, code + bit);
    }
    assert CodeTable(c, bit)[s] == bit + Codes(c)[s] by {
      CodeTableShape(c, bit);
    }
    assert (code + bit) + Codes(c)[s] == code + (bit + Codes(c)[s]);
  }

  /** The leaves of a tree without repeated leaves split into the leaves of
      its two subtrees, with no leaf on both sides. */
  lemma UniqueSplit(l: Tree, r: Tree, f: nat)
    requires Unique(Leaves(Node(l, r, f)))
    ensures Unique(Leaves(l)) && Unique(Leaves(r))
    ensures forall s :: s in Leaves(l) ==> s !in Leaves(r)
  {
    var ml, mr := multiset(Leaves(l)), multiset(Leaves(r));
    assert multiset(Leaves(Node(l, r, f))) == ml + mr;
    forall x
      ensures ml[x] <= 1 && mr[x] <= 1
    {
      assert (ml + mr)[x] == ml[x] + mr[x];
    }
    forall s | s in Leaves(l)
      ensures s !in Leaves(r)
    {
      assert s in ml;
      assert (ml + mr)[s] == ml[s] + mr[s];
    }
  }

  /** The code of a leaf of the left (right) subtree is '0' ('1') followed by
      its code in that subtree. */
  lemma CodeOfChild(l: Tree, r: Tree, f: nat, s: Pixel)
    requires Unique(Leaves(Node(l, r, f)))
    ensures s in Leaves(l) ==> s in Codes(Node(l, r, f)) && s in Codes(l) &&
                               Codes(Node(l, r, f))[s] == "0" + Codes(l)[s]
    ensures s in Leaves(r) ==> s in Codes(Node(l, r, f)) && s in Codes(r) &&
                               Codes(Node(l, r, f))[s] == "1" + Codes(r)[s]
  {
    UniqueSplit(l, r, f);
    CodesOfNode(l, r, f);
    CodeTableDomain(l, "0");
    CodeTableDomain(r, "1");
    CodeTableShape(l, "0");
    CodeTableShape(r, "1");
  }

  /** A merged node gives every leaf a non-empty code. */
  lemma NodeCodesNonEmpty(t: Tree)
    requires t.Node?
    ensures forall s :: s in Codes(t) ==> |Codes(t)[s]| >= 1
  {
    CodesOfNode(t.left, t.right, t.freq);
    CodeTableDomain(t.right, "1");
    CodeTableShape(t.left, "0");
    CodeTableShape(t.right, "1");
  }

  lemma PrefixSameHead(b: char, x: string, y: string)
    ensures ([b] + x <= [b] + y) == (x <= y)
  {
    if [b] + x <= [b] + y {
      assert x == ([b] + x)[1..] && y == ([b] + y)[1..];
    }
  }

  /** No code is a prefix of the code of another leaf. */
  lemma {:induction false} PrefixFree(t: Tree)
    requires Unique(Leaves(t))
    ensures forall s1, s2 :: s1 in Codes(t) && s2 in Codes(t) && s1 != s2 ==> !(Codes(t)[s1] <= Codes(t)[s2])
  {
    match t
    case Leaf(sym, _) =>
    case Node(l, r, f) =>
      UniqueSplit(l, r, f);
      PrefixFree(l);
      PrefixFree(r);
      CodeTableDomain(t, "");
      forall s1, s2 | s1 in Codes(t) && s2 in Codes(t) && s1 != s2
        ensures !(Codes(t)[s1] <= Codes(t)[s2])
      {
        CodeOfChild(l, r, f, s1);
        CodeOfChild(l, r, f, s2);
        if s1 in Leaves(l) && s2 in Leaves(l) {
          PrefixSameHead('0', Codes(l)[s1], Codes(l)[s2]);
        } else if s1 in Leaves(r) && s2 in Leaves(r) {
          PrefixSameHead('1', Codes(r)[s1], Codes(r)[s2]);
        } else {
          assert Codes(t)[s1][0] != Codes(t)[s2][0];
        }
      }
  }

  /** `generateCodes(node, code)` run on the object `codes`: it adds the
      codes of node's leaves under the prefix `code`. */
  method GenerateCodes(node: Tree, code: string, codes: map<Pixel, string>) returns (result: map<Pixel, string>)
    ensures result == codes + CodeTable(node, code)
    decreases node
  {
    if node.Leaf? {
      result := codes[node.sym := code];
    } else {
      var afterLeft := GenerateCodes(node.left, code + "0", codes);
      result := GenerateCodes(node.right, code + "1", afterLeft);
      assert (codes + CodeTable(node.left, code + "0")) + CodeTable(node.right, code + "1")
          == codes + (CodeTable(node.left, code + "0") + CodeTable(node.right, code + "1"));
    }
  }

  // ---------------------------------------------------------------------
  // Encoding

  lemma {:induction false} EncodedCons(codes: map<Pixel, string>, p: Pixel, ps: seq<Pixel>)
    requires p in codes && forall s :: s in ps ==> s in codes
    ensures Encoded(codes, [p] + ps) == codes[p] + Encoded(codes, ps)
    decreases |ps|
  {
    if ps == [] {
      assert ([p] + ps)[..0] == [];
    } else {
      var init, x := ps[..|ps| - 1], ps[|ps| - 1];
      assert ([p] + ps)[..|ps|] == [p] + init;
      EncodedCons(codes, p, init);
    }
  }

  lemma {:induction false} CodeLengthAgree(keys: seq<Pixel>, v1: map<Pixel, nat>, v2: map<Pixel, nat>, codes: map<Pixel, string>)
    requires forall k :: k in keys ==> k in v1 && k in v2 && k in codes && v1[k] == v2[k]
    ensures CodeLengthSum(keys, v1, codes) == CodeLengthSum(keys, v2, codes)
  {
    if keys != [] {
      CodeLengthAgree(keys[..|keys| - 1], v1, v2, codes);
    }
  }

  lemma {:induction false} CodeLengthBump(keys: seq<Pixel>, v: map<Pixel, nat>, codes: map<Pixel, string>, x: Pixel)
    requires Unique(keys) && x in keys
    requires forall k :: k in keys ==> k in v && k in codes
    ensures CodeLengthSum(keys, v[x := v[x] + 1], codes) == CodeLengthSum(keys, v, codes) + |codes[x]|
  {
    var init, k := keys[..|keys| - 1], keys[|keys| - 1];
    UniquePrefix(keys);
    if k == x {
      CodeLengthAgree(init, v, v[x := v[x] + 1], codes);
    } else {
      assert keys == init + [k];
      CodeLengthBump(init, v, codes, x);
    }
  }

  /** Σ freq * |code| over the frequency Map of ps. */
  function WeightedLength(ps: seq<Pixel>, codes: map<Pixel, string>): nat
    requires forall s :: s in ps ==> s in codes
  {
    FrequenciesDomain(ps);
    CodeLengthSum(Frequencies(ps).keys, Frequencies(ps).value, codes)
  }

  /** A new key appended with count 1 adds the length of its code. */
  lemma CodeLengthAppend(keys: seq<Pixel>, v: map<Pixel, nat>, codes: map<Pixel, string>, x: Pixel)
    requires x !in keys && x in codes
    requires forall k :: k in keys ==> k in v && k in codes
    ensures CodeLengthSum(keys + [x], v[x := 1], codes) == CodeLengthSum(keys, v, codes) + |codes[x]|
  {
    CodeLengthAgree(keys, v, v[x := 1], codes);
    assert (keys + [x])[..|keys|] == keys;
  }

  /** One more pixel adds the length of its code. */
  lemma WeightedLengthSnoc(ps: seq<Pixel>, x: Pixel, codes: map<Pixel, string>)
    requires x in codes && forall s :: s in ps ==> s in codes
    ensures forall s :: s in ps + [x] ==> s in codes
    ensures WeightedLength(ps + [x], codes) == WeightedLength(ps, codes) + |codes[x]|
  {
    var f := Frequencies(ps);
    var g := f.Set(x, f.Get(x) + 1);
    assert Frequencies(ps + [x]) == g by {
      FrequenciesSnoc(ps, x);
    }
    assert Valid(f) by {
      FrequenciesFacts(ps);
    }
    CodeLengthCountUp(f, x, codes);
  }

  /** Counting one more occurrence of a key adds the length of its code. */
  lemma CodeLengthCountUp(f: SymbolMap, x: Pixel, codes: map<Pixel, string>)
    requires Valid(f) && x in codes && forall k :: k in f.keys ==> k in codes
    ensures var g := f.Set(x, f.Get(x) + 1);
      (forall k :: k in g.keys ==> k in g.value && k in codes) &&
      CodeLengthSum(g.keys, g.value, codes) == CodeLengthSum(f.keys, f.value, codes) + |codes[x]|
  {
    if x in f.value {
      CodeLengthBump(f.keys, f.value, codes, x);
    } else {
      CodeLengthAppend(f.keys, f.value, codes, x);
    }
  }

  /** The length of the bit string is Σ freq * |code| over the frequency Map. */
  lemma {:induction false} EncodedLength(codes: map<Pixel, string>, ps: seq<Pixel>)
    requires forall s :: s in ps ==> s in codes
    ensures |Encoded(codes, ps)| == WeightedLength(ps, codes)
  {
    if ps != [] {
      var init, x := ps[..|ps| - 1], ps[|ps| - 1];
      assert ps == init + [x];
      EncodedLength(codes, init);
      WeightedLengthSnoc(init, x, codes);
    }
  }

  /** One pass of the encoding loop appends the code of the pixel at 4k. */
  lemma EncodeNext(data: seq<Byte>, k: nat, codes: map<Pixel, string>)
    requires |data| % 4 == 0 && 4 * k + 4 <= |data|
    requires forall s :: s in Symbols(data) ==> s in codes
    ensures PixelAt(data, k) in codes && forall s :: s in Symbols(data)[..k + 1] ==> s in codes
    ensures Encoded(codes, Symbols(data)[..k + 1]) == Encoded(codes, Symbols(data)[..k]) + codes[PixelAt(data, k)]
  {
    SymbolsNext(data, k);
    assert Symbols(data)[k] == PixelAt(data, k);
    assert (Symbols(data)[..k] + [PixelAt(data, k)])[..k] == Symbols(data)[..k];
  }

  /** The encoding loop of `huffmanEncoding`: the codes of the pixels, in scan
      order, appended to one string. */
  method EncodePixels(data: seq<Byte>, codes: map<Pixel, string>) returns (encoded: string)
    requires |data| % 4 == 0 && forall s :: s in Symbols(data) ==> s in codes
    ensures encoded == Encoded(codes, Symbols(data))
  {
    encoded := "";
    var i := 0;
    ghost var k := 0;
    assert Symbols(data)[..0] == [];
    while i < |data|
      invariant 0 <= i <= |data| && i == 4 * k
      invariant encoded == Encoded(codes, Symbols(data)[..k])
    {
      var key := Pixel(data[i], data[i + 1], data[i + 2], data[i + 3]);
      assert key == PixelAt(data, k);
      EncodeNext(data, k, codes);
      encoded := encoded + codes[key];
      i, k := i + 4, k + 1;
    }
    SymbolsPrefix(data, k);
  }

  // ---------------------------------------------------------------------
  // Decoding

  lemma PrependCons(e: seq<Pixel>, s: Pixel, o: Option<seq<Pixel>>)
    ensures Prepend(e, Cons(s, o)) == Prepend(e + [s], o)
  {
    if o.Some? {
      assert e + ([s] + o.value) == (e + [s]) + o.value;
    }
  }

  /** Walking the code of a leaf from the subtree that holds it ends at that
      leaf and restarts at the root. */
  lemma {:induction false} DecodeCode(root: Tree, t: Tree, s: Pixel, rest: string)
    requires t.Node? && Unique(Leaves(t)) && s in Leaves(t)
    ensures (CodeTableDomain(t, ""); DecodeFrom(root, t, Codes(t)[s] + rest) == Cons(s, DecodeFrom(root, root, rest)))
    decreases t
  {
    CodeTableDomain(t, "");
    var l, r, f := t.left, t.right, t.freq;
    UniqueSplit(l, r, f);
    CodeOfChild(l, r, f, s);
    CodeTableShape(l, "");
    CodeTableShape(r, "");
    var bits := Codes(t)[s] + rest;
    if s in Leaves(l) {
      assert bits == "0" + (Codes(l)[s] + rest);
      assert bits[0] == '0' && bits[1..] == Codes(l)[s] + rest;
      if l.Leaf? {
        assert Codes(l)[s] == "";
      } else {
        DecodeCode(root, l, s, rest);
      }
    } else {
      assert bits == "1" + (Codes(r)[s] + rest);
      assert bits[0] == '1' && bits[1..] == Codes(r)[s] + rest;
      if r.Leaf? {
        assert Codes(r)[s] == "";
      } else {
        DecodeCode(root, r, s, rest);
      }
    }
  }

  /** Decoding the bit string of pixels drawn from a merged root's leaves
      gives them back. */
  lemma {:induction false} DecodeEncoded(root: Tree, ps: seq<Pixel>)
    requires root.Node? && Unique(Leaves(root)) && forall s :: s in ps ==> s in Leaves(root)
    ensures (CodeTableDomain(root, "");
             DecodeFrom(root, root, Encoded(Codes(root), ps)) == Some(ps))
    decreases |ps|
  {
    CodeTableDomain(root, "");
    if ps != [] {
      var p, tail := ps[0], ps[1..];
      assert ps == [p] + tail;
      EncodedCons(Codes(root), p, tail);
      DecodeCode(root, root, p, Encoded(Codes(root), tail));
      DecodeEncoded(root, tail);
    }
  }

  /** One pass of the `if (i < width * height)` branch of `decodeHuffman`:
      the four parsed channels of the key go to slot i. */
  method StorePixel(buf: array<Byte>, n: nat, i: nat, ghost ps: seq<seq<Byte>>,
                    r: Byte, g: Byte, b: Byte, a: Byte)
    requires i == |ps| < n && Shows(buf, ps, n)
    modifies buf
    ensures Shows(buf, ps + [[r, g, b, a]], n)
  {
    ghost var before := buf[..];
    buf[i * 4] := r;
    buf[i * 4 + 1] := g;
    buf[i * 4 + 2] := b;
    buf[i * 4 + 3] := a;
    forall k, c | 0 <= k < n && 0 <= c < 4
      ensures buf[4 * k + c] == Channel(ps + [[r, g, b, a]], k, c)
    {
      assert before[4 * k + c] == Channel(ps, k, c);
      if k == |ps| {
        assert (ps + [[r, g, b, a]])[k] == [r, g, b, a];
      } else {
        assert 4 * k + c != i * 4 && 4 * k + c != i * 4 + 1;
        assert 4 * k + c != i * 4 + 2 && 4 * k + c != i * 4 + 3;
        if k < |ps| {
          assert (ps + [[r, g, b, a]])[k] == ps[k];
        }
      }
    }
  }

  /** The pixels the decoder emitted, as the bytes it writes. */
  lemma SymbolBytesSnoc(ps: seq<Pixel>, s: Pixel)
    ensures SymbolBytes(ps + [s]) == SymbolBytes(ps) + [Bytes(s)]
  {
  }

  /** One bit of `decodeHuffman`'s loop keeps the pixels emitted so far
      followed by what decoding the rest gives equal to the whole decoding. */
  lemma DecodeAdvance(root: Tree, node: Tree, bits: string, k: nat, emitted: seq<Pixel>)
    requires node.Node? && k < |bits|
    ensures var next := if bits[k] == '0' then node.left else node.right;
      Prepend(emitted, DecodeFrom(root, node, bits[k..])) ==
        if next.Leaf? then Prepend(emitted + [next.sym], DecodeFrom(root, root, bits[k + 1..]))
        else Prepend(emitted, DecodeFrom(root, next, bits[k + 1..]))
  {
    var next := if bits[k] == '0' then node.left else node.right;
    assert bits[k..][0] == bits[k] && bits[k..][1..] == bits[k + 1..];
    if next.Leaf? {
      PrependCons(emitted, next.sym, DecodeFrom(root, root, bits[k + 1..]));
    }
  }

  /** The body of `if (node.key)` in `decodeHuffman`, up to returning to
      the root: split the leaf's key into its four numbers and, while fewer
      than n pixels are written, store them at slot i. */
  method EmitLeaf(buf: array<Byte>, n: nat, i: nat, ghost emitted: seq<Pixel>, sym: Pixel) returns (i': nat)
    requires Shows(buf, SymbolBytes(emitted), n)
    requires i == if |emitted| < n then |emitted| else n
    modifies buf
    ensures i' == if |emitted| + 1 < n then |emitted| + 1 else n
    ensures Shows(buf, SymbolBytes(emitted + [sym]), n)
  {
    SymbolBytesSnoc(emitted, sym);
    ParseKeyOf(sym);
    var fields := ParseKey(KeyOf(sym));
    if i < n {
      StorePixel(buf, n, i, SymbolBytes(emitted), fields[0], fields[1], fields[2], fields[3]);
      i' := i + 1;
    } else {
      ShowsExcess(buf, SymbolBytes(emitted), [Bytes(sym)], n);
      i' := i;
    }
  }

  /** `decodeHuffman`: walk the tree bit by bit; at each leaf parse its key
      and, while fewer than width*height pixels are written, store the
      pixel; the rest of the buffer stays zero. */
  method DecodeHuffman(encoded: string, tree: Tree, width: nat, height: nat) returns (out: Result<ImageData>)
    ensures out.Failure? <==> DecodeFrom(tree, tree, encoded).None?
    ensures out.Failure? ==> out.message == NullKeyError
    ensures out.Success? ==>
      out.value == ImageData(Filled(SymbolBytes(DecodeFrom(tree, tree, encoded).value), width * height),
                             width, height)
  {
    var n := width * height;
    var buf := new Byte[n * 4](_ => 0);
    var node := tree;
    var i := 0;
    var k := 0;
    ghost var emitted: seq<Pixel> := [];
    ghost var whole := DecodeFrom(tree, tree, encoded);
    assert whole == Prepend([], DecodeFrom(tree, node, encoded[k..])) by {
      assert encoded[0..] == encoded;
      if whole.Some? {
        assert [] + whole.value == whole.value;
      }
    }
    while k < |encoded|
      invariant 0 <= k <= |encoded|
      invariant whole == Prepend(emitted, DecodeFrom(tree, node, encoded[k..]))
      invariant i == if |emitted| < n then |emitted| else n
      invariant Shows(buf, SymbolBytes(emitted), n)
    {
      if node.Leaf? {
        out := Failure(NullKeyError);
        return;
      }
      var bit := encoded[k];
      DecodeAdvance(tree, node, encoded, k, emitted);
      node := if bit == '0' then node.left else node.right;
      if node.Leaf? {
        i := EmitLeaf(buf, n, i, emitted, node.sym);
        emitted := emitted + [node.sym];
        node := tree;
      }
      k := k + 1;
    }
    assert encoded[k..] == [];
    ShowsFilled(buf, SymbolBytes(emitted), n);
    out := Success(ImageData(buf[..], width, height));
  }
}
