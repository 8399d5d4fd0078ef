/** `huffmanEncoding` as a whole, and what the encode/decode pair of the
    "Huffman Encoding" case promises: a prefix-free code with one entry per
    distinct pixel, a bit string of length Σ freq * |code|, and decoding that
    gives every pixel back, except for a buffer of one colour, whose code is
    empty. */
module Huffman {
  import opened Image
  import opened Results
  import opened Frequency
  import opened HuffmanTree
  import opened HuffmanCode

  /** The `{ encodedData, huffmanTree }` object `huffmanEncoding` returns. */
  datatype Encoding = Encoding(encodedData: string, huffmanTree: Tree)

  /** The bit string `huffmanEncoding` produces for the pixels ps, None when
      there is no tree (ps empty). */
  function HuffmanEncoded(ps: seq<Pixel>): Option<string>
  {
    match HuffmanTreeOf(ps)
    case None => None
    case Some(t) =>
      HuffmanTreeFacts(ps);
      TreeShape(t, ps);
      CodeTableDomain(t, "");
      Some(Encoded(Codes(t), ps))
  }

  /** Every pixel of ps has a code in a Huffman tree for ps. */
  lemma CodesCover(t: Tree, ps: seq<Pixel>)
    requires IsTreeFor(t, ps)
    ensures forall s :: s in Codes(t) <==> s in ps
  {
    TreeShape(t, ps);
    CodeTableDomain(t, "");
  }

  /** The bit string is the pixels' codes, in order, taken from the tree's
      code table. */
  lemma EncodedByTree(ps: seq<Pixel>, t: Tree)
    requires HuffmanTreeOf(ps) == Some(t)
    ensures forall s :: s in ps ==> s in Codes(t)
    ensures HuffmanEncoded(ps) == Some(Encoded(Codes(t), ps))
  {
    HuffmanTreeFacts(ps);
    CodesCover(t, ps);
  }

  /** `huffmanEncoding`: count, build, generate the codes, encode. On an
      empty buffer `generateCodes` reads `key` of undefined. */
  method HuffmanEncoding(img: ImageData) returns (r: Result<Encoding>)
    requires |img.data| % 4 == 0
    ensures r.Failure? <==> img.data == []
    ensures r.Failure? ==> r.message == UndefinedKeyError
    ensures r.Success? ==> HuffmanTreeOf(Symbols(img.data)) == Some(r.value.huffmanTree)
    ensures r.Success? ==> HuffmanEncoded(Symbols(img.data)) == Some(r.value.encodedData)
  {
    ghost var ps := Symbols(img.data);
    var freq := CountFrequencies(img.data);
    FrequenciesFacts(ps);
    var tree := BuildTree(freq);
    assert tree == HuffmanTreeOf(ps);
    assert tree.None? <==> img.data == [] by {
      HuffmanTreeFacts(ps);
    }
    if tree.None? {
      r := Failure(UndefinedKeyError);
      return;
    }
    var codes := GenerateCodes(tree.value, "", map[]);
    assert codes == Codes(tree.value) by {
      assert map[] + Codes(tree.value) == Codes(tree.value);
    }
    EncodedByTree(ps, tree.value);
    var encoded := EncodePixels(img.data, codes);
    r := Success(Encoding(encoded, tree.value));
  }

  /** The codes of a non-empty buffer: one for each distinct pixel and no
      other, none a prefix of another, all non-empty when there are at least
      two distinct pixels, and the single empty code when there is one. */
  lemma HuffmanCodes(ps: seq<Pixel>)
    requires ps != []
    ensures HuffmanTreeOf(ps).Some?
    ensures var t := HuffmanTreeOf(ps).value;
      (forall s :: s in Codes(t) <==> s in ps) &&
      (forall s1, s2 :: s1 in Codes(t) && s2 in Codes(t) && s1 != s2 ==> !(Codes(t)[s1] <= Codes(t)[s2])) &&
      (|FirstSeen(ps)| >= 2 ==> forall s :: s in Codes(t) ==> |Codes(t)[s]| >= 1) &&
      (|FirstSeen(ps)| == 1 ==> Codes(t) == map[ps[0] := ""])
  {
    HuffmanTreeFacts(ps);
    var t := HuffmanTreeOf(ps).value;
    TreeShape(t, ps);
    CodesCover(t, ps);
    PrefixFree(t);
    if t.Node? {
      NodeCodesNonEmpty(t);
    } else {
      assert Leaves(t) == [t.sym];
      assert ps[0] in ps;
    }
  }

  /** With at least two distinct pixels, decoding the bit string with the
      tree gives back every pixel in order. */
  lemma HuffmanRoundTrip(ps: seq<Pixel>)
    requires |FirstSeen(ps)| >= 2
    ensures HuffmanTreeOf(ps).Some? && HuffmanEncoded(ps).Some?
    ensures var t := HuffmanTreeOf(ps).value;
      DecodeFrom(t, t, HuffmanEncoded(ps).value) == Some(ps)
  {
    FirstSeenFacts(ps);
    assert FirstSeen(ps)[0] in ps;
    HuffmanTreeFacts(ps);
    var t := HuffmanTreeOf(ps).value;
    TreeShape(t, ps);
    DecodeEncoded(t, ps);
  }

  lemma {:induction false} EncodedEmptyCodes(codes: map<Pixel, string>, ps: seq<Pixel>)
    requires forall s :: s in ps ==> s in codes && codes[s] == ""
    ensures Encoded(codes, ps) == ""
  {
    if ps != [] {
      EncodedEmptyCodes(codes, ps[..|ps| - 1]);
      assert ps[|ps| - 1] in ps;
    }
  }

  /** With one distinct pixel the tree is a single leaf, the bit string is
      empty, and decoding it emits nothing. */
  lemma HuffmanSingleColour(ps: seq<Pixel>)
    requires |FirstSeen(ps)| == 1
    ensures HuffmanTreeOf(ps).Some? && HuffmanTreeOf(ps).value.Leaf?
    ensures HuffmanEncoded(ps) == Some("")
    ensures var t := HuffmanTreeOf(ps).value; DecodeFrom(t, t, HuffmanEncoded(ps).value) == Some([])
  {
    FirstSeenFacts(ps);
    assert FirstSeen(ps)[0] in ps;
    HuffmanCodes(ps);
    var t := HuffmanTreeOf(ps).value;
    HuffmanTreeFacts(ps);
    TreeShape(t, ps);
    forall s | s in ps
      ensures s == ps[0]
    {
      assert s in Leaves(t) && ps[0] in Leaves(t);
    }
    EncodedEmptyCodes(Codes(t), ps);
  }

  /** The length of the bit string is Σ freq * |code| over the frequency Map. */
  lemma HuffmanLength(ps: seq<Pixel>)
    requires ps != []
    ensures HuffmanTreeOf(ps).Some? && HuffmanEncoded(ps).Some?
    ensures var t := HuffmanTreeOf(ps).value;
      (forall s :: s in ps ==> s in Codes(t)) &&
      |HuffmanEncoded(ps).value| == WeightedLength(ps, Codes(t))
  {
    HuffmanTreeFacts(ps);
    var t := HuffmanTreeOf(ps).value;
    CodesCover(t, ps);
    EncodedLength(Codes(t), ps);
  }
}
