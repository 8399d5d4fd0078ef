/** The worker's message handler: pick the algorithm by name, encode and
    decode the image with it, and report the decoded image with the sizes
    before and after, in bits; a thrown error is reported by its message. */
module Worker {
  import opened Image
  import opened Results
  import opened RunLength
  import opened Quantizer
  import opened Frequency
  import opened HuffmanTree
  import opened HuffmanCode
  import opened Huffman

  datatype Algorithm = RunLengthAlgorithm | HuffmanAlgorithm | ArithmeticAlgorithm | CompressionAlgorithm

  const UnsupportedAlgorithm: string := "Unsupported algorithm."

  /** The `case` label of each algorithm. */
  function Name(a: Algorithm): string
  {
    match a
    case RunLengthAlgorithm => "Run Length Encoding"
    case HuffmanAlgorithm => "Huffman Encoding"
    case ArithmeticAlgorithm => "Arithmetic Encoding"
    case CompressionAlgorithm => "Compression"
  }

  /** The `switch (algorithm)`: the four labels, and the `default` error for
      any other string. */
  function Select(name: string): Result<Algorithm>
  {
    if name == "Run Length Encoding" then Success(RunLengthAlgorithm)
    else if name == "Huffman Encoding" then Success(HuffmanAlgorithm)
    else if name == "Arithmetic Encoding" then Success(ArithmeticAlgorithm)
    else if name == "Compression" then Success(CompressionAlgorithm)
    else Failure(UnsupportedAlgorithm)
  }

  /** Select recognises exactly the four labels, each as its own algorithm,
      and rejects everything else with the one message. */
  lemma SelectByName(name: string)
    ensures Select(name).Success? <==> exists a: Algorithm :: Name(a) == name
    ensures Select(name).Success? ==> Name(Select(name).value) == name
    ensures Select(name).Failure? ==> Select(name).message == UnsupportedAlgorithm
  {
    if Select(name).Success? {
      assert Name(Select(name).value) == name;
    }
  }

  /** Every algorithm is selected by its label. */
  lemma SelectName(a: Algorithm)
    ensures Select(Name(a)) == Success(a)
  {
  }

  /** `{ outputData, originalSize, compressedSize }`. */
  datatype Response = Response(outputData: ImageData, originalSize: nat, compressedSize: nat)

  /** What the worker posts: the response, or `{ error: error.message }`. */
  datatype Reply = Posted(response: Response) | Error(error: string)

  /** The number of runs `runLengthEncoding` produces for a buffer. */
  function RunsOf(data: seq<Byte>): nat
    requires |data| % 4 == 0
  {
    if data == [] then 1 else Changes(Slices(data)) + 1
  }

  /** The runs are at most one per pixel, so a non-empty buffer is never
      reported as growing (8 bits per byte against 32 bits per run). */
  lemma RunsBound(data: seq<Byte>)
    requires |data| % 4 == 0 && data != []
    ensures 32 * RunsOf(data) <= |data| * 8
  {
    ChangesBound(Slices(data));
  }

  /** The "Run Length Encoding" case: lossless on a well-formed image. */
  method RunLengthCase(img: ImageData) returns (resp: Response)
    requires |img.data| % 4 == 0
    ensures WellFormed(img) ==> resp.outputData == img
    ensures resp.originalSize == |img.data| * 8
    ensures resp.compressedSize == 32 * RunsOf(img.data)
  {
    var runs := RunLengthEncoding(img.data);
    RunPixels(img.data, runs);
    var output := DecompressRle(runs, img.width, img.height);
    RunCount(img.data, runs);
    if WellFormed(img) {
      RoundTrip(img, runs);
    }
    resp := Response(output, |img.data| * 8, |runs| * 32);
  }

  /** The "Compression" case: the decoded image is the quantized image, and
      it takes no more runs than the original would. */
  method CompressionCase(img: ImageData) returns (resp: Response)
    requires |img.data| % 4 == 0
    ensures WellFormed(img) ==> resp.outputData == ImageData(Quantized(img.data), img.width, img.height)
    ensures resp.originalSize == |img.data| * 8
    ensures resp.compressedSize == 32 * RunsOf(Quantized(img.data))
    ensures resp.compressedSize <= 32 * RunsOf(img.data)
  {
    var runs := CompressRle(img);
    RunPixels(Quantized(img.data), runs);
    var output := DecompressRle(runs, img.width, img.height);
    var q := Quantized(img.data);
    RunCount(q, runs);
    QuantizeNeverAddsChanges(img.data);
    if WellFormed(img) {
      RoundTrip(ImageData(q, img.width, img.height), runs);
    }
    resp := Response(output, |img.data| * 8, |runs| * 32);
  }

  /** The pixels of a well-formed image, written back, are the image. */
  lemma SymbolsFill(img: ImageData)
    requires WellFormed(img)
    ensures Filled(SymbolBytes(Symbols(img.data)), Area(img)) == img.data
  {
    SymbolBytesAreSlices(img.data);
    FilledSlices(img.data);
  }

  /** The "Huffman Encoding" case. An empty image fails in `generateCodes`;
      otherwise decoding never fails, reproduces an image of at least two
      colours, and leaves an image of one colour all zeros, since its only
      code is empty. The size is the length of the bit string. */
  method HuffmanCase(img: ImageData) returns (reply: Reply)
    requires |img.data| % 4 == 0
    ensures reply.Error? <==> img.data == []
    ensures reply.Error? ==> reply.error == UndefinedKeyError
    ensures reply.Posted? ==> reply.response.originalSize == |img.data| * 8
    ensures reply.Posted? ==>
      HuffmanEncoded(Symbols(img.data)).Some? &&
      reply.response.compressedSize == |HuffmanEncoded(Symbols(img.data)).value|
    ensures reply.Posted? && WellFormed(img) && |FirstSeen(Symbols(img.data))| >= 2 ==>
      reply.response.outputData == img
    ensures reply.Posted? && |FirstSeen(Symbols(img.data))| == 1 ==>
      reply.response.outputData == ImageData(Zeros(4 * Area(img)), img.width, img.height)
  {
    ghost var ps := Symbols(img.data);
    var encoding := HuffmanEncoding(img);
    if encoding.Failure? {
      reply := Error(encoding.message);
      return;
    }
    var encodedData, huffmanTree := encoding.value.encodedData, encoding.value.huffmanTree;
    FirstSeenFacts(ps);
    if |FirstSeen(ps)| >= 2 {
      HuffmanRoundTrip(ps);
    } else {
      assert |FirstSeen(ps)| != 0 by {
        assert ps[0] in ps;
      }
      HuffmanSingleColour(ps);
      FilledNothing(Area(img));
    }
    var decoded := DecodeHuffman(encodedData, huffmanTree, img.width, img.height);
    if WellFormed(img) {
      SymbolsFill(img);
    }
    reply := Posted(Response(decoded.value, |img.data| * 8, |encodedData|));
  }

  /** `self.onmessage` for every case but "Arithmetic Encoding", whose
      floating-point interval coder is not part of this model. */
  method HandleMessage(algorithm: string, img: ImageData) returns (reply: Reply)
    requires |img.data| % 4 == 0
    requires Select(algorithm) != Success(ArithmeticAlgorithm)
    ensures Select(algorithm).Failure? ==> reply == Error(UnsupportedAlgorithm)
    ensures reply.Error? ==> reply.error in {UnsupportedAlgorithm, UndefinedKeyError}
    ensures Select(algorithm).Success? && reply.Posted? ==> reply.response.originalSize == |img.data| * 8
    ensures WellFormed(img) && Select(algorithm) == Success(RunLengthAlgorithm) ==>
      reply.Posted? && reply.response.outputData == img
    ensures WellFormed(img) && Select(algorithm) == Success(CompressionAlgorithm) ==>
      reply.Posted? && reply.response.outputData == ImageData(Quantized(img.data), img.width, img.height)
    ensures Select(algorithm) == Success(HuffmanAlgorithm) ==> (reply.Error? <==> img.data == [])
    ensures WellFormed(img) && Select(algorithm) == Success(HuffmanAlgorithm) && |FirstSeen(Symbols(img.data))| >= 2 ==>
      reply.Posted? && reply.response.outputData == img
    ensures Select(algorithm) == Success(RunLengthAlgorithm) ==>
      reply.Posted? && reply.response.compressedSize == 32 * RunsOf(img.data)
    ensures Select(algorithm) == Success(CompressionAlgorithm) ==>
      reply.Posted? && reply.response.compressedSize == 32 * RunsOf(Quantized(img.data))
    ensures Select(algorithm) == Success(HuffmanAlgorithm) && reply.Posted? ==>
      HuffmanEncoded(Symbols(img.data)).Some? &&
      reply.response.compressedSize == |HuffmanEncoded(Symbols(img.data)).value|
    ensures Select(algorithm) == Success(HuffmanAlgorithm) && reply.Posted? && |FirstSeen(Symbols(img.data))| == 1 ==>
      reply.response.outputData == ImageData(Zeros(4 * Area(img)), img.width, img.height)
  {
    var selected := Select(algorithm);
    if selected.Failure? {
      reply := Error(selected.message);
      return;
    }
    match selected.value
    case RunLengthAlgorithm =>
      var resp := RunLengthCase(img);
      reply := Posted(resp);
    case CompressionAlgorithm =>
      var resp := CompressionCase(img);
      reply := Posted(resp);
    case HuffmanAlgorithm =>
      reply := HuffmanCase(img);
  }
}
