# Image encoding worker, modelled in Dafny

This project models the coders of `encodingWorker.js`. That file is a Web
Worker. It receives an RGBA `ImageData` (four bytes per pixel) and an
algorithm name. It encodes the image, decodes it again, and posts back the
decoded image with the original and compressed sizes in bits.

The model covers:

- the run-length codec (`runLengthEncoding`, `decompressRLE`);
- the lossy "Compression" algorithm (`compressRLE`): quantization to multiples
  of 32, followed by run-length coding;
- the frequency Map, filled in first-seen order;
- the Huffman coder:
  - the build loop: stable sort by frequency, shift the two lowest, push
    their merge;
  - `generateCodes`;
  - the encoding loop;
  - `decodeHuffman`;
- the integer cumulative-count table of the arithmetic coder;
- the algorithm selector and the size accounting of the message handler.

Modules, in dependency order:

| module | file | content |
|---|---|---|
| `Results` | results.dfy | `Option` and `Result` |
| `Image` | image.dfy | bytes, pixels, `ImageData`, the layout of a decoder's output buffer |
| `Keys` | keys.dfy | the `r_g_b_a` key string, its parsing with `split('_').map(Number)`, and JavaScript string order |
| `RunLength` | run_length.dfy | runs, encoder and decoder |
| `Quantizer` | quantizer.dfy | `compressRLE` |
| `Frequency` | frequency.dfy | the frequency Map |
| `HuffmanTree` | huffman_tree.dfy | tree datatype, stable frequency sort, the build loop |
| `HuffmanCode` | huffman_code.dfy | code table, encoding loop, `decodeHuffman` |
| `Huffman` | huffman.dfy | `huffmanEncoding` as a whole, and the round-trip properties |
| `Cumulative` | cumulative.dfy | sorted keys and running totals |
| `Worker` | worker.dfy | selector, per-algorithm cases, sizes |

How the JavaScript state is represented:

- A JavaScript `Map` is a `SymbolMap`: its keys in insertion order, plus a Dafny `map`.
- A pixel stands for its key string. `Keys.KeyOfInjective` and `Keys.ParseKeyOf` justify this.
- `Array.prototype.sort` is an insertion sort, which is stable like the engine's sort.
- The decoders fill a fresh zeroed `array<Byte>`. Their contracts state its contents through `Image.Filled`.
- Every loop the model covers is a method with loop invariants, and `generateCodes` is a recursive method. Each is proved against a specification that determines its result: a function it equals, or a predicate such as `RunLength.EncodesAsRuns` or `Cumulative.RunningTotals`.

## Model

| member | source | states |
|---|---|---|
| Image.Filled | encodingWorker.js:86-99 | defines the buffer a decoder leaves in a fresh zeroed `Uint8ClampedArray` of n pixels: 4·n bytes, with pixel slot k holding the k-th written pixel when one reached it, and 0 otherwise |
| Image.FilledSlices | encodingWorker.js:66-79 | writing every pixel of a buffer back into a zeroed buffer of the same size gives that buffer |
| Image.FilledIgnoresExcess | encodingWorker.js:95 | pixels beyond the first n never change an n-pixel buffer |
| Image.SymbolsNext | encodingWorker.js:110-111 | the pixel the loop reads at byte 4k extends the first k pixels to the first k+1 |
| Image.ShowsExcess | encodingWorker.js:95 | once n pixels are written, later pixels leave the buffer as it is |
| Keys.ParseKey | encodingWorker.js:160 | defines `node.key.split('_').map(Number)` for a key whose pieces are digit strings: one number per piece |
| Keys.ParseKeyOf | encodingWorker.js:160 | each piece of a pixel's key splits into digits, and `split('_').map(Number)` returns the four channels |
| Keys.Decimal | encodingWorker.js:111 | defines the `${n}` text of a channel in the key template: decimal digits without leading zeros, at least one |
| Keys.Number | encodingWorker.js:160 | defines `Number(s)`, modelled only for strings of decimal digits, which every piece of a pixel key is |
| Keys.KeyOf | encodingWorker.js:111 | defines the key template `${r}_${g}_${b}_${a}` of a pixel |
| Keys.Split | encodingWorker.js:160 | defines `split(sep)`: the pieces between separators, at least one piece, and `[""]` for the empty string |
| Keys.SplitKey | encodingWorker.js:160 | `split('_')` of a key gives the decimal texts of the four channels |
| Keys.KeyOfInjective | encodingWorker.js:111 | different pixels have different keys |
| Keys.Below | encodingWorker.js:186 | defines the default `sort()` order on ASCII strings, which every pixel key is: character by character, a proper prefix first |
| Keys.NumberOfDecimal | encodingWorker.js:160 | `Number` of the decimal text of n is n |
| Keys.BelowTotal | encodingWorker.js:186 | any two different strings are ordered one way or the other by default sort order |
| Keys.BelowTransitive | encodingWorker.js:186 | default string order is transitive |
| Keys.BelowIrreflexive | encodingWorker.js:186 | no string sorts below itself |
| Keys.KeyOrderIsTextual | encodingWorker.js:186 | key order is textual: the key of red 10 sorts before the key of red 9 |
| RunLength.RunLengthEncoding | encodingWorker.js:62-82 | the runs cover the pixels in order, each count is ≥ 1, and adjacent runs differ. The counts sum to the pixel count. An empty buffer gives the single run with an empty pixel and count 1 |
| RunLength.ScanStart | encodingWorker.js:63-66 | before the first comparison no run is pushed and the open run is the first pixel with count 1 |
| RunLength.ScanSame | encodingWorker.js:67-73 | a pixel equal to the one before it extends the open run by one and keeps the runs maximal |
| RunLength.ScanNew | encodingWorker.js:74-77 | a different pixel closes the open run, which differs from the run before it, and opens a run of count 1 |
| RunLength.ScanDone | encodingWorker.js:79 | pushing the open run after the loop gives maximal runs that expand to the buffer and count all its pixels |
| RunLength.ScanStep | encodingWorker.js:67-77 | one pass of the loop, comparing pixel k with the pixel before it, keeps the scan invariant: closed runs plus the pending run expand to the first k+1 pixels, and the runs stay positive and maximal |
| RunLength.ScanPixels | encodingWorker.js:63-78 | after the loop, the closed runs plus the pending run expand to all pixels, and the runs are positive and maximal |
| RunLength.ReplayRun | encodingWorker.js:94-99 | the inner loop writes the run's pixel up to count times, stopping at the w·h-th pixel, so the buffer shows the pixels so far followed by the run |
| RunLength.SetPixel | encodingWorker.js:97 | `output.data.set(pixel, offset)` overwrites the pixel's bytes at offset and nothing else |
| RunLength.WritePixel | encodingWorker.js:95-98 | one pass of the inner loop below w·h adds the run's pixel at slot i to the buffer |
| RunLength.DecompressRle | encodingWorker.js:85-103 | the output holds the runs' pixels in slots 0 .. w·h−1 and zeros past the last run. Nothing is written beyond w·h pixels |
| RunLength.RoundTrip | encodingWorker.js:62-103 | for a buffer of w·h·4 bytes, decoding the encoder's runs gives back the buffer |
| RunLength.RunCount | encodingWorker.js:64-79 | there is exactly one run per colour change plus one, and never more runs than pixels |
| RunLength.ChangesBound | encodingWorker.js:66-77 | a non-empty buffer has fewer colour changes than pixels |
| RunLength.RunPixels | encodingWorker.js:75-79 | each run's pixel has at most four bytes |
| RunLength.ChangesCoarser | encodingWorker.js:67-72 | a sequence that repeats wherever another repeats has no more changes |
| Quantizer.RoundDiv32 | encodingWorker.js:305-307 | defines `Math.round(x / 32)` on a byte, halves rounding up |
| Quantizer.ClampByte | encodingWorker.js:303-307 | defines a store into a `Uint8ClampedArray` element: values below 0 become 0 and above 255 become 255 |
| Quantizer.QuantizeChannel | encodingWorker.js:306-308 | a channel becomes 255 exactly when it is ≥ 240. Otherwise it becomes a multiple of 32 within 16 of the input, with halves rounding up |
| Quantizer.Quantized | encodingWorker.js:303-309 | defines the quantized buffer: same length, colour channels quantized, every fourth byte (alpha) kept |
| Quantizer.Quantize | encodingWorker.js:304-310 | the quantizing loop yields red, green and blue quantized and alpha kept |
| Quantizer.QuantizedPixel | encodingWorker.js:305-309 | bytes 4k, 4k+1 and 4k+2 of the quantized buffer are the quantized channels, and byte 4k+3 is alpha unchanged |
| Quantizer.QuantizeIdempotent | encodingWorker.js:305-310 | quantizing twice is quantizing once |
| Quantizer.QuantizeIsLossy | encodingWorker.js:305-307 | every channel from 16 to 47 becomes 32, so distinct inputs merge; for example the pixel (17, 0, 0, 255) becomes (32, 0, 0, 255) |
| Quantizer.QuantizeNeverAddsChanges | encodingWorker.js:302-316 | quantization never adds colour changes, so "Compression" never needs more runs than RLE |
| Quantizer.CompressRle | encodingWorker.js:302-316 | the runs are those of the quantized buffer |
| Frequency.CountFrequencies | encodingWorker.js:107-113 | the loop's Map is the frequency Map of the buffer's pixels |
| Frequency.SymbolMap.Get | encodingWorker.js:112 | defines `get(key) \|\| 0`: the stored count of a present key, and 0 for a missing one |
| Frequency.SymbolMap.Set | encodingWorker.js:112 | defines Map `set`: it stores the new count. A present key keeps its place in the key order, and a new key is appended |
| Frequency.CountNext | encodingWorker.js:110-112 | one loop pass turns the Map of the first k pixels into the Map of the first k+1 |
| Frequency.TotalCountUp | encodingWorker.js:112 | one `set(key, get(key) + 1)` adds exactly one to the sum of the counts |
| Frequency.FrequenciesDomain | encodingWorker.js:107-113 | every key of the Map has a count and occurs in the buffer |
| Frequency.FrequenciesSnoc | encodingWorker.js:112 | `set(key, (get(key) \|\| 0) + 1)` bumps a known key in place and appends a new key with 1 |
| Frequency.FrequenciesFacts | encodingWorker.js:107-113 | the keys are the distinct pixels, each once, in first-seen order. Each maps to its number of occurrences |
| Frequency.FrequenciesTotal | encodingWorker.js:107-113 | the counts add up to the number of pixels |
| HuffmanTree.SortByFreq | encodingWorker.js:118 | defines `heap.sort((a, b) => a.freq - b.freq)` as a stable insertion sort of the same length |
| HuffmanTree.SortPermutes | encodingWorker.js:118 | the frequency sort permutes the heap |
| HuffmanTree.SortSorts | encodingWorker.js:118 | the frequency sort orders the heap by ascending frequency |
| HuffmanTree.SortStable | encodingWorker.js:118 | nodes of equal frequency keep their relative order |
| HuffmanTree.InsertElements | encodingWorker.js:118 | inserting a node into the sorted heap adds that node and keeps every other |
| HuffmanTree.InsertKeeps | encodingWorker.js:118 | inserting a node adds its frequency to the heap's total and its leaves to the heap's leaves |
| HuffmanTree.SortKeeps | encodingWorker.js:118 | sorting keeps the total frequency and the multiset of leaves |
| HuffmanTree.ShiftPushSums | encodingWorker.js:119-121 | shifting the two front nodes and pushing their merge keeps the total frequency and the multiset of leaves |
| HuffmanTree.ShiftPushKeeps | encodingWorker.js:119-121 | shifting and pushing keeps the heap invariant for the pixels |
| HuffmanTree.InitialHeapFacts | encodingWorker.js:116 | the initial heap has one leaf per Map key, in key order, and its total frequency is the sum of the counts |
| HuffmanTree.InitialHeapFor | encodingWorker.js:107-116 | the initial heap built from the frequency Map satisfies the heap invariant |
| HuffmanTree.InitialHeap | encodingWorker.js:116 | defines the initial heap: one leaf per Map entry, in Map order |
| HuffmanTree.Merge | encodingWorker.js:118-121 | defines one round: sort, shift the two front nodes, push their merge, leaving one node fewer |
| HuffmanTree.Build | encodingWorker.js:117-123 | defines the loop run to the end and `heap[0]`, which is undefined for an empty heap |
| HuffmanTree.MergeKeeps | encodingWorker.js:118-121 | a round keeps every node well weighted and leaf-counted, and keeps the same leaves and total frequency |
| HuffmanTree.BuildKeeps | encodingWorker.js:117-123 | the loop leaves a tree exactly when the heap started non-empty, and that tree is a Huffman tree for the pixels |
| HuffmanTree.BuildTree | encodingWorker.js:116-123 | the shift/push loop yields the tree of the specification `Build` |
| HuffmanTree.HuffmanTreeFacts | encodingWorker.js:107-123 | there is a tree exactly for a non-empty buffer. Its leaves are the distinct pixels with their counts, each node's frequency is the sum of its children's, and the root's is the pixel count |
| HuffmanTree.TreeShape | encodingWorker.js:116-123 | no leaf repeats, the leaves are exactly the buffer's pixels, and the tree is one leaf exactly when there is one colour |
| HuffmanCode.CodeTable | encodingWorker.js:127-133 | defines the codes `generateCodes` assigns: the path from the given prefix, `0` to the left and `1` to the right |
| HuffmanCode.Codes | encodingWorker.js:126-135 | defines the `huffmanCodes` object after `generateCodes(huffmanTree, '')`: the code table under the empty prefix |
| HuffmanCode.GenerateCodes | encodingWorker.js:126-135 | the recursion adds to `huffmanCodes` the code table of the node under the given prefix |
| HuffmanCode.CodeTableDomain | encodingWorker.js:127-133 | there is a code exactly for each leaf |
| HuffmanCode.CodeTableShape | encodingWorker.js:127-133 | a leaf's code under a prefix is the prefix followed by its code in that subtree |
| HuffmanCode.PrefixFree | encodingWorker.js:127-133 | for distinct leaves, neither code is a prefix of the other |
| HuffmanCode.NodeCodesNonEmpty | encodingWorker.js:131-132 | under a merged root every code is non-empty |
| HuffmanCode.EncodePixels | encodingWorker.js:138-142 | the loop appends the codes of the pixels in scan order |
| HuffmanCode.EncodeNext | encodingWorker.js:139-141 | one loop pass appends the code of pixel k to the codes of the first k pixels |
| HuffmanCode.WeightedLengthSnoc | encodingWorker.js:112-141 | one more pixel adds the length of its code to Σ freq·\|code\| |
| HuffmanCode.CodeLengthCountUp | encodingWorker.js:112 | counting a key once more adds its code length to Σ freq·\|code\| |
| HuffmanCode.EncodedLength | encodingWorker.js:138-142 | the bit string's length is Σ freq(s)·\|code(s)\| over the frequency Map |
| HuffmanCode.DecodeFrom | encodingWorker.js:157-169 | defines the tree walk: each bit steps left or right, a leaf emits its pixel and restarts at the root, and a step from a leaf fails |
| HuffmanCode.DecodeCode | encodingWorker.js:157-169 | walking a leaf's code from the root emits that leaf and returns to the root |
| HuffmanCode.DecodeEncoded | encodingWorker.js:157-169 | with a merged root, decoding the codes of pixels gives those pixels |
| HuffmanCode.StorePixel | encodingWorker.js:161-166 | storing r, g, b and a at slot i adds that pixel to the buffer |
| HuffmanCode.DecodeAdvance | encodingWorker.js:157-169 | one bit keeps "pixels emitted so far, then the decoding of the rest" equal to the whole decoding |
| HuffmanCode.EmitLeaf | encodingWorker.js:159-167 | at a leaf the key's pixel is stored while fewer than w·h pixels are written, and the count of written pixels advances with it |
| HuffmanCode.DecodeHuffman | encodingWorker.js:148-173 | the tree walk fails with the null-key error exactly when a step starts at a leaf. Otherwise the output holds the emitted pixels in slots below w·h and zeros elsewhere |
| Huffman.HuffmanEncoding | encodingWorker.js:106-145 | an empty buffer fails with the undefined-key error. Otherwise the result is the Huffman tree of the pixels and their concatenated codes |
| Huffman.EncodedByTree | encodingWorker.js:135-142 | every pixel has a code in the tree's table, and the bit string is the pixels' codes in scan order |
| Huffman.HuffmanCodes | encodingWorker.js:126-135 | there is one code per distinct pixel and no other, and the codes are prefix-free. All codes are non-empty with ≥ 2 colours, and the sole code is empty with 1 colour |
| Huffman.HuffmanRoundTrip | encodingWorker.js:106-173 | with ≥ 2 colours, decoding the bit string with the tree gives every pixel back in order |
| Huffman.HuffmanSingleColour | encodingWorker.js:127-135 | with one colour the tree is a leaf, the bit string is empty, and decoding that bit string with the tree emits nothing |
| Huffman.HuffmanLength | encodingWorker.js:28 | `compressedSize`, the bit string's length, is Σ freq(s)·\|code(s)\| |
| Cumulative.SortKeys | encodingWorker.js:186 | defines `sort()` of the keys as a stable insertion sort by key string, of the same length |
| Cumulative.SortKeysPermutes | encodingWorker.js:186 | sorting permutes the keys |
| Cumulative.SortKeysAscending | encodingWorker.js:186 | sorting distinct keys gives strictly ascending key strings |
| Cumulative.TotalSorted | encodingWorker.js:186 | sorting keeps the sum of the counts |
| Cumulative.DistinctUnique | encodingWorker.js:186-192 | "no key at two positions" is the same as "each key once", so the sorted keys of the Map, whose keys occur once each, are distinct where the `forEach` needs it |
| Cumulative.RunningTotalsStep | encodingWorker.js:190-191 | one `forEach` step keeps the running-total invariant |
| Cumulative.PrefixTotals | encodingWorker.js:189-192 | each key maps to the sum of the counts of the keys before it |
| Cumulative.RunningTotalsSum | encodingWorker.js:188-192 | after the `forEach`, `cumulative` is the sum of all counts |
| Cumulative.Accumulate | encodingWorker.js:187-192 | each key maps to the running total before it, and the final total is the sum of the counts |
| Cumulative.CumulativeFrequencies | encodingWorker.js:186-192 | keys are in ascending string order. The first maps to 0, each next is the previous plus its count, and the final total is the sum of all counts |
| Cumulative.CumulativeTable | encodingWorker.js:177-194 | for a buffer, the keys are its distinct pixels in ascending string order. The first maps to 0, each next key to the previous value plus the previous key's number of occurrences, and the final total is `totalSymbols` = len/4 |
| Worker.Select | encodingWorker.js:11-51 | defines the `switch (algorithm)`: the four `case` labels and the `default` error |
| Worker.SelectByName | encodingWorker.js:11-51 | exactly the four case labels are accepted, each as its own algorithm. Anything else fails with "Unsupported algorithm." |
| Worker.SelectName | encodingWorker.js:12-41 | every algorithm is selected by its label |
| Worker.RunsBound | encodingWorker.js:17-18 | for a non-empty buffer, 32 bits per run never exceeds 8 bits per byte |
| Worker.SymbolsFill | encodingWorker.js:157-166 | the pixels of a well-formed image, written back, are the image |
| Worker.RunLengthCase | encodingWorker.js:12-19 | the output is the input image, originalSize = len·8, and compressedSize = 32·(runs) |
| Worker.CompressionCase | encodingWorker.js:41-47 | the output is the quantized image, and compressedSize ≤ that of RLE on the same image |
| Worker.HuffmanCase | encodingWorker.js:21-29 | an empty image is an error. Otherwise decoding never fails, a ≥ 2-colour image comes back unchanged, a 1-colour image comes back all zeros, and compressedSize is the bit-string length |
| Worker.HandleMessage | encodingWorker.js:4-59 | an unknown name replies "Unsupported algorithm.". RLE and Compression always post, with the (quantized) image back for a well-formed image and compressedSize = 32·runs. Huffman errors exactly on an empty image; otherwise compressedSize is the bit-string length, a ≥ 2-colour image comes back and a 1-colour image comes back as zeros. originalSize is len·8 in every case |

## Left out

- The arithmetic interval coder (encodingWorker.js:195-233) and `arithmeticDecoding` (encodingWorker.js:238-299) are left out. They are double-precision floating point, and their behaviour, including running out of precision, depends on IEEE rounding. Only the integer cumulative table is modelled.
- Worker.HandleMessage: requires the selector not to be "Arithmetic Encoding", because that case is excluded as above.
- Two parts of `self.onmessage` are out: `postMessage` and the receipt of the message. They are I/O, so a reply is a value.
- `console.warn` (encodingWorker.js:281) is logging, inside the excluded arithmetic decoder.
- `clamp` (encodingWorker.js:319-321) is dead code and is never called.
- `Uint8ClampedArray` clamping is modelled only for the quantizer's 256, the one value that needs it. Every other stored value is already a byte.
- Buffers whose length is not a multiple of 4 are excluded. The coders require `|data| % 4 == 0`, which a canvas `ImageData` always meets. The round-trip results also require `|data| == w·h·4`.
- `Array.prototype.sort`'s engine algorithm is modelled as a stable insertion sort. Any stable sort gives the same order.
- Error objects are modelled only by their messages: "Unsupported algorithm." and the two TypeError messages a JavaScript engine such as V8 gives for reading `key` of undefined and of null.
- Keys.Below: compares Dafny characters, which are Unicode scalar values, whereas JavaScript's default sort compares UTF-16 code units. The two orders differ only when a character above U+FFFF meets one in U+E000..U+FFFF, and every string the model sorts is a pixel key of ASCII digits and '_'.
- RunLength.DecompressRle: is modelled only for runs whose pixel has at most four bytes, which is every run the two encoders produce (`RunLength.RunPixels`). `decompressRLE` accepts arbitrary runs, and a longer pixel array would make `set` write past the slot or throw.
