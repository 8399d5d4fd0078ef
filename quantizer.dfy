/** The lossy "Compression" algorithm: `compressRLE` rounds the colour
    channels to multiples of 32 and run-length encodes the result. */
module Quantizer {
  import opened Image
  import opened RunLength

  /** `Math.round(x / 32)` for a byte x: x / 32 is exact in double precision,
      and Math.round rounds halves up. */
  function RoundDiv32(x: Byte): nat
  {
    (x + 16) / 32
  }

  /** Storing a number into a Uint8ClampedArray element. */
  function ClampByte(v: int): Byte
  {
    if v < 0 then 0 else if v > 255 then 255 else v
  }

  /** One colour channel: the nearest multiple of 32 (halves rounding up),
      and 255 where that multiple would be 256. */
  function QuantizeChannel(x: Byte): (q: Byte)
    ensures q == 255 <==> x >= 240
    ensures q != 255 ==> q % 32 == 0 && x - 16 < q <= x + 16
  {
    ClampByte(RoundDiv32(x) * 32)
  }

  /** The quantized buffer: red, green and blue of every pixel quantized,
      alpha (every fourth byte) kept. */
  function Quantized(data: seq<Byte>): (q: seq<Byte>)
    ensures |q| == |data|
  {
    seq(|data|, i requires 0 <= i < |data| => if i % 4 == 3 then data[i] else QuantizeChannel(data[i]))
  }

  /** A quantized channel is already quantized. */
  lemma ChannelIdempotent(x: Byte)
    ensures QuantizeChannel(QuantizeChannel(x)) == QuantizeChannel(x)
  {
  }

  /** Quantizing twice is quantizing once. */
  lemma QuantizeIdempotent(data: seq<Byte>)
    ensures Quantized(Quantized(data)) == Quantized(data)
  {
    var q := Quantized(data);
    forall i | 0 <= i < |data|
      ensures Quantized(q)[i] == q[i]
    {
      if i % 4 != 3 {
        ChannelIdempotent(data[i]);
      }
    }
  }

  /** Quantization loses information: every channel from 16 to 47 becomes
      32, so for example the pixel (17, 0, 0, 255) becomes (32, 0, 0, 255). */
  lemma QuantizeIsLossy()
    ensures forall x: Byte :: 16 <= x < 48 ==> QuantizeChannel(x) == 32
    ensures Quantized([17, 0, 0, 255]) == [32, 0, 0, 255]
  {
    assert QuantizeChannel(17) == 32;
  }

  /** Quantizing never splits a run: equal neighbouring pixels stay equal, so
      the quantized buffer has no more colour changes than the original. */
  lemma QuantizeNeverAddsChanges(data: seq<Byte>)
    requires |data| % 4 == 0
    ensures Changes(Slices(Quantized(data))) <= Changes(Slices(data))
  {
    var ps, qs := Slices(data), Slices(Quantized(data));
    forall k | 0 < k < |ps| && ps[k - 1] == ps[k]
      ensures qs[k - 1] == qs[k]
    {
      forall c | 0 <= c < 4
        ensures qs[k - 1][c] == qs[k][c]
      {
        assert ps[k - 1][c] == ps[k][c];
        assert ps[k - 1][c] == data[4 * (k - 1) + c] && ps[k][c] == data[4 * k + c];
        assert (4 * (k - 1) + c) % 4 == c && (4 * k + c) % 4 == c;
      }
    }
    ChangesCoarser(ps, qs);
  }

  /** The four bytes of pixel k of the quantized buffer. */
  lemma QuantizedPixel(data: seq<Byte>, k: nat)
    requires 4 * k + 4 <= |data|
    ensures Quantized(data)[4 * k] == QuantizeChannel(data[4 * k])
    ensures Quantized(data)[4 * k + 1] == QuantizeChannel(data[4 * k + 1])
    ensures Quantized(data)[4 * k + 2] == QuantizeChannel(data[4 * k + 2])
    ensures Quantized(data)[4 * k + 3] == data[4 * k + 3]
  {
    assert (4 * k) % 4 == 0 && (4 * k + 1) % 4 == 1 && (4 * k + 2) % 4 == 2 && (4 * k + 3) % 4 == 3;
  }

  /** The quantizing loop of `compressRLE`, filling a fresh Uint8ClampedArray
      of the input's length four bytes at a time. */
  method Quantize(data: seq<Byte>) returns (q: seq<Byte>)
    requires |data| % 4 == 0
    ensures q == Quantized(data)
  {
    var out := new Byte[|data|](_ => 0);
    ghost var wanted := Quantized(data);
    var i := 0;
    ghost var k := 0;
    while i < |data|
      invariant 0 <= i <= |data| && i == 4 * k
      invariant forall j :: 0 <= j < i ==> out[j] == wanted[j]
    {
      QuantizedPixel(data, k);
      out[i] := ClampByte(RoundDiv32(data[i]) * 32);
      out[i + 1] := ClampByte(RoundDiv32(data[i + 1]) * 32);
      out[i + 2] := ClampByte(RoundDiv32(data[i + 2]) * 32);
      out[i + 3] := data[i + 3];
      i, k := i + 4, k + 1;
    }
    q := out[..];
  }

  /** `compressRLE`: the runs of the quantized buffer. */
  method CompressRle(img: ImageData) returns (runs: seq<Run>)
    requires |img.data| % 4 == 0
    ensures EncodesAsRuns(Quantized(img.data), runs)
  {
    var q := Quantize(img.data);
    runs := RunLengthEncoding(q);
  }
}
