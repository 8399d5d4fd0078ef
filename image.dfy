/** Pixel buffers as the encoding worker sees them: an ImageData value whose
    `data` is a Uint8ClampedArray of RGBA bytes, four per pixel, in scan order. */
module Image {

  /** One element of a Uint8ClampedArray. */
  type Byte = x: int | 0 <= x < 256

  /** One RGBA pixel; every coder treats it as one symbol. */
  datatype Pixel = Pixel(r: Byte, g: Byte, b: Byte, a: Byte)

  /** The `{ data, width, height }` object the coders receive and return. */
  datatype ImageData = ImageData(data: seq<Byte>, width: nat, height: nat)

  /** The number of pixels of an image. */
  function Area(img: ImageData): nat
  {
    img.width * img.height
  }

  /** A buffer as the canvas produces it: four bytes for each of width*height pixels. */
  predicate WellFormed(img: ImageData)
  {
    |img.data| == img.width * img.height * 4
  }

  /** The four bytes of a pixel, in channel order. */
  function Bytes(p: Pixel): (s: seq<Byte>)
    ensures |s| == 4
  {
    [p.r, p.g, p.b, p.a]
  }

  /** The pixel stored at bytes 4k .. 4k+3. */
  function PixelAt(data: seq<Byte>, k: nat): Pixel
    requires 4 * k + 4 <= |data|
  {
    Pixel(data[4 * k], data[4 * k + 1], data[4 * k + 2], data[4 * k + 3])
  }

  /** The pixels of a buffer as symbols, in scan order. */
  function Symbols(data: seq<Byte>): (ps: seq<Pixel>)
    requires |data| % 4 == 0
    ensures |ps| == |data| / 4
  {
    seq(|data| / 4, k requires 0 <= k < |data| / 4 => PixelAt(data, k))
  }

  /** The first k+1 pixels are the first k and the pixel at byte 4k. */
  lemma SymbolsNext(data: seq<Byte>, k: nat)
    requires |data| % 4 == 0 && 4 * k + 4 <= |data|
    ensures Symbols(data)[..k + 1] == Symbols(data)[..k] + [PixelAt(data, k)]
  {
    assert Symbols(data)[k] == PixelAt(data, k);
  }

  /** All k pixels of a buffer of 4k bytes. */
  lemma SymbolsPrefix(data: seq<Byte>, k: nat)
    requires |data| == 4 * k
    ensures Symbols(data)[..k] == Symbols(data)
  {
  }

  /** The pixels of a buffer as `Array.from(data.slice(4k, 4k + 4))` gives them. */
  function Slices(data: seq<Byte>): (ps: seq<seq<Byte>>)
    requires |data| % 4 == 0
    ensures |ps| == |data| / 4
    ensures forall k :: 0 <= k < |ps| ==> |ps[k]| == 4
  {
    seq(|data| / 4, k requires 0 <= k < |data| / 4 => data[4 * k .. 4 * k + 4])
  }

  /** The byte form of a sequence of symbols. */
  function SymbolBytes(ps: seq<Pixel>): (qs: seq<seq<Byte>>)
    ensures |qs| == |ps|
  {
    seq(|ps|, k requires 0 <= k < |ps| => Bytes(ps[k]))
  }

  /** Channel c of output pixel k when pixel k was written from ps[k]:
      a slot no pixel reaches, or a channel the pixel does not supply, keeps
      the zero a fresh Uint8ClampedArray starts with. */
  function Channel(ps: seq<seq<Byte>>, k: nat, c: nat): Byte
  {
    if k < |ps| && c < |ps[k]| then ps[k][c] else 0
  }

  /** The buffer a decoder leaves in a zeroed `Uint8ClampedArray(n * 4)` after
      writing pixel k from ps[k] for every k below both n and |ps|. */
  function Filled(ps: seq<seq<Byte>>, n: nat): (out: seq<Byte>)
    ensures |out| == 4 * n
    ensures forall k, c :: 0 <= k < n && 0 <= c < 4 ==> out[4 * k + c] == Channel(ps, k, c)
  {
    seq(4 * n, b requires 0 <= b < 4 * n => Channel(ps, b / 4, b % 4))
  }

  /** `n` pixels of zeros. */
  function Zeros(n: nat): (z: seq<Byte>)
    ensures |z| == n && forall b :: 0 <= b < n ==> z[b] == 0
  {
    seq(n, _ => 0)
  }

  /** Writing every pixel of a buffer back into a zeroed buffer of the same
      size gives the buffer again. */
  lemma FilledSlices(data: seq<Byte>)
    requires |data| % 4 == 0
    ensures Filled(Slices(data), |data| / 4) == data
  {
    var out := Filled(Slices(data), |data| / 4);
    forall b | 0 <= b < |data|
      ensures out[b] == data[b]
    {
      var k, c := b / 4, b % 4;
      assert b == 4 * k + c && k < |data| / 4;
      assert Slices(data)[k] == data[4 * k .. 4 * k + 4];
    }
  }

  /** The symbols of a buffer, written back as bytes, are its slices. */
  lemma SymbolBytesAreSlices(data: seq<Byte>)
    requires |data| % 4 == 0
    ensures SymbolBytes(Symbols(data)) == Slices(data)
  {
    var a, b := SymbolBytes(Symbols(data)), Slices(data);
    forall k | 0 <= k < |a|
      ensures a[k] == b[k]
    {
      assert b[k] == data[4 * k .. 4 * k + 4];
    }
  }

  /** Pixels beyond the first n never reach the buffer. */
  lemma FilledIgnoresExcess(ps: seq<seq<Byte>>, qs: seq<seq<Byte>>, n: nat)
    requires n <= |ps|
    ensures Filled(ps + qs, n) == Filled(ps, n)
  {
    var a, b := Filled(ps + qs, n), Filled(ps, n);
    forall x | 0 <= x < 4 * n
      ensures a[x] == b[x]
    {
      var k, c := x / 4, x % 4;
      assert x == 4 * k + c;
    }
  }

  /** The buffer holds the first n pixels of ps, zeros where ps runs out. */
  ghost predicate Shows(buf: array<Byte>, ps: seq<seq<Byte>>, n: nat)
    reads buf
  {
    buf.Length == 4 * n &&
    forall k, c :: 0 <= k < n && 0 <= c < 4 ==> buf[4 * k + c] == Channel(ps, k, c)
  }

  /** A buffer shows ps exactly when its contents are `Filled(ps, n)`. */
  lemma ShowsFilled(buf: array<Byte>, ps: seq<seq<Byte>>, n: nat)
    requires buf.Length == 4 * n
    ensures Shows(buf, ps, n) <==> buf[..] == Filled(ps, n)
  {
    if Shows(buf, ps, n) {
      forall b | 0 <= b < 4 * n
        ensures buf[b] == Filled(ps, n)[b]
      {
        assert b == 4 * (b / 4) + b % 4;
      }
    }
  }

  /** A buffer showing all n slots of ps also shows any continuation of ps. */
  lemma ShowsExcess(buf: array<Byte>, ps: seq<seq<Byte>>, qs: seq<seq<Byte>>, n: nat)
    requires n <= |ps| && Shows(buf, ps, n)
    ensures Shows(buf, ps + qs, n)
  {
    FilledIgnoresExcess(ps, qs, n);
    ShowsFilled(buf, ps, n);
    ShowsFilled(buf, ps + qs, n);
  }

  /** A buffer filled from no pixels at all is all zeros. */
  lemma FilledNothing(n: nat)
    ensures Filled([], n) == Zeros(4 * n)
  {
  }
}
