/** Run-length coding: `runLengthEncoding` turns the pixels of a buffer into
    `{pixel, count}` runs, `decompressRLE` replays runs into a fresh buffer. */
module RunLength {
  import opened Image

  /** `{ pixel: Array.from(slice), count }`; the pixel is the slice itself,
      which is empty in the one case of an empty buffer. */
  datatype Run = Run(pixel: seq<Byte>, count: nat)

  function Repeat(p: seq<Byte>, n: nat): (ps: seq<seq<Byte>>)
    ensures |ps| == n && forall k :: 0 <= k < n ==> ps[k] == p
  {
    seq(n, _ => p)
  }

  /** The pixels a sequence of runs stands for, in order. */
  function Expand(runs: seq<Run>): seq<seq<Byte>>
  {
    if runs == [] then []
    else Expand(runs[..|runs| - 1]) + Repeat(runs[|runs| - 1].pixel, runs[|runs| - 1].count)
  }

  /** The sum of the counts of the runs. */
  function TotalCount(runs: seq<Run>): nat
  {
    if runs == [] then 0 else TotalCount(runs[..|runs| - 1]) + runs[|runs| - 1].count
  }

  /** Every run stands for at least one pixel. */
  predicate Positive(runs: seq<Run>)
  {
    forall i :: 0 <= i < |runs| ==> runs[i].count >= 1
  }

  /** No two adjacent runs carry the same pixel. */
  predicate Maximal(runs: seq<Run>)
  {
    forall i :: 0 < i < |runs| ==> runs[i - 1].pixel != runs[i].pixel
  }

  /** What the encoder promises about its runs for a buffer: for an empty
      buffer the single run `{pixel: [], count: 1}` that `slice(-4)` yields;
      otherwise positive, maximal runs that expand to the buffer's pixels. */
  predicate EncodesAsRuns(data: seq<Byte>, runs: seq<Run>)
    requires |data| % 4 == 0
  {
    if |data| == 0 then runs == [Run([], 1)]
    else Expand(runs) == Slices(data) && Positive(runs) && Maximal(runs)
  }

  /** The number of places where a pixel differs from the one before it. */
  function Changes(ps: seq<seq<Byte>>): nat
  {
    if |ps| < 2 then 0
    else Changes(ps[..|ps| - 1]) + (if ps[|ps| - 2] != ps[|ps| - 1] then 1 else 0)
  }

  lemma {:induction false} ExpandLength(runs: seq<Run>)
    ensures |Expand(runs)| == TotalCount(runs)
  {
    if runs != [] {
      ExpandLength(runs[..|runs| - 1]);
    }
  }

  /** The last pixel of positive runs is the pixel of the last run. */
  lemma ExpandLast(runs: seq<Run>)
    requires runs != [] && Positive(runs)
    ensures Expand(runs) != [] && Expand(runs)[|Expand(runs)| - 1] == runs[|runs| - 1].pixel
  {
  }

  /** Appending the copies of a pixel adds one change exactly when the pixel
      differs from the one before. */
  lemma {:induction false} ChangesRepeat(ps: seq<seq<Byte>>, p: seq<Byte>, n: nat)
    requires n >= 1
    ensures Changes(ps + Repeat(p, n)) ==
            Changes(ps) + (if ps != [] && ps[|ps| - 1] != p then 1 else 0)
  {
    if n == 1 {
      assert ps + Repeat(p, n) == ps + [p];
      assert (ps + [p])[..|ps|] == ps;
    } else {
      ChangesRepeat(ps, p, n - 1);
      assert ps + Repeat(p, n) == (ps + Repeat(p, n - 1)) + [p];
      assert (ps + Repeat(p, n))[..|ps| + n - 1] == ps + Repeat(p, n - 1);
    }
  }

  /** Positive, maximal runs are determined by their pixels: there is one run
      per place where the pixel changes, plus the first run. */
  lemma {:induction false} RunsCountChanges(runs: seq<Run>)
    requires runs != [] && Positive(runs) && Maximal(runs)
    ensures |runs| == Changes(Expand(runs)) + 1
  {
    var init, last := runs[..|runs| - 1], runs[|runs| - 1];
    ChangesRepeat(Expand(init), last.pixel, last.count);
    if init != [] {
      RunsCountChanges(init);
      ExpandLast(init);
    }
  }

  /** `output.data.set(pixel, offset)`: copy the pixel's bytes to the buffer. */
  method SetPixel(buf: array<Byte>, pixel: seq<Byte>, offset: nat)
    requires offset + |pixel| <= buf.Length
    modifies buf
    ensures forall b :: 0 <= b < buf.Length ==>
      buf[b] == if offset <= b < offset + |pixel| then pixel[b - offset] else old(buf[b])
  {
    var c := 0;
    while c < |pixel|
      invariant 0 <= c <= |pixel|
      invariant forall b :: 0 <= b < buf.Length ==>
        buf[b] == if offset <= b < offset + c then pixel[b - offset] else old(buf[b])
    {
      buf[offset + c] := pixel[c];
      c := c + 1;
    }
  }

  /** The pixels of the first k+1 slots are those of the first k and the
      pixel at byte 4k. */
  lemma SlicesExtend(data: seq<Byte>, k: nat)
    requires |data| % 4 == 0 && 4 * k + 4 <= |data|
    ensures Slices(data)[..k + 1] == Slices(data)[..k] + [data[4 * k .. 4 * k + 4]]
  {
    assert Slices(data)[k] == data[4 * k .. 4 * k + 4];
  }

  /** Comparing two pixels byte by byte is comparing them as slices. */
  lemma SamePixel(data: seq<Byte>, i: nat)
    requires 4 <= i && i + 4 <= |data|
    ensures (data[i] == data[i - 4] && data[i + 1] == data[i - 3] &&
             data[i + 2] == data[i - 2] && data[i + 3] == data[i - 1])
            <==> data[i .. i + 4] == data[i - 4 .. i]
  {
    if data[i .. i + 4] == data[i - 4 .. i] {
      assert data[i .. i + 4][0] == data[i - 4 .. i][0];
      assert data[i .. i + 4][1] == data[i - 4 .. i][1];
      assert data[i .. i + 4][2] == data[i - 4 .. i][2];
      assert data[i .. i + 4][3] == data[i - 4 .. i][3];
    }
  }

  /** The encoder after reading the first k pixels (bytes below 4k): the
      closed runs and the pending run of `count` copies of pixel k-1 stand
      for those pixels, and the pending pixel differs from the last closed run. */
  ghost predicate Scanned(data: seq<Byte>, k: nat, runs: seq<Run>, count: nat)
  {
    |data| % 4 == 0 && 1 <= k && 4 * k <= |data| && count >= 1 &&
    Expand(runs) + Repeat(data[4 * k - 4 .. 4 * k], count) == Slices(data)[..k] &&
    Positive(runs) && Maximal(runs) &&
    (runs != [] ==> runs[|runs| - 1].pixel != data[4 * k - 4 .. 4 * k])
  }

  /** Before the loop the first pixel is pending, once. */
  lemma ScanStart(data: seq<Byte>)
    requires |data| % 4 == 0 && |data| >= 4
    ensures Scanned(data, 1, [], 1)
  {
    assert Slices(data)[..1] == [data[0 .. 4]];
  }

  /** Closing a pending run keeps the runs positive and maximal. */
  lemma PushRun(runs: seq<Run>, run: Run)
    requires Positive(runs) && Maximal(runs) && run.count >= 1
    requires runs != [] ==> runs[|runs| - 1].pixel != run.pixel
    ensures Positive(runs + [run]) && Maximal(runs + [run])
  {
  }

  /** One step of the encoder when pixel k repeats the pending one: the
      pending run grows. */
  lemma ScanSame(data: seq<Byte>, k: nat, runs: seq<Run>, count: nat)
    requires Scanned(data, k, runs, count) && 4 * k + 4 <= |data|
    requires data[4 * k .. 4 * k + 4] == data[4 * k - 4 .. 4 * k]
    ensures Scanned(data, k + 1, runs, count + 1)
  {
    var p := data[4 * k - 4 .. 4 * k];
    SlicesExtend(data, k);
    assert Repeat(p, count + 1) == Repeat(p, count) + [p];
    assert Expand(runs) + Repeat(p, count + 1) == (Expand(runs) + Repeat(p, count)) + [p];
  }

  /** One step of the encoder when pixel k differs from the pending one: the
      pending run is closed and pixel k is pending. */
  lemma ScanNew(data: seq<Byte>, k: nat, runs: seq<Run>, count: nat)
    requires Scanned(data, k, runs, count) && 4 * k + 4 <= |data|
    requires data[4 * k .. 4 * k + 4] != data[4 * k - 4 .. 4 * k]
    ensures Scanned(data, k + 1, runs + [Run(data[4 * k - 4 .. 4 * k], count)], 1)
  {
    var p, q := data[4 * k - 4 .. 4 * k], data[4 * k .. 4 * k + 4];
    var runs' := runs + [Run(p, count)];
    SlicesExtend(data, k);
    assert runs'[..|runs|] == runs;
    assert Expand(runs') == Expand(runs) + Repeat(p, count);
    assert Repeat(q, 1) == [q];
    PushRun(runs, Run(p, count));
  }

  /** After the loop the pending run is pushed: the runs encode the buffer. */
  lemma ScanDone(data: seq<Byte>, k: nat, runs: seq<Run>, count: nat)
    requires Scanned(data, k, runs, count) && 4 * k == |data|
    ensures EncodesAsRuns(data, runs + [Run(data[|data| - 4 ..], count)])
    ensures TotalCount(runs + [Run(data[|data| - 4 ..], count)]) == |data| / 4
  {
    var last := Run(data[|data| - 4 ..], count);
    assert last.pixel == data[4 * k - 4 .. 4 * k];
    assert (runs + [last])[..|runs|] == runs;
    assert Expand(runs + [last]) == Expand(runs) + Repeat(last.pixel, count);
    assert Slices(data)[..k] == Slices(data);
    PushRun(runs, last);
    ExpandLength(runs + [last]);
  }

  /** One pass of the loop of `runLengthEncoding` at byte i = 4k: compare
      pixel k with the pixel before it, then count it or push the pending run. */
  method ScanStep(data: seq<Byte>, i: nat, ghost k: nat, runs: seq<Run>, count: nat)
    returns (runs': seq<Run>, count': nat)
    requires i == 4 * k && i + 4 <= |data| && Scanned(data, k, runs, count)
    ensures Scanned(data, k + 1, runs', count')
  {
    SamePixel(data, i);
    if data[i] == data[i - 4] && data[i + 1] == data[i - 3]
       && data[i + 2] == data[i - 2] && data[i + 3] == data[i - 1]
    {
      ScanSame(data, k, runs, count);
      runs', count' := runs, count + 1;
    } else {
      ScanNew(data, k, runs, count);
      runs', count' := runs + [Run(data[i - 4 .. i], count)], 1;
    }
  }

  /** The loop of `runLengthEncoding`, from the second pixel on: the runs
      closed so far and the count of the pending run, after all k pixels. */
  method ScanPixels(data: seq<Byte>, ghost k: nat) returns (runs: seq<Run>, count: nat)
    requires |data| == 4 * k && k >= 1
    ensures Scanned(data, k, runs, count)
  {
    runs := [];
    count := 1;
    var i := 4;
    ghost var j := 1;
    ScanStart(data);
    while i < |data|
      invariant i == 4 * j && j <= k
      invariant Scanned(data, j, runs, count)
    {
      runs, count := ScanStep(data, i, j, runs, count);
      i, j := i + 4, j + 1;
    }
  }

  /** `runLengthEncoding`: one run per stretch of identical pixels, the last
      run pushed after the loop. On an empty buffer the loop does not run and
      `data.slice(-4)` is empty. */
  method RunLengthEncoding(data: seq<Byte>) returns (runs: seq<Run>)
    requires |data| % 4 == 0
    ensures EncodesAsRuns(data, runs)
    ensures |data| > 0 ==> TotalCount(runs) == |data| / 4
  {
    if |data| == 0 {
      runs := [Run(data[0..], 1)];
      return;
    }
    ghost var k := |data| / 4;
    var count;
    runs, count := ScanPixels(data, k);
    ScanDone(data, k, runs, count);
    runs := runs + [Run(data[|data| - 4 ..], count)];
  }


  /** One pass of the inner loop of `decompressRLE`: write the next pixel at
      slot |ps|. */
  method WritePixel(buf: array<Byte>, n: nat, i: nat, ghost ps: seq<seq<Byte>>, pixel: seq<Byte>)
    requires i == |ps| < n && |pixel| <= 4 && Shows(buf, ps, n)
    modifies buf
    ensures Shows(buf, ps + [pixel], n)
  {
    ghost var before := buf[..];
    SetPixel(buf, pixel, i * 4);
    forall k, c | 0 <= k < n && 0 <= c < 4
      ensures buf[4 * k + c] == Channel(ps + [pixel], k, c)
    {
      assert before[4 * k + c] == Channel(ps, k, c);
      if k == |ps| {
        assert (ps + [pixel])[k] == pixel;
      } else {
        assert !(i * 4 <= 4 * k + c < i * 4 + |pixel|);
        if k < |ps| {
          assert (ps + [pixel])[k] == ps[k];
        }
      }
    }
  }

  /** The `for (let j = 0; j < count; j++)` loop of `decompressRLE`: write
      copies of the run's pixel at slot i onwards, stopping at the last slot;
      copies past it never reach the buffer. */
  method ReplayRun(buf: array<Byte>, n: nat, i: nat, ghost done: seq<seq<Byte>>, run: Run) returns (i': nat)
    requires |run.pixel| <= 4 && Shows(buf, done, n)
    requires i == if |done| < n then |done| else n
    modifies buf
    ensures i' == if |done| + run.count < n then |done| + run.count else n
    ensures Shows(buf, done + Repeat(run.pixel, run.count), n)
  {
    i' := i;
    var j := 0;
    assert done + Repeat(run.pixel, 0) == done;
    while j < run.count
      invariant 0 <= j <= run.count
      invariant i' == if |done| + j < n then |done| + j else n
      invariant Shows(buf, done + Repeat(run.pixel, j), n)
    {
      if i' >= n {
        break;
      }
      WritePixel(buf, n, i', done + Repeat(run.pixel, j), run.pixel);
      assert done + Repeat(run.pixel, j + 1) == (done + Repeat(run.pixel, j)) + [run.pixel];
      i' := i' + 1;
      j := j + 1;
    }
    if j < run.count {
      ShowsExcess(buf, done + Repeat(run.pixel, j), Repeat(run.pixel, run.count - j), n);
      assert done + Repeat(run.pixel, run.count)
          == (done + Repeat(run.pixel, j)) + Repeat(run.pixel, run.count - j);
    }
  }

  /** `decompressRLE`: replay the runs into a zeroed buffer of width*height
      pixels, writing no pixel past the last one. */
  method DecompressRle(runs: seq<Run>, width: nat, height: nat) returns (out: ImageData)
    requires forall r :: 0 <= r < |runs| ==> |runs[r].pixel| <= 4
    ensures out == ImageData(Filled(Expand(runs), width * height), width, height)
  {
    var n := width * height;
    var buf := new Byte[n * 4](_ => 0);
    var i := 0;
    var r := 0;
    assert runs[..0] == [];
    while r < |runs|
      invariant 0 <= r <= |runs|
      invariant i == if |Expand(runs[..r])| < n then |Expand(runs[..r])| else n
      invariant Shows(buf, Expand(runs[..r]), n)
    {
      assert Expand(runs[..r + 1]) == Expand(runs[..r]) + Repeat(runs[r].pixel, runs[r].count) by {
        assert runs[..r + 1][..r] == runs[..r];
      }
      i := ReplayRun(buf, n, i, Expand(runs[..r]), runs[r]);
      r := r + 1;
    }
    assert runs[..r] == runs;
    ShowsFilled(buf, Expand(runs), n);
    out := ImageData(buf[..], width, height);
  }

  /** Decoding the runs the encoder promises gives back the buffer, for every
      well-formed buffer, the empty one included. */
  lemma RoundTrip(img: ImageData, runs: seq<Run>)
    requires WellFormed(img) && EncodesAsRuns(img.data, runs)
    ensures Filled(Expand(runs), img.width * img.height) == img.data
  {
    if |img.data| > 0 {
      FilledSlices(img.data);
    }
  }

  /** The encoder's runs number one more than the places where the pixel
      changes, and never more than the pixels. */
  lemma RunCount(data: seq<Byte>, runs: seq<Run>)
    requires |data| % 4 == 0 && EncodesAsRuns(data, runs)
    ensures |data| > 0 ==> |runs| == Changes(Slices(data)) + 1 && |runs| <= |data| / 4
    ensures |data| == 0 ==> |runs| == 1
  {
    if |data| > 0 {
      RunsCountChanges(runs);
      ChangesBound(Slices(data));
    }
  }

  lemma {:induction false} ChangesBound(ps: seq<seq<Byte>>)
    ensures ps != [] ==> Changes(ps) < |ps|
  {
    if |ps| >= 2 {
      ChangesBound(ps[..|ps| - 1]);
    }
  }

  /** A sequence that repeats a pixel wherever ps does has no more changes. */
  lemma {:induction false} ChangesCoarser(ps: seq<seq<Byte>>, qs: seq<seq<Byte>>)
    requires |qs| == |ps|
    requires forall i :: 0 < i < |ps| && ps[i - 1] == ps[i] ==> qs[i - 1] == qs[i]
    ensures Changes(qs) <= Changes(ps)
  {
    if |ps| >= 2 {
      ChangesCoarser(ps[..|ps| - 1], qs[..|qs| - 1]);
    }
  }

  /** Every run's pixel occurs in the expansion. */
  lemma {:induction false} ExpandContains(runs: seq<Run>, r: nat)
    requires Positive(runs) && r < |runs|
    ensures runs[r].pixel in Expand(runs)
    decreases |runs|
  {
    var init := runs[..|runs| - 1];
    if r == |runs| - 1 {
      ExpandLast(runs);
    } else {
      assert init[r] == runs[r];
      ExpandContains(init, r);
    }
  }

  /** The encoder's runs carry at most four bytes each, as the decoder needs. */
  lemma RunPixels(data: seq<Byte>, runs: seq<Run>)
    requires |data| % 4 == 0 && EncodesAsRuns(data, runs)
    ensures forall r :: 0 <= r < |runs| ==> |runs[r].pixel| <= 4
  {
    if |data| > 0 {
      forall r | 0 <= r < |runs|
        ensures |runs[r].pixel| <= 4
      {
        ExpandContains(runs, r);
      }
    }
  }
}
